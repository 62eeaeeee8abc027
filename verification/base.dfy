/** Small shared vocabulary: optional values, results, and searching a
    string for a character. */
module Base {

  datatype Option<+T> = None | Some(value: T)

  /** The outcome of an operation the source may abort (`fail`, a failed
      `assert`, or a raised condition nobody traps). */
  datatype Result<+T, +E> = Ok(value: T) | Err(error: E)

  /** `s` does not contain `c`. */
  predicate Lacks(s: string, c: char) {
    forall k :: 0 <= k < |s| ==> s[k] != c
  }

  /** Position of the right-most `c` in `s`, as `str::rfind` returns it. */
  function LastIndexOf(s: string, c: char): (r: Option<nat>)
    ensures r.None? <==> Lacks(s, c)
    ensures r.Some? ==> r.value < |s| && s[r.value] == c && Lacks(s[r.value + 1..], c)
  {
    if |s| == 0 then None
    else if s[|s| - 1] == c then Some(|s| - 1)
    else
      var r := LastIndexOf(s[..|s| - 1], c);
      assert s[..|s| - 1] + [s[|s| - 1]] == s;
      r
  }

  /** Position of the left-most `c` in `s`. */
  function IndexOf(s: string, c: char): (r: Option<nat>)
    ensures r.None? <==> Lacks(s, c)
    ensures r.Some? ==> r.value < |s| && s[r.value] == c && Lacks(s[..r.value], c)
  {
    if |s| == 0 then None
    else if s[0] == c then Some(0)
    else
      match IndexOf(s[1..], c)
      case None => None
      case Some(k) => Some(k + 1)
  }

  /** `str::replace(s, [from], [to])` for one-character patterns. */
  function ReplaceChar(s: string, from: char, to: char): (r: string)
    ensures |r| == |s|
    ensures forall k :: 0 <= k < |s| ==> r[k] == (if s[k] == from then to else s[k])
  {
    if |s| == 0 then [] else [if s[0] == from then to else s[0]] + ReplaceChar(s[1..], from, to)
  }

  /** A `c` with no `c` after it is the one `LastIndexOf` reports. */
  lemma LastIndexOfIs(s: string, c: char, k: nat)
    requires k < |s| && s[k] == c && Lacks(s[k + 1..], c)
    ensures LastIndexOf(s, c) == Some(k)
  {
  }

  /** A `c` with no `c` before it is the one `IndexOf` reports. */
  lemma IndexOfIs(s: string, c: char, k: nat)
    requires k < |s| && s[k] == c && Lacks(s[..k], c)
    ensures IndexOf(s, c) == Some(k)
  {
  }

  /** Neither part holds `c`, so their concatenation does not. */
  lemma LacksConcat(a: string, b: string, c: char)
    requires Lacks(a, c) && Lacks(b, c)
    ensures Lacks(a + b, c)
  {
    forall k | 0 <= k < |a + b| ensures (a + b)[k] != c {
      if k >= |a| { assert (a + b)[k] == b[k - |a|]; }
    }
  }

  lemma ConcatAssoc<T>(a: seq<T>, b: seq<T>, c: seq<T>)
    ensures (a + b) + c == a + (b + c)
  {
  }

  lemma SnocLast<T>(s: seq<T>)
    requires |s| > 0
    ensures s[..|s| - 1] + [s[|s| - 1]] == s
  {
  }

  /** A slice splits at any point between its ends. */
  lemma SliceSplit<T>(s: seq<T>, i: nat, j: nat, k: nat)
    requires i <= j <= k <= |s|
    ensures s[i..k] == s[i..j] + s[j..k]
  {
  }

  /** If `s` is `p` followed by `x` and `y`, and `a` is `p` followed by
      `x`, then `s` is `a` followed by `y`. */
  lemma Regroup<T>(s: seq<T>, a: seq<T>, p: seq<T>, x: seq<T>, y: seq<T>)
    requires s == p + (x + y) && a == p + x
    ensures s == a + y
  {
  }

  /** The strings `f` gives for the elements of `v`, one after the other. */
  function Flatten<T>(v: seq<T>, f: T -> string): string
  {
    if |v| == 0 then [] else Flatten(v[..|v| - 1], f) + f(v[|v| - 1])
  }

  lemma {:induction false} FlattenAppend<T>(a: seq<T>, b: seq<T>, f: T -> string)
    ensures Flatten(a + b, f) == Flatten(a, f) + Flatten(b, f)
    decreases |b|
  {
    if |b| == 0 {
      assert a + b == a;
    } else {
      var ab := a + b;
      assert ab[..|ab| - 1] == a + b[..|b| - 1];
      assert ab[|ab| - 1] == b[|b| - 1];
      FlattenAppend(a, b[..|b| - 1], f);
    }
  }

  lemma FlattenSnoc<T>(v: seq<T>, x: T, f: T -> string)
    ensures Flatten(v + [x], f) == Flatten(v, f) + f(x)
  {
    assert (v + [x])[..|v|] == v;
  }

  lemma FlattenOne<T>(x: T, f: T -> string)
    ensures Flatten([x], f) == f(x)
  {
    FlattenSnoc([], x, f);
    assert [] + [x] == [x];
  }

  /** An element standing for a pair, followed by elements standing for
      the rest, stands for the pair followed by the rest. */
  lemma FlattenPairStep<T>(x: T, rest: seq<T>, a: T, b: T, t: seq<T>, f: T -> string)
    requires f(x) == f(a) + f(b) && Flatten(rest, f) == Flatten(t, f)
    ensures Flatten([x] + rest, f) == Flatten([a, b] + t, f)
  {
    FlattenAppend([x], rest, f);
    FlattenOne(x, f);
    FlattenAppend([a, b], t, f);
    assert [a, b] == [a] + [b];
    FlattenSnoc([a], b, f);
    FlattenOne(a, f);
  }

  /** Pieces standing for neighbouring slices stand for the slice that
      spans them. */
  lemma FlattenSnocSlice<T>(v: seq<T>, x: T, f: T -> string, s: string, i: nat, j: nat, k: nat)
    requires i <= j <= k <= |s| && Flatten(v, f) == s[i..j] && f(x) == s[j..k]
    ensures Flatten(v + [x], f) == s[i..k]
  {
    FlattenSnoc(v, x, f);
    SliceSplit(s, i, j, k);
  }

  /** Replacing the first `n` pairs of `src` by one element each whose
      string is the pair's two strings keeps the flattened string. */
  lemma {:induction false} FlattenPairs<T>(src: seq<T>, pairs: seq<T>, n: nat, f: T -> string)
    requires 2 * n <= |src| && n <= |pairs|
    requires forall k :: 0 <= k < n ==> f(pairs[k]) == f(src[2 * k]) + f(src[2 * k + 1])
    ensures Flatten(pairs[..n], f) == Flatten(src[..2 * n], f)
    decreases n
  {
    if n > 0 {
      FlattenPairs(src, pairs, n - 1, f);
      assert src[..2 * n][..2 * n - 1] == src[..2 * n - 1];
      assert src[..2 * n - 1][..2 * n - 2] == src[..2 * n - 2];
      assert pairs[..n][..n - 1] == pairs[..n - 1];
    }
  }

  /** After the first `half` pairs of `src[..len]` are replaced by `pairs`,
      an odd element left over follows them and the string is kept. */
  lemma FlattenRound<T>(src: seq<T>, pairs: seq<T>, half: nat, len: nat, f: T -> string)
    requires 2 * half <= len <= 2 * half + 1 && len <= |src| && |pairs| == half
    requires Flatten(pairs, f) == Flatten(src[..2 * half], f)
    ensures Flatten(pairs + src[2 * half..len], f) == Flatten(src[..len], f)
  {
    assert src[..len] == src[..2 * half] + src[2 * half..len];
    FlattenAppend(pairs, src[2 * half..len], f);
    FlattenAppend(src[..2 * half], src[2 * half..len], f);
  }

  /** Appending the element made from the next pair keeps "element `k`
      is made from pair `k`" for every element. */
  lemma SnocPairs<T>(src: seq<T>, pairs: seq<T>, x: T, f: (T, T) -> T)
    requires 2 * |pairs| + 2 <= |src|
    requires forall k :: 0 <= k < |pairs| ==> pairs[k] == f(src[2 * k], src[2 * k + 1])
    requires x == f(src[2 * |pairs|], src[2 * |pairs| + 1])
    ensures forall k :: 0 <= k < |pairs| + 1 ==> (pairs + [x])[k] == f(src[2 * k], src[2 * k + 1])
  { }
}
