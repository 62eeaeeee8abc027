/** A model of the posix flavour of `std::path` as rustpkg uses it: a path
    is a flag saying whether it is absolute plus a list of components.
    `std::path` itself is not part of this model; its behaviour is written
    out here as the operations rustpkg relies on. */
module Paths {
  import opened Base

  datatype Path = Path(absolute: bool, comps: seq<string>)

  const Sep: char := '/'

  /** Every component is non-empty and holds no separator, which is how
      `Path(s)` and `push` build them. */
  predicate WellFormed(cs: seq<string>) {
    forall k :: 0 <= k < |cs| ==> cs[k] != [] && Lacks(cs[k], Sep)
  }

  /** A single component: a non-empty string without a separator. */
  predicate IsComponent(c: string) {
    c != [] && Lacks(c, Sep)
  }

  /** The non-empty pieces of `s` between separators (`each_split_nonempty`). */
  function Split(s: string): seq<string>
    decreases |s|
  {
    match IndexOf(s, Sep)
    case None => if s == [] then [] else [s]
    case Some(k) => (if k == 0 then [] else [s[..k]]) + Split(s[k + 1..])
  }

  /** The components joined by separators (`str::connect(comps, "/")`). */
  function Join(cs: seq<string>): string
  {
    if |cs| == 0 then []
    else if |cs| == 1 then cs[0]
    else Join(cs[..|cs| - 1]) + [Sep] + cs[|cs| - 1]
  }

  /** `to_str`: a leading separator for an absolute path, then the components. */
  function ToStr(p: Path): string {
    (if p.absolute then [Sep] else []) + Join(p.comps)
  }

  /** `p.push(s)`: `s` is split at separators and its pieces appended. */
  function Push(p: Path, s: string): Path {
    Path(p.absolute, p.comps + Split(s))
  }

  /** `p.push_rel(q)`: the components of the relative path `q` appended. */
  function PushRel(p: Path, q: Path): Path {
    Path(p.absolute, p.comps + q.comps)
  }

  /** `filename`: the last component, if any. */
  function FileName(p: Path): Option<string> {
    if |p.comps| == 0 then None else Some(p.comps[|p.comps| - 1])
  }

  /** The part of a file name before its right-most dot (all of it if none). */
  function StemOf(f: string): string {
    match LastIndexOf(f, '.')
    case None => f
    case Some(k) => f[..k]
  }

  /** The part of a file name from its right-most dot on (empty if none). */
  function TypeOf(f: string): string {
    match LastIndexOf(f, '.')
    case None => []
    case Some(k) => f[k..]
  }

  /** `filestem`: the file name up to its right-most dot. */
  function FileStem(p: Path): Option<string> {
    match FileName(p)
    case None => None
    case Some(f) => Some(StemOf(f))
  }

  /** `filetype`: the file name from its right-most dot on, dot included. */
  function FileType(p: Path): Option<string> {
    match FileName(p)
    case None => None
    case Some(f) => if TypeOf(f) == [] then None else Some(TypeOf(f))
  }

  /** `with_filename`: the parent directory with `f` pushed onto it. */
  function WithFileName(p: Path, f: string): Path {
    var dir := if |p.comps| == 0 then p.comps else p.comps[..|p.comps| - 1];
    Path(p.absolute, dir + Split(f))
  }

  /** `with_filestem`: the file name becomes `s` followed by the old file type. */
  function WithFileStem(p: Path, s: string): Path {
    match FileType(p)
    case None => WithFileName(p, s)
    case Some(t) => WithFileName(p, s + t)
  }

  /** Lexical normalisation (`Path::normalize`): empty components are
      dropped, `.` is dropped unless it is the only component, and `..`
      cancels the component before it when there is one. */
  function NormalizeComps(cs: seq<string>): seq<string> {
    NormalizeFrom([], cs, |cs| > 1)
  }

  function NormalizeFrom(acc: seq<string>, rest: seq<string>, dropDots: bool): seq<string>
    decreases |rest|
  {
    if |rest| == 0 then acc
    else
      var c := rest[0];
      if c == "." && dropDots then NormalizeFrom(acc, rest[1..], dropDots)
      else if c == "" then NormalizeFrom(acc, rest[1..], dropDots)
      else if c == ".." && |acc| != 0 then NormalizeFrom(acc[..|acc| - 1], rest[1..], dropDots)
      else NormalizeFrom(acc + [c], rest[1..], dropDots)
  }

  function LexicalNormalize(p: Path): Path {
    Path(p.absolute, NormalizeComps(p.comps))
  }

  /** No component is `.`, `..` or empty: normalisation leaves such a path alone. */
  predicate Plain(cs: seq<string>) {
    forall k :: 0 <= k < |cs| ==> cs[k] != "." && cs[k] != ".." && cs[k] != ""
  }

  lemma {:induction false} NormalizeFromPlain(acc: seq<string>, rest: seq<string>, dropDots: bool)
    requires Plain(rest)
    ensures NormalizeFrom(acc, rest, dropDots) == acc + rest
    decreases |rest|
  {
    if |rest| > 0 {
      NormalizeFromPlain(acc + [rest[0]], rest[1..], dropDots);
      assert acc + [rest[0]] + rest[1..] == acc + rest;
    }
  }

  /** Normalising a path whose components are all plain names changes nothing. */
  lemma NormalizePlain(p: Path)
    requires Plain(p.comps)
    ensures LexicalNormalize(p) == p
  {
    NormalizeFromPlain([], p.comps, |p.comps| > 1);
  }

  lemma SplitComponent(c: string)
    requires IsComponent(c)
    ensures Split(c) == [c]
  {
  }

  /** The first separator of `s` ends its first piece. */
  lemma SplitAt(s: string, k: nat)
    requires k < |s| && s[k] == Sep && Lacks(s[..k], Sep)
    ensures Split(s) == (if k == 0 then [] else [s[..k]]) + Split(s[k + 1..])
  {
    IndexOfIs(s, Sep, k);
  }

  lemma WellFormedConcat(a: seq<string>, b: seq<string>)
    requires WellFormed(a) && WellFormed(b)
    ensures WellFormed(a + b)
  {
    forall k | 0 <= k < |a + b| ensures (a + b)[k] != [] && Lacks((a + b)[k], Sep) {
      if k < |a| { assert (a + b)[k] == a[k]; } else { assert (a + b)[k] == b[k - |a|]; }
    }
  }

  /** Every piece is a well-formed component. */
  lemma {:induction false} SplitWellFormed(s: string)
    ensures WellFormed(Split(s))
    decreases |s|
  {
    match IndexOf(s, Sep)
    case None =>
      SplitNone(s);
    case Some(k) =>
      SplitAt(s, k);
      SplitWellFormed(s[k + 1..]);
      var first: seq<string> := if k == 0 then [] else [s[..k]];
      assert WellFormed(first);
      WellFormedConcat(first, Split(s[k + 1..]));
  }

  /** Without a separator, `s` is one piece or none. */
  lemma SplitNone(s: string)
    requires Lacks(s, Sep)
    ensures Split(s) == if s == [] then [] else [s]
  {
  }

  /** Splitting at a separator splits the two sides apart. */
  lemma {:induction false} SplitAppend(a: string, b: string)
    ensures Split(a + [Sep] + b) == Split(a) + Split(b)
    decreases |a|, 1
  {
    match IndexOf(a, Sep)
    case None =>
      var s := a + [Sep] + b;
      assert s[..|a|] == a && s[|a|] == Sep && s[|a| + 1..] == b;
      SplitAt(s, |a|);
      SplitNone(a);
    case Some(k) =>
      SplitAppendAfter(a, b, k);
  }

  lemma {:induction false} SplitAppendAfter(a: string, b: string, k: nat)
    requires k < |a| && a[k] == Sep && Lacks(a[..k], Sep)
    ensures Split(a + [Sep] + b) == Split(a) + Split(b)
    decreases |a|, 0
  {
    var s := a + [Sep] + b;
    var rest := a[k + 1..];
    assert s[..k] == a[..k] && s[k] == Sep;
    assert s[k + 1..] == rest + [Sep] + b;
    SplitAt(s, k);
    SplitAt(a, k);
    SplitAppend(rest, b);
    var first: seq<string> := if k == 0 then [] else [a[..k]];
    Regroup(Split(s), Split(a), first, Split(rest), Split(b));
  }

  /** Splitting a joined list of well-formed components gives them back. */
  lemma {:induction false} SplitJoin(cs: seq<string>)
    requires WellFormed(cs)
    ensures Split(Join(cs)) == cs
    decreases |cs|
  {
    if |cs| == 1 {
      SplitComponent(cs[0]);
    } else if |cs| > 1 {
      var init, last := cs[..|cs| - 1], cs[|cs| - 1];
      SplitJoin(init);
      SplitAppend(Join(init), last);
      SplitComponent(last);
      SnocLast(cs);
      assert Join(cs) == Join(init) + [Sep] + last;
    }
  }

  /** A file name is its stem followed by its type; the type, when there is
      one, is a dot followed by no other dot. */
  lemma StemTypeSplit(f: string)
    ensures StemOf(f) + TypeOf(f) == f
    ensures TypeOf(f) != [] ==> TypeOf(f)[0] == '.' && Lacks(TypeOf(f)[1..], '.')
    ensures TypeOf(f) == [] ==> Lacks(f, '.')
  {
    match LastIndexOf(f, '.')
    case None =>
    case Some(k) =>
      assert f[k..][1..] == f[k + 1..];
  }

  /** A name built from a stem and a type splits back into them, provided
      the type is a dot with no other dot after it, or the stem has no dot
      when the type is empty. */
  lemma StemTypeOfJoin(s: string, t: string)
    requires t != [] ==> t[0] == '.' && Lacks(t[1..], '.')
    requires t == [] ==> Lacks(s, '.')
    ensures StemOf(s + t) == s && TypeOf(s + t) == t
  {
    var f := s + t;
    if t == [] {
      assert f == s;
    } else {
      assert f[|s| + 1..] == t[1..];
      LastIndexOfIs(f, '.', |s|);
      assert f[..|s|] == s && f[|s|..] == t;
    }
  }

  /** A trailing name that is not `.`, `..` or empty is appended after
      whatever the components before it normalise to. */
  lemma {:induction false} NormalizeFromSnoc(acc: seq<string>, rest: seq<string>, dropDots: bool, c: string)
    requires c != "" && c != "." && c != ".."
    ensures NormalizeFrom(acc, rest + [c], dropDots) == NormalizeFrom(acc, rest, dropDots) + [c]
    decreases |rest|
  {
    var s := rest + [c];
    if |rest| == 0 {
      assert s == [c];
      assert NormalizeFrom(acc, s, dropDots) == NormalizeFrom(acc + [c], [], dropDots);
    } else {
      var x := rest[0];
      assert s[0] == x && s[1..] == rest[1..] + [c];
      if x == "." && dropDots {
        NormalizeFromSnoc(acc, rest[1..], dropDots, c);
      } else if x == "" {
        NormalizeFromSnoc(acc, rest[1..], dropDots, c);
      } else if x == ".." && |acc| != 0 {
        NormalizeFromSnoc(acc[..|acc| - 1], rest[1..], dropDots, c);
      } else {
        NormalizeFromSnoc(acc + [x], rest[1..], dropDots, c);
      }
    }
  }

  /** Normalisation keeps a plain last component as the last component, so
      the file name of a path survives it. */
  lemma NormalizeKeepsFileName(p: Path, c: string)
    requires c != "" && c != "." && c != ".."
    ensures FileName(LexicalNormalize(Path(p.absolute, p.comps + [c]))) == Some(c)
  {
    NormalizeFromSnoc([], p.comps, |p.comps + [c]| > 1, c);
  }

  /** Pushing a single component appends it. */
  lemma PushComponent(p: Path, c: string)
    requires IsComponent(c)
    ensures Push(p, c) == Path(p.absolute, p.comps + [c])
  {
    SplitComponent(c);
  }

  lemma JoinSuffix(cs: seq<string>, suffix: string)
    requires |cs| > 1
    ensures Join(cs) + suffix == Join(cs[..|cs| - 1]) + [Sep] + (cs[|cs| - 1] + suffix)
  {
  }

  /** Text without separators added to a joined path extends its last
      component. */
  lemma SplitJoinSuffix(cs: seq<string>, suffix: string)
    requires WellFormed(cs) && |cs| > 0 && Lacks(suffix, Sep)
    ensures Split(Join(cs) + suffix) == cs[..|cs| - 1] + [cs[|cs| - 1] + suffix]
  {
    var init, last := cs[..|cs| - 1], cs[|cs| - 1];
    var tail := last + suffix;
    assert IsComponent(last);
    LacksConcat(last, suffix, Sep);
    SplitComponent(tail);
    if |cs| > 1 {
      JoinSuffix(cs, suffix);
      SplitAppend(Join(init), tail);
      SplitJoin(init);
    }
  }

  /** Text without separators added to a path's string form extends its
      last component, whether the path is absolute or relative. */
  lemma SplitToStrSuffix(p: Path, suffix: string)
    requires WellFormed(p.comps) && |p.comps| > 0 && Lacks(suffix, Sep)
    ensures var cs := p.comps;
            Split(ToStr(p) + suffix) == cs[..|cs| - 1] + [cs[|cs| - 1] + suffix]
  {
    var pre: string := if p.absolute then [Sep] else [];
    var j := Join(p.comps) + suffix;
    ConcatAssoc(pre, Join(p.comps), suffix);
    if p.absolute {
      SplitLeadingSep(j);
    } else {
      assert [] + j == j;
    }
    SplitJoinSuffix(p.comps, suffix);
  }

  /** A leading separator adds no piece. */
  lemma SplitLeadingSep(s: string)
    ensures Split([Sep] + s) == Split(s)
  {
    var t := [Sep] + s;
    assert t[..0] == [] && t[1..] == s;
    SplitAt(t, 0);
  }
}
