/** Ropes (src/libstd/rope.rs): immutable binary trees whose leaves are
    byte ranges of shared strings. Every node caches its length in
    characters and in bytes and its height. A rope is either empty or a
    node. */
module Rope {
  import opened Base
  import opened Utf8

  /** The number of characters a single leaf should hold at most. */
  const HintMaxLeafCharLen: nat := 256

  /** The height above which `bal` rebuilds a rope. */
  const HintMaxNodeHeight: nat := 16

  /** A leaf: the text of `content` starting at byte `byteOffset`. */
  datatype Leaf = Leaf(byteOffset: nat, content: string)

  datatype Body = LeafBody(leaf: Leaf) | ConcatBody(left: Node, right: Node)

  /** A node with its cached character length, byte length and height. */
  datatype Node = Node(charLen: nat, byteLen: nat, height: nat, body: Body)

  /** `none` is the empty rope. */
  type Rope = Option<Node>

  /** What an operation that may `fail` does. */
  datatype Outcome<T> = Returns(value: T) | Fails

  function Max(a: nat, b: nat): nat {
    if a < b then b else a
  }

  /** The text a node stands for: a leaf covers `byteLen` bytes of its
      content from its offset, a concatenation its left then its right
      text. */
  function Text(n: Node): string
    decreases n
  {
    match n.body
    case LeafBody(x) => Slice(x.content, x.byteOffset, x.byteOffset + n.byteLen)
    case ConcatBody(l, r) => Text(l) + Text(r)
  }

  /** The caches hold what the node constructor computes: a leaf starts
      and ends at character boundaries, counts the characters between and
      has height 0; a concatenation adds up the lengths of its children and
      is one higher than the higher of them. */
  predicate Valid(n: Node)
    decreases n
  {
    match n.body
    case LeafBody(x) =>
      && IsBoundary(x.content, x.byteOffset)
      && IsBoundary(x.content, x.byteOffset + n.byteLen)
      && n.charLen == CharIndex(x.content, x.byteOffset + n.byteLen) - CharIndex(x.content, x.byteOffset)
      && n.height == 0
    case ConcatBody(l, r) =>
      && Valid(l) && Valid(r)
      && n.byteLen == l.byteLen + r.byteLen
      && n.charLen == l.charLen + r.charLen
      && n.height == Max(l.height, r.height) + 1
  }

  /** The number of concatenation levels above the deepest leaf. */
  function Depth(n: Node): nat
    decreases n
  {
    match n.body
    case LeafBody(_) => 0
    case ConcatBody(l, r) => Max(Depth(l), Depth(r)) + 1
  }

  /** The cached lengths are the lengths of the text and the cached height
      is the depth of the tree. */
  lemma {:induction false} ValidLengths(n: Node)
    requires Valid(n)
    ensures |Text(n)| == n.charLen
    ensures ByteLen(Text(n)) == n.byteLen
    ensures n.height == Depth(n)
    decreases n
  {
    match n.body
    case LeafBody(x) =>
      LeafLengths(n);
    case ConcatBody(l, r) =>
      ValidLengths(l);
      ValidLengths(r);
      ByteLenAppend(Text(l), Text(r));
  }

  lemma LeafLengths(n: Node)
    requires n.body.LeafBody? && Valid(n)
    ensures |Text(n)| == n.charLen && ByteLen(Text(n)) == n.byteLen && n.height == Depth(n)
  {
    var x := n.body.leaf;
    assert Text(n) == Slice(x.content, x.byteOffset, x.byteOffset + n.byteLen);
    SliceByteLen(x.content, x.byteOffset, x.byteOffset + n.byteLen);
  }

  /** The node constructor on a leaf, corrected: the node covers the
      `byteLen` bytes from the leaf's offset that `of_substr` asks for. */
  function NewLeaf(x: Leaf, byteLen: nat): (n: Node)
    requires IsBoundary(x.content, x.byteOffset) && IsBoundary(x.content, x.byteOffset + byteLen)
    ensures Valid(n) && n.height == 0 && n.byteLen == byteLen && n.body == LeafBody(x)
    ensures Text(n) == Slice(x.content, x.byteOffset, x.byteOffset + byteLen)
    ensures ByteLen(Text(n)) == byteLen && |Text(n)| == n.charLen
  {
    CharIndexMono(x.content, x.byteOffset, x.byteOffset + byteLen);
    var n := Node(CharIndex(x.content, x.byteOffset + byteLen) - CharIndex(x.content, x.byteOffset),
                  byteLen, 0, LeafBody(x));
    ValidLengths(n);
    n
  }

  /** The node constructor on a leaf, as written: the byte length is
      always the rest of the content after the offset, so the leaf covers
      the whole tail of the string. */
  function NewLeafAsWritten(x: Leaf): (n: Node)
    requires IsBoundary(x.content, x.byteOffset)
    ensures Valid(n) && n.height == 0
    ensures n.byteLen + x.byteOffset == ByteLen(x.content)
    ensures Text(n) == x.content[CharIndex(x.content, x.byteOffset)..]
  {
    SliceToEnd(x.content, x.byteOffset);
    NewLeaf(x, ByteLen(x.content) - x.byteOffset)
  }

  /** `concat2`: the node constructor on two children. */
  function Concat2(l: Node, r: Node): (n: Node)
    ensures n.byteLen == l.byteLen + r.byteLen
    ensures n.charLen == l.charLen + r.charLen
    ensures n.height == Max(l.height, r.height) + 1
    ensures Valid(l) && Valid(r) ==> Valid(n)
    ensures Text(n) == Text(l) + Text(r)
  {
    Node(l.charLen + r.charLen, l.byteLen + r.byteLen, Max(l.height, r.height) + 1, ConcatBody(l, r))
  }

  /** A rope is well formed when its node is valid and not empty: an empty
      text is always the empty rope. */
  predicate ValidRope(r: Rope) {
    r.Some? ==> Valid(r.value) && r.value.charLen > 0
  }

  function RopeText(r: Rope): string {
    if r.None? then [] else Text(r.value)
  }

  /** `char_len`. */
  function CharLen(r: Rope): (n: nat)
    ensures ValidRope(r) ==> n == |RopeText(r)|
    ensures ValidRope(r) ==> (n == 0 <==> r.None?)
  {
    if r.None? then 0
    else if Valid(r.value) then ValidLengths(r.value); r.value.charLen
    else r.value.charLen
  }

  /** `byte_len`. */
  function RopeByteLen(r: Rope): (n: nat)
    ensures ValidRope(r) ==> n == ByteLen(RopeText(r))
  {
    if r.None? then 0
    else if Valid(r.value) then ValidLengths(r.value); r.value.byteLen
    else r.value.byteLen
  }

  /** `height`. */
  function Height(r: Rope): (h: nat)
    ensures ValidRope(r) && r.Some? ==> h == Depth(r.value)
    ensures r.None? ==> h == 0
  {
    if r.None? then 0
    else if Valid(r.value) then ValidLengths(r.value); r.value.height
    else r.value.height
  }

  /** `empty`. */
  function Empty(): (r: Rope)
    ensures CharLen(r) == 0 && RopeByteLen(r) == 0 && Height(r) == 0
    ensures ValidRope(r) && RopeText(r) == []
  {
    None
  }

  /** `append_rope`: an empty side gives the other rope back; two
      non-empty ropes become one concatenation node, left then right. */
  function AppendRope(left: Rope, right: Rope): (r: Rope)
    ensures RopeText(r) == RopeText(left) + RopeText(right)
    ensures ValidRope(left) && ValidRope(right) ==> ValidRope(r)
    ensures left.None? ==> r == right
    ensures right.None? ==> r == left
    ensures left.Some? && right.Some? ==> r.Some? && r.value.body == ConcatBody(left.value, right.value)
  {
    match left
    case None => right
    case Some(l) =>
      match right
      case None => left
      case Some(rn) => Some(Concat2(l, rn))
  }

  /** The texts of a sequence of ropes, one after the other. */
  function Texts(v: seq<Rope>): string {
    Flatten(v, RopeText)
  }

  predicate AllValid(v: seq<Rope>) {
    forall k :: 0 <= k < |v| ==> ValidRope(v[k])
  }

  /** Appending the ropes one by one from the left. */
  function FoldAppend(v: seq<Rope>): Rope
  {
    if |v| == 0 then None else AppendRope(FoldAppend(v[..|v| - 1]), v[|v| - 1])
  }

  /** Folding `append_rope` gives the texts one after the other. */
  lemma {:induction false} FoldAppendText(v: seq<Rope>)
    ensures RopeText(FoldAppend(v)) == Texts(v)
    ensures AllValid(v) ==> ValidRope(FoldAppend(v))
    decreases |v|
  {
    if |v| > 0 {
      FoldAppendText(v[..|v| - 1]);
    }
  }

  /** `out` starts with the first `n` pairs of `ropes`, appended. */
  predicate PairedUpTo(ropes: seq<Rope>, out: seq<Rope>, n: nat)
    requires 2 * n <= |ropes| && n <= |out|
  {
    forall k {:trigger out[k]} :: 0 <= k < n ==> out[k] == AppendRope(ropes[2 * k], ropes[2 * k + 1])
  }

  lemma PairedSnoc(ropes: seq<Rope>, pairs: seq<Rope>, x: Rope)
    requires 2 * |pairs| + 2 <= |ropes| && PairedUpTo(ropes, pairs, |pairs|)
    requires x == AppendRope(ropes[2 * |pairs|], ropes[2 * |pairs| + 1])
    ensures PairedUpTo(ropes, pairs + [x], |pairs| + 1)
  {
    SnocPairs(ropes, pairs, x, AppendRope);
  }

  /** Pairing keeps the ropes well formed. */
  lemma PairedValid(ropes: seq<Rope>, out: seq<Rope>, n: nat, len: nat)
    requires 2 * n <= len <= |ropes| && n <= |out| && PairedUpTo(ropes, out, n)
    requires AllValid(ropes[..len])
    ensures AllValid(out[..n])
  {
    forall k | 0 <= k < n ensures ValidRope(out[..n][k]) {
      assert ropes[..len][2 * k] == ropes[2 * k] && ropes[..len][2 * k + 1] == ropes[2 * k + 1];
    }
  }

  /** Pairing keeps the text. */
  lemma PairedText(ropes: seq<Rope>, out: seq<Rope>, n: nat)
    requires 2 * n <= |ropes| && n <= |out| && PairedUpTo(ropes, out, n)
    ensures Texts(out[..n]) == Texts(ropes[..2 * n])
  {
    forall k | 0 <= k < n
      ensures RopeText(out[k]) == RopeText(ropes[2 * k]) + RopeText(ropes[2 * k + 1])
    {
      assert out[k] == AppendRope(ropes[2 * k], ropes[2 * k + 1]);
    }
    FlattenPairs(ropes, out, n, RopeText);
  }

  /** The pairing loop of a round of `concat`: the `i`-th result is ropes
      `2i` and `2i + 1` appended, for the first `half` pairs. */
  method MergePairs(ropes: seq<Rope>, half: nat) returns (pairs: seq<Rope>)
    requires 2 * half <= |ropes|
    ensures |pairs| == half
    ensures PairedUpTo(ropes, pairs, half)
  {
    pairs := [];
    while |pairs| < half
      invariant |pairs| <= half
      invariant PairedUpTo(ropes, pairs, |pairs|)
    {
      var i := |pairs|;
      var x := AppendRope(ropes[2 * i], ropes[2 * i + 1]);
      PairedSnoc(ropes, pairs, x);
      pairs := pairs + [x];
    }
  }

  /** One round of `concat`'s merge: the pairs are merged into the front
      of the vector and an odd last rope moves down to follow them. */
  method MergeRound(ropes: seq<Rope>, len: nat) returns (out: seq<Rope>, newLen: nat)
    requires 2 <= len <= |ropes|
    ensures |out| == |ropes| && 1 <= newLen < len
    ensures Texts(out[..newLen]) == Texts(ropes[..len])
    ensures AllValid(ropes[..len]) ==> AllValid(out[..newLen])
  {
    var half := len / 2;
    var pairs := MergePairs(ropes, half);
    assert pairs[..half] == pairs;
    PairedText(ropes, pairs, half);
    var tail := ropes[2 * half..len];
    FlattenRound(ropes, pairs, half, len, RopeText);
    if AllValid(ropes[..len]) {
      PairedValid(ropes, pairs, half, len);
      TailValid(ropes, half, len);
      AllValidAppend(pairs, tail);
    }
    out := pairs + tail + ropes[half + |tail|..];
    newLen := half + |tail|;
    assert out[..newLen] == pairs + tail;
  }

  lemma TailValid(ropes: seq<Rope>, half: nat, len: nat)
    requires 2 * half <= len <= |ropes| && AllValid(ropes[..len])
    ensures AllValid(ropes[2 * half..len])
  {
    forall k | 0 <= k < len - 2 * half ensures ValidRope(ropes[2 * half..len][k]) {
      assert ropes[2 * half..len][k] == ropes[..len][2 * half + k];
    }
  }

  lemma AllValidAppend(a: seq<Rope>, b: seq<Rope>)
    requires AllValid(a) && AllValid(b)
    ensures AllValid(a + b)
  {
    forall k | 0 <= k < |a + b| ensures ValidRope((a + b)[k]) {
      if k < |a| { assert (a + b)[k] == a[k]; } else { assert (a + b)[k] == b[k - |a|]; }
    }
  }

  /** `concat`: the ropes are merged pairwise, left to right, until one is
      left. The text is that of the ropes in order, as when folding
      `append_rope` over them. */
  method Concat(v: seq<Rope>) returns (r: Rope)
    ensures RopeText(r) == Texts(v)
    ensures RopeText(r) == RopeText(FoldAppend(v))
    ensures AllValid(v) ==> ValidRope(r)
    ensures |v| == 0 ==> r == None
    ensures |v| == 1 ==> r == v[0]
  {
    FoldAppendText(v);
    var len := |v|;
    if len == 0 {
      r := None;
    } else {
      var ropes := v;
      assert ropes[..len] == v;
      while len > 1
        invariant 1 <= len <= |ropes| == |v|
        invariant Texts(ropes[..len]) == Texts(v)
        invariant AllValid(v) ==> AllValid(ropes[..len])
        invariant |v| == 1 ==> ropes == v
        decreases len
      {
        ropes, len := MergeRound(ropes, len);
      }
      r := ropes[0];
      assert ropes[..1] == [r];
      FlattenOne(r, RopeText);
      assert AllValid(v) ==> ValidRope(r) by {
        if AllValid(v) { assert ropes[..1][0] == r; }
      }
    }
  }

  /* ---------------------------------------------------------------- */
  /* Building a rope from a string                                      */
  /* ---------------------------------------------------------------- */

  /** How many leaves `of_substr_unsafer` cuts `n` characters into: one
      for up to `HintMaxLeafCharLen` characters, one more for each further
      `HintMaxLeafCharLen`. */
  function LeafCount(n: nat): nat
    decreases n
  {
    if n <= HintMaxLeafCharLen then 1 else 1 + LeafCount(n - HintMaxLeafCharLen)
  }

  /** For a positive `n` this is `uint::div_ceil(n, HintMaxLeafCharLen)`,
      the count the source computes. */
  lemma {:induction false} LeafCountIsDivCeil(n: nat)
    requires n > 0
    ensures LeafCount(n) == (n + HintMaxLeafCharLen - 1) / HintMaxLeafCharLen
    decreases n
  {
    if n > HintMaxLeafCharLen {
      LeafCountIsDivCeil(n - HintMaxLeafCharLen);
    }
  }

  /** `n` characters are cut into an odd number of leaves. */
  predicate OddLeafCount(n: nat)
    decreases n
  {
    n <= HintMaxLeafCharLen || !OddLeafCount(n - HintMaxLeafCharLen)
  }

  lemma {:induction false} OddLeafCountIff(n: nat)
    ensures OddLeafCount(n) <==> LeafCount(n) % 2 == 1
    decreases n
  {
    if n > HintMaxLeafCharLen {
      OddLeafCountIff(n - HintMaxLeafCharLen);
    }
  }

  /** The length of the first leaf: what is left over once the other
      leaves take `HintMaxLeafCharLen` characters each. */
  function FirstLeafCharLen(n: nat): nat {
    if n % HintMaxLeafCharLen == 0 then HintMaxLeafCharLen else n % HintMaxLeafCharLen
  }

  /** A first leaf of `FirstLeafCharLen(n)` characters leaves room for
      exactly `LeafCount(n) - 1` full leaves. */
  lemma FirstLeafFits(n: nat)
    requires n > 0
    ensures 0 < FirstLeafCharLen(n) <= HintMaxLeafCharLen && FirstLeafCharLen(n) <= n
    ensures n <= FirstLeafCharLen(n) ==> LeafCount(n) == 1
    ensures n > FirstLeafCharLen(n) ==> 1 + LeafCount(n - FirstLeafCharLen(n)) == LeafCount(n)
  {
    var f := FirstLeafCharLen(n);
    LeafCountIsDivCeil(n);
    if n > f {
      LeafCountIsDivCeil(n - f);
    }
  }

  /** The byte offset of character `i` of `s` is a boundary. */
  lemma PrefixIsBoundary(s: string, i: nat)
    requires i <= |s|
    ensures IsBoundary(s, ByteLen(s[..i])) && CharIndex(s, ByteLen(s[..i])) == i
  {
    CharIndexOfPrefix(s, i);
  }

  lemma PrefixByteLenMono(s: string, i: nat, j: nat)
    requires i <= j <= |s|
    ensures ByteLen(s[..i]) <= ByteLen(s[..j])
  {
    assert s[..j] == s[..i] + s[i..j];
    ByteLenAppend(s[..i], s[i..j]);
  }

  /** A leaf over characters `i` to `j` of `s`. */
  function CharLeaf(s: string, i: nat, j: nat): (n: Node)
    requires i <= j <= |s|
    ensures Valid(n) && n.body.LeafBody?
    ensures Text(n) == s[i..j]
  {
    PrefixIsBoundary(s, i);
    PrefixIsBoundary(s, j);
    PrefixByteLenMono(s, i, j);
    NewLeaf(Leaf(ByteLen(s[..i]), s), ByteLen(s[..j]) - ByteLen(s[..i]))
  }

  /** How many leaves cover `n` characters when the first takes `first`
      and the others `HintMaxLeafCharLen`. */
  function ChunkCount(n: nat, first: nat): (c: nat)
    requires first > 0
    ensures c > 0
    decreases n
  {
    if n <= first then 1 else 1 + ChunkCount(n - first, HintMaxLeafCharLen)
  }

  /** `of_substr_unsafer` makes `LeafCount` leaves. */
  lemma ChunksCount(n: nat)
    requires n > 0
    ensures ChunkCount(n, FirstLeafCharLen(n)) == LeafCount(n)
  {
    FirstLeafFits(n);
    if n > FirstLeafCharLen(n) {
      FullChunkCount(n - FirstLeafCharLen(n));
    }
  }

  lemma {:induction false} FullChunkCount(n: nat)
    ensures ChunkCount(n, HintMaxLeafCharLen) == LeafCount(n)
    decreases n
  {
    if n > HintMaxLeafCharLen {
      FullChunkCount(n - HintMaxLeafCharLen);
    }
  }

  predicate Ascending(c: seq<nat>) {
    forall i, j :: 0 <= i < j < |c| ==> c[i] < c[j]
  }

  /** The character positions where `of_substr_unsafer` cuts characters
      `lo` to `hi`: after `first` characters, then every
      `HintMaxLeafCharLen`. Each leaf starts where the previous one ends,
      as the source advances its offset by the byte count of the previous
      leaf. */
  function Cuts(lo: nat, hi: nat, first: nat): (c: seq<nat>)
    requires lo < hi && first > 0
    ensures |c| == ChunkCount(hi - lo, first) + 1
    ensures c[0] == lo && c[|c| - 1] == hi && Ascending(c)
    decreases hi - lo
  {
    if hi - lo <= first then [lo, hi]
    else
      var rest := Cuts(lo + first, hi, HintMaxLeafCharLen);
      var c := [lo] + rest;
      assert forall i, j :: 0 < i < j < |c| ==> c[i] == rest[i - 1] && c[j] == rest[j - 1];
      assert forall j :: 0 < j < |c| ==> c[j] == rest[j - 1] && rest[0] <= rest[j - 1];
      c
  }

  /** Corrected leaves: one leaf of `s` holding exactly the characters
      between each two neighbouring cuts among the first `n` cuts. */
  function CutLeaves(s: string, c: seq<nat>, n: nat): (r: seq<Node>)
    requires 0 < n <= |c| && Ascending(c) && c[|c| - 1] <= |s|
    ensures |r| == n - 1 && AllNodesValid(r)
    decreases n
  {
    if n == 1 then []
    else
      var leaf := CharLeaf(s, c[n - 2], c[n - 1]);
      AllNodesValidSnoc(CutLeaves(s, c, n - 1), leaf);
      CutLeaves(s, c, n - 1) + [leaf]
  }

  /** The leaves hold the characters from the first cut to cut `n - 1`, in
      order. */
  lemma {:induction false} CutLeavesText(s: string, c: seq<nat>, n: nat)
    requires 0 < n <= |c| && Ascending(c) && c[|c| - 1] <= |s|
    ensures Flatten(CutLeaves(s, c, n), Text) == s[c[0]..c[n - 1]]
    decreases n
  {
    if n > 1 {
      CutLeavesText(s, c, n - 1);
      FlattenSnocSlice(CutLeaves(s, c, n - 1), CharLeaf(s, c[n - 2], c[n - 1]), Text, s, c[0], c[n - 2], c[n - 1]);
    }
  }

  lemma AllNodesValidSnoc(ns: seq<Node>, n: Node)
    requires AllNodesValid(ns) && Valid(n)
    ensures AllNodesValid(ns + [n])
  {
    assert forall k :: 0 <= k < |ns| ==> (ns + [n])[k] == ns[k];
  }

  predicate AllNodesValid(ns: seq<Node>) {
    forall k :: 0 <= k < |ns| ==> Valid(ns[k])
  }

  /** One collapsing pass, corrected: nodes 0 and 1, 2 and 3, ... are
      concatenated, and an odd last node is carried over. */
  function PairUp(ns: seq<Node>): (r: seq<Node>)
    ensures |r| == (|ns| + 1) / 2
    ensures AllNodesValid(ns) ==> AllNodesValid(r)
    decreases |ns|
  {
    if |ns| < 2 then ns
    else
      var rest := PairUp(ns[2..]);
      assert AllNodesValid(ns) ==> AllNodesValid(ns[2..]) by {
        if AllNodesValid(ns) {
          forall k | 0 <= k < |ns| - 2 ensures Valid(ns[2..][k]) { assert ns[2..][k] == ns[k + 2]; }
        }
      }
      [Concat2(ns[0], ns[1])] + rest
  }

  /** A pass keeps the text of the nodes, in order. */
  lemma {:induction false} PairUpText(ns: seq<Node>)
    ensures Flatten(PairUp(ns), Text) == Flatten(ns, Text)
    decreases |ns|
  {
    if |ns| >= 2 {
      var t := ns[2..];
      PairUpText(t);
      FlattenPairStep(Concat2(ns[0], ns[1]), PairUp(t), ns[0], ns[1], t, Text);
      assert ns == [ns[0], ns[1]] + t;
    }
  }

  /** Passes repeat until one node is left: the tree `of_substr_unsafer`
      means to build. */
  function Collapse(ns: seq<Node>): (n: Node)
    requires |ns| > 0
    ensures Text(n) == Flatten(ns, Text)
    ensures AllNodesValid(ns) ==> Valid(n)
    decreases |ns|
  {
    if |ns| == 1 then
      FlattenOne(ns[0], Text);
      ns[0]
    else
      PairUpText(ns);
      Collapse(PairUp(ns))
  }

  /** `rope::of_substr`, corrected: no bytes give the empty rope, a range
      past the end of the string fails, a range of at most
      `HintMaxLeafCharLen` characters becomes one leaf of exactly that
      range, and a longer range is cut into leaves that are collapsed
      pairwise into one tree. The caller vouches that the range starts and
      ends between characters. */
  function OfSubstr(str: string, byteOffset: nat, byteLen: nat): (r: Outcome<Rope>)
    requires byteLen > 0 && byteOffset + byteLen <= ByteLen(str) ==>
      IsBoundary(str, byteOffset) && IsBoundary(str, byteOffset + byteLen)
    ensures r.Fails? <==> byteLen > 0 && byteOffset + byteLen > ByteLen(str)
    ensures byteLen == 0 ==> r == Returns(None)
    ensures r.Returns? ==> ValidRope(r.value) && RopeByteLen(r.value) == byteLen
    ensures r.Returns? ==> RopeText(r.value) == Slice(str, byteOffset, byteOffset + byteLen)
  {
    if byteLen == 0 then Returns(None)
    else if byteOffset + byteLen > ByteLen(str) then Fails
    else
      var i, j := CharIndex(str, byteOffset), CharIndex(str, byteOffset + byteLen);
      CharIndexMono(str, byteOffset, byteOffset + byteLen);
      if j - i <= HintMaxLeafCharLen then
        var x := Leaf(byteOffset, str);
        LeafRope(x, byteLen);
        Returns(Some(NewLeaf(x, byteLen)))
      else
        var n := ManyLeaves(str, i, j);
        MultiLeafRope(str, byteOffset, byteLen, n);
        Returns(Some(n))
  }

  /** Characters `i` to `j` of `str`, more than one leaf's worth, cut into
      leaves and collapsed into one node holding exactly those characters. */
  function ManyLeaves(str: string, i: nat, j: nat): (n: Node)
    requires i < j <= |str| && j - i > HintMaxLeafCharLen
    ensures Valid(n) && Text(n) == str[i..j]
  {
    var cuts := Cuts(i, j, FirstLeafCharLen(j - i));
    var leaves := CutLeaves(str, cuts, |cuts|);
    CutLeavesText(str, cuts, |cuts|);
    Collapse(leaves)
  }

  /** A non-empty range between two boundaries makes a well-formed
      one-leaf rope holding exactly the range. */
  lemma LeafRope(x: Leaf, byteLen: nat)
    requires 0 < byteLen && IsBoundary(x.content, x.byteOffset) && IsBoundary(x.content, x.byteOffset + byteLen)
    ensures var r := Some(NewLeaf(x, byteLen));
            && ValidRope(r) && RopeByteLen(r) == byteLen
            && RopeText(r) == Slice(x.content, x.byteOffset, x.byteOffset + byteLen)
  {
    BoundaryGap(x.content, x.byteOffset, x.byteOffset + byteLen);
  }

  /** A valid node holding exactly a range between two boundaries is a
      well-formed rope of the range's byte length. */
  lemma {:induction false} MultiLeafRope(str: string, byteOffset: nat, byteLen: nat, n: Node)
    requires 0 < byteLen && IsBoundary(str, byteOffset) && IsBoundary(str, byteOffset + byteLen)
    requires Valid(n) && Text(n) == Slice(str, byteOffset, byteOffset + byteLen)
    ensures ValidRope(Some(n)) && RopeByteLen(Some(n)) == byteLen
  {
    SliceByteLen(str, byteOffset, byteOffset + byteLen);
    BoundaryGap(str, byteOffset, byteOffset + byteLen);
    NodeOfText(n, Slice(str, byteOffset, byteOffset + byteLen));
  }

  lemma {:induction false} NodeOfText(n: Node, t: string)
    requires Valid(n) && Text(n) == t && |t| > 0
    ensures ValidRope(Some(n)) && RopeByteLen(Some(n)) == ByteLen(t)
  {
    ValidLengths(n);
  }

  /** The node bodies of `of_substr_unsafer`'s vector that the node
      constructor accepts: a leaf starts at a boundary, a concatenation
      joins valid nodes. */
  predicate BodyOk(b: Body) {
    match b
    case LeafBody(x) => IsBoundary(x.content, x.byteOffset)
    case ConcatBody(l, r) => Valid(l) && Valid(r)
  }

  predicate AllBodiesOk(v: seq<Body>) {
    forall k :: 0 <= k < |v| ==> BodyOk(v[k])
  }

  /** The leaf bodies `of_substr_unsafer` puts in its vector for
      characters `i` to `j` of `s` when the first leaf takes `first`
      characters and the others `HintMaxLeafCharLen`: each starts at the
      byte offset of its first character. */
  function LeafBodies(s: string, i: nat, j: nat, first: nat): (v: seq<Body>)
    requires i < j <= |s| && first > 0
    ensures |v| == ChunkCount(j - i, first) && AllBodiesOk(v)
    decreases j - i
  {
    PrefixIsBoundary(s, i);
    var b := LeafBody(Leaf(ByteLen(s[..i]), s));
    if j - i <= first then [b] else [b] + LeafBodies(s, i + first, j, HintMaxLeafCharLen)
  }

  /** The node constructor as written, on either kind of body. */
  function NewNodeAsWritten(b: Body): (n: Node)
    requires BodyOk(b)
    ensures Valid(n) && n.body == b
  {
    match b
    case LeafBody(x) => NewLeafAsWritten(x)
    case ConcatBody(l, r) => Concat2(l, r)
  }

  /** The collapsing loop of `of_substr_unsafer` as written, from
      iteration `j` of the pass over `leaves` nodes on: node `j` becomes
      nodes `2j` and `2j + 1` concatenated, so an odd node count reads past
      the end of the vector; the test meant to carry an odd last node
      compares `j`, not `2j`, with the last index, so it never fires; once
      the pass is over, the loop goes on with half as many nodes. */
  function CollapsePassAsWritten(v: seq<Body>, leaves: nat, j: nat): (r: Outcome<Node>)
    requires AllBodiesOk(v) && 1 < leaves <= |v| && j <= (leaves + 1) / 2
    ensures r.Fails? <==> j < (leaves + 1) / 2 && |v| < 2 * ((leaves + 1) / 2)
    ensures r.Returns? ==> Valid(r.value)
    decreases leaves, 0, (leaves + 1) / 2 - j
  {
    if j == (leaves + 1) / 2 then CollapseAsWritten(v, (leaves + 1) / 2)
    else if 2 * j + 1 >= |v| then Fails
    else
      var joined := v[j := ConcatBody(NewNodeAsWritten(v[2 * j]), NewNodeAsWritten(v[2 * j + 1]))];
      CollapsePassAsWritten(CarryAsWritten(joined, leaves, j), leaves, j + 1)
  }

  /** The carry test of the collapsing pass: at iteration `j == leaves - 1`
      node `2j` is copied to slot `j`. */
  function CarryAsWritten(v: seq<Body>, leaves: nat, j: nat): (r: seq<Body>)
    requires AllBodiesOk(v) && 2 * j < |v|
    ensures |r| == |v| && AllBodiesOk(r)
    ensures j != leaves - 1 ==> r == v
  {
    if j == leaves - 1 then v[j := v[2 * j]] else v
  }

  /** The collapsing loop of `of_substr_unsafer` as written: passes run
      while the count of nodes exceeds one, and only the first pass can
      read past the end. */
  function CollapseAsWritten(v: seq<Body>, leaves: nat): (r: Outcome<Node>)
    requires AllBodiesOk(v) && 0 < leaves <= |v|
    ensures r.Fails? <==> leaves > 1 && |v| < 2 * ((leaves + 1) / 2)
    ensures r.Returns? ==> Valid(r.value)
    decreases leaves, 1, 0
  {
    if leaves == 1 then Returns(NewNodeAsWritten(v[0])) else CollapsePassAsWritten(v, leaves, 0)
  }

  /** The `byteLen` bytes from `byteOffset` of `str` hold more than one
      leaf's worth of characters, cut into an odd number of leaves. */
  predicate ManyOddLeaves(str: string, byteOffset: nat, byteLen: nat) {
    var i, j := CharIndex(str, byteOffset), CharIndex(str, byteOffset + byteLen);
    j > i + HintMaxLeafCharLen && OddLeafCount(j - i)
  }

  /** `rope::of_substr` as written: every leaf goes through the node
      constructor, which ignores the requested length and takes the rest
      of the string; a range of more than `HintMaxLeafCharLen` characters
      fails when it needs an odd number of leaves. */
  function OfSubstrAsWritten(str: string, byteOffset: nat, byteLen: nat): (r: Outcome<Rope>)
    requires byteLen > 0 && byteOffset + byteLen <= ByteLen(str) ==> IsBoundary(str, byteOffset)
    ensures r.Fails? <==> byteLen > 0 && (byteOffset + byteLen > ByteLen(str)
                                          || ManyOddLeaves(str, byteOffset, byteLen))
    ensures byteLen == 0 ==> r == Returns(None)
    ensures r.Returns? && byteLen > 0 ==> r.value.Some? && Valid(r.value.value)
    ensures r.Returns? && byteLen > 0
            && CharIndex(str, byteOffset + byteLen) - CharIndex(str, byteOffset) <= HintMaxLeafCharLen ==>
      RopeText(r.value) == str[CharIndex(str, byteOffset)..]
  {
    if byteLen == 0 then Returns(None)
    else if byteOffset + byteLen > ByteLen(str) then Fails
    else
      var i, j := CharIndex(str, byteOffset), CharIndex(str, byteOffset + byteLen);
      CharIndexMono(str, byteOffset, byteOffset + byteLen);
      if j - i <= HintMaxLeafCharLen then
        Returns(Some(NewLeafAsWritten(Leaf(byteOffset, str))))
      else
        match ManyLeavesAsWritten(str, i, j)
        case Fails => Fails
        case Returns(n) => Returns(Some(n))
  }

  /** Characters `i` to `j` of `str`, more than one leaf's worth, cut
      into leaves and collapsed as written: this fails exactly when the
      leaves are odd in number. */
  function ManyLeavesAsWritten(str: string, i: nat, j: nat): (r: Outcome<Node>)
    requires i < j <= |str| && j - i > HintMaxLeafCharLen
    ensures r.Fails? <==> OddLeafCount(j - i)
    ensures r.Returns? ==> Valid(r.value)
  {
    FirstLeafFits(j - i);
    var v := LeafBodies(str, i, j, FirstLeafCharLen(j - i));
    ManyLeavesCount(j - i, |v|);
    CollapseAsWritten(v, |v|)
  }

  /** More than one leaf's worth of characters is cut into `x` leaves, and
      one collapsing pass as written reads past them exactly when that
      count is odd. */
  lemma ManyLeavesCount(n: nat, x: nat)
    requires n > HintMaxLeafCharLen && x == ChunkCount(n, FirstLeafCharLen(n))
    ensures x > 1
    ensures x < 2 * ((x + 1) / 2) <==> OddLeafCount(n)
  {
    FirstLeafFits(n);
    ChunksCount(n);
    RoundUpToEven(x);
    OddLeafCountIff(n);
  }

  /** A count falls short of itself rounded up to even exactly when it is
      odd. */
  lemma RoundUpToEven(x: nat)
    ensures x < 2 * ((x + 1) / 2) <==> x % 2 == 1
  { }

  /** The as-written `of_substr` of one byte at offset 1 of "abc" stands
      for "bc" where "b" was asked for. */
  lemma OfSubstrTakesTail()
    ensures OfSubstrAsWritten("abc", 1, 1).Returns?
    ensures RopeText(OfSubstrAsWritten("abc", 1, 1).value) == "bc"
  {
    var s := "abc";
    AsciiBytes(s, 1);
    AsciiBytes(s, 2);
    assert s[1..] == "bc";
  }

  /** The corrected `of_substr` of the same range stands for "b". */
  lemma OfSubstrTakesRange()
    ensures OfSubstr("abc", 1, 1).Returns?
    ensures RopeText(OfSubstr("abc", 1, 1).value) == "b"
  {
    var s := "abc";
    AsciiBytes(s, 1);
    AsciiBytes(s, 2);
    assert s[1..2] == "b";
  }

  /** As written, any 513 ASCII characters fail: they need three leaves,
      and the first pass reads a fourth. */
  lemma OfSubstrThreeLeavesFails(s: string)
    requires Ascii(s) && |s| == 513
    ensures OfSubstrAsWritten(s, 0, 513).Fails?
  {
    AsciiBytes(s, 0);
    AsciiBytes(s, 513);
    assert LeafCount(513) == 3;
  }

  /* ---------------------------------------------------------------- */
  /* Sub-ropes                                                          */
  /* ---------------------------------------------------------------- */

  /** `rope::sub_chars`: a length of 0 gives the empty rope; the request
      fails on the empty rope and when it asks for more characters than
      the rope holds; otherwise the node is handed to `node::sub_chars`,
      which is a parameter here. The offset is not checked at this level. */
  function SubChars(rope: Rope, charOffset: nat, charLen: nat, sub: (Node, nat, nat) -> Node): (r: Outcome<Rope>)
    ensures r.Fails? <==> charLen > CharLen(rope)
    ensures ValidRope(rope) ==> (r.Fails? <==> charLen > |RopeText(rope)|)
    ensures charLen == 0 ==> r == Returns(None)
    ensures r.Returns? && charLen > 0 ==> rope.Some? && r.value == Some(sub(rope.value, charOffset, charLen))
  {
    if charLen == 0 then Returns(None)
    else
      match rope
      case None => Fails
      case Some(n) =>
        if charLen > n.charLen then Fails
        else Returns(Some(sub(n, charOffset, charLen)))
  }

  /** `rope::sub_bytes`: the same guards as `sub_chars`, on bytes. */
  function SubBytes(rope: Rope, byteOffset: nat, byteLen: nat, sub: (Node, nat, nat) -> Node): (r: Outcome<Rope>)
    ensures r.Fails? <==> byteLen > RopeByteLen(rope)
    ensures ValidRope(rope) ==> (r.Fails? <==> byteLen > ByteLen(RopeText(rope)))
    ensures byteLen == 0 ==> r == Returns(None)
    ensures r.Returns? && byteLen > 0 ==> rope.Some? && r.value == Some(sub(rope.value, byteOffset, byteLen))
  {
    if byteLen == 0 then Returns(None)
    else
      match rope
      case None => Fails
      case Some(n) =>
        if byteLen > n.byteLen then Fails
        else Returns(Some(sub(n, byteOffset, byteLen)))
  }

  /** Whether `sub_chars` and `sub_bytes` fail does not depend on the
      offset: an offset past the end of the rope is passed on unchecked. */
  lemma SubGuardsIgnoreOffset(rope: Rope, o1: nat, o2: nat, len: nat, sub: (Node, nat, nat) -> Node)
    ensures SubChars(rope, o1, len, sub).Fails? == SubChars(rope, o2, len, sub).Fails?
    ensures SubBytes(rope, o1, len, sub).Fails? == SubBytes(rope, o2, len, sub).Fails?
  {
  }

  /* ---------------------------------------------------------------- */
  /* Comparison                                                         */
  /* ---------------------------------------------------------------- */

  /** `a` comes before `b` in lexicographic order of code points: it is a
      proper prefix of `b`, or the first character where they differ is
      smaller in `a`. */
  predicate LexLess(a: string, b: string) {
    exists i :: 0 <= i <= |a| && i <= |b| && a[..i] == b[..i] &&
      (if i == |a| then i < |b| else i < |b| && a[i] < b[i])
  }

  /** Position `i` witnesses that `a` comes before `b`. */
  lemma LexLessAt(a: string, b: string, i: nat)
    requires i <= |a| && i <= |b| && a[..i] == b[..i]
    requires if i == |a| then i < |b| else i < |b| && a[i] < b[i]
    ensures LexLess(a, b)
  {
  }

  /** No string comes before itself, and of two strings at most one comes
      before the other. */
  lemma LexLessStrict(a: string, b: string)
    ensures !LexLess(a, a)
    ensures !(LexLess(a, b) && LexLess(b, a))
  {
    if LexLess(a, b) {
      var i :| 0 <= i <= |a| && i <= |b| && a[..i] == b[..i] &&
        (if i == |a| then i < |b| else i < |b| && a[i] < b[i]);
      LexLessNoReverse(a, b, i);
    }
  }

  /** Once `a` is found before `b` at position `i`, `b` is not before `a`
      at any position. */
  lemma LexLessNoReverse(a: string, b: string, i: nat)
    requires i <= |a| && i <= |b| && a[..i] == b[..i]
    requires if i == |a| then i < |b| else i < |b| && a[i] < b[i]
    ensures !LexLess(b, a)
  {
    forall j | 0 <= j <= i
      ensures !(if j == |b| then j < |a| else j < |a| && b[j] < a[j])
    {
      if j < i {
        assert a[..i][j] == a[j] && b[..i][j] == b[j];
      }
    }
    if i < |a| {
      forall j | i < j <= |b| && j <= |a|
        ensures b[..j] != a[..j]
      {
        assert b[..j][i] == b[i] && a[..j][i] == a[i];
      }
    }
  }

  /** `char::cmp`: the sign of the difference of the code points. */
  function CharCmp(a: char, b: char): (c: int)
    ensures c == 0 <==> a == b
    ensures c == -1 <==> a < b
    ensures c == 1 <==> b < a
  {
    if a < b then -1 else if a == b then 0 else 1
  }

  /** `node::cmp`: the two texts are walked character by character until
      a difference or the end of either. The result is -1, 0 or 1 as the
      first text comes before, equals or comes after the second. */
  method NodeCmp(a: Node, b: Node) returns (result: int)
    ensures -1 <= result <= 1
    ensures result == 0 <==> Text(a) == Text(b)
    ensures result == -1 <==> LexLess(Text(a), Text(b))
    ensures result == 1 <==> LexLess(Text(b), Text(a))
  {
    result := TextCmp(Text(a), Text(b));
  }

  /** The character walk of `node::cmp` over the two texts. */
  method TextCmp(ta: string, tb: string) returns (result: int)
    ensures -1 <= result <= 1
    ensures result == 0 <==> ta == tb
    ensures result == -1 <==> LexLess(ta, tb)
    ensures result == 1 <==> LexLess(tb, ta)
  {
    result := 0;
    var i := 0;
    while result == 0
      invariant i <= |ta| && i <= |tb|
      invariant ta[..i] == tb[..i]
      invariant result == 0 || result == -1 || result == 1
      invariant result == -1 ==> LexLess(ta, tb)
      invariant result == 1 ==> LexLess(tb, ta)
      decreases |ta| + |tb| - 2 * i + (if result == 0 then 1 else 0)
    {
      if i == |ta| && i == |tb| {
        assert ta == ta[..i] && tb == tb[..i];
        break;
      } else if i < |ta| && i < |tb| {
        result := CharCmp(ta[i], tb[i]);
        if result == 0 {
          assert ta[..i + 1] == ta[..i] + [ta[i]] && tb[..i + 1] == tb[..i] + [tb[i]];
          i := i + 1;
        } else if result == -1 {
          LexLessAt(ta, tb, i);
        } else {
          LexLessAt(tb, ta, i);
        }
      } else if i < |ta| {
        LexLessAt(tb, ta, i);
        result := 1;
      } else {
        LexLessAt(ta, tb, i);
        result := -1;
      }
    }
    LexLessStrict(ta, tb);
    LexLessStrict(ta, ta);
  }

  /** `rope::cmp`: the empty rope comes before every other, and two
      non-empty ropes compare by their texts. */
  method Cmp(left: Rope, right: Rope) returns (c: int)
    ensures left.None? && right.None? ==> c == 0
    ensures left.None? && right.Some? ==> c == -1
    ensures left.Some? && right.None? ==> c == 1
    ensures ValidRope(left) && ValidRope(right) ==>
      && (c == 0 <==> RopeText(left) == RopeText(right))
      && (c < 0 <==> LexLess(RopeText(left), RopeText(right)))
      && (c > 0 <==> LexLess(RopeText(right), RopeText(left)))
  {
    match (left, right)
    case (None, None) =>
      c := 0;
      LexLessStrict([], []);
    case (None, Some(b)) =>
      c := -1;
      NonEmptyText(b);
      assert RopeText(left)[..0] == RopeText(right)[..0];
      LexLessStrict(RopeText(left), RopeText(right));
    case (Some(a), None) =>
      c := 1;
      NonEmptyText(a);
      assert RopeText(left)[..0] == RopeText(right)[..0];
      LexLessStrict(RopeText(left), RopeText(right));
    case (Some(a), Some(b)) =>
      c := NodeCmp(a, b);
  }

  /** A valid non-empty rope has a non-empty text. */
  lemma NonEmptyText(n: Node)
    ensures Valid(n) && n.charLen > 0 ==> |Text(n)| > 0
  {
    if Valid(n) { ValidLengths(n); }
  }

  /** `rope::eq`: same text, whatever the shape. */
  method Eq(left: Rope, right: Rope) returns (b: bool)
    ensures ValidRope(left) && ValidRope(right) ==> (b <==> RopeText(left) == RopeText(right))
  {
    var c := Cmp(left, right);
    b := c == 0;
  }

  /** `rope::le`. */
  method Le(left: Rope, right: Rope) returns (b: bool)
    ensures ValidRope(left) && ValidRope(right) ==>
      (b <==> LexLess(RopeText(left), RopeText(right)) || RopeText(left) == RopeText(right))
  {
    var c := Cmp(left, right);
    b := c <= 0;
  }

  /** `rope::lt`. */
  method Lt(left: Rope, right: Rope) returns (b: bool)
    ensures ValidRope(left) && ValidRope(right) ==> (b <==> LexLess(RopeText(left), RopeText(right)))
  {
    var c := Cmp(left, right);
    b := c < 0;
  }

  /** `rope::ge`. */
  method Ge(left: Rope, right: Rope) returns (b: bool)
    ensures ValidRope(left) && ValidRope(right) ==>
      (b <==> LexLess(RopeText(right), RopeText(left)) || RopeText(left) == RopeText(right))
  {
    var c := Cmp(left, right);
    b := c >= 0;
  }

  /** `rope::gt`. */
  method Gt(left: Rope, right: Rope) returns (b: bool)
    ensures ValidRope(left) && ValidRope(right) ==> (b <==> LexLess(RopeText(right), RopeText(left)))
  {
    var c := Cmp(left, right);
    b := c > 0;
  }

  /* ---------------------------------------------------------------- */
  /* Leaves and balancing                                               */
  /* ---------------------------------------------------------------- */

  /** The leaves of a node from left to right, each with the byte length
      its node caches, as the leaf iterator and `loop_leaves` report them. */
  function Leaves(n: Node): seq<(nat, Leaf)>
    decreases n
  {
    match n.body
    case LeafBody(x) => [(n.byteLen, x)]
    case ConcatBody(l, r) => Leaves(l) + Leaves(r)
  }

  /** The text a reported leaf stands for. */
  function PieceText(p: (nat, Leaf)): string {
    Slice(p.1.content, p.1.byteOffset, p.1.byteOffset + p.0)
  }

  /** The leaves, read in order, spell the text of the node. */
  lemma {:induction false} LeavesText(n: Node)
    ensures Flatten(Leaves(n), PieceText) == Text(n)
    decreases n
  {
    match n.body
    case LeafBody(x) =>
      FlattenOne((n.byteLen, x), PieceText);
    case ConcatBody(l, r) =>
      LeavesText(l);
      LeavesText(r);
      FlattenAppend(Leaves(l), Leaves(r), PieceText);
  }

  /** Every leaf in `a + b` passes `it` exactly when every leaf in `a` and
      every leaf in `b` does. */
  lemma AllLeavesAppend(a: seq<(nat, Leaf)>, b: seq<(nat, Leaf)>, it: (nat, Leaf) -> bool)
    ensures (forall k :: 0 <= k < |a + b| ==> it((a + b)[k].0, (a + b)[k].1)) <==>
      (forall k :: 0 <= k < |a| ==> it(a[k].0, a[k].1)) && (forall k :: 0 <= k < |b| ==> it(b[k].0, b[k].1))
  {
    if forall k :: 0 <= k < |a + b| ==> it((a + b)[k].0, (a + b)[k].1) {
      forall k | 0 <= k < |a| ensures it(a[k].0, a[k].1) {
        assert (a + b)[k] == a[k];
      }
      forall k | 0 <= k < |b| ensures it(b[k].0, b[k].1) {
        assert (a + b)[|a| + k] == b[k];
      }
    }
    if (forall k :: 0 <= k < |a| ==> it(a[k].0, a[k].1)) && (forall k :: 0 <= k < |b| ==> it(b[k].0, b[k].1)) {
      forall k | 0 <= k < |a + b| ensures it((a + b)[k].0, (a + b)[k].1) {
        if k < |a| {
          assert (a + b)[k] == a[k];
        } else {
          assert (a + b)[k] == b[k - |a|];
        }
      }
    }
  }

  /** `node::loop_leaves`: `it` is applied to the leaves from left to
      right until it answers false; the result says whether it never did. */
  function NodeLoopLeaves(n: Node, it: (nat, Leaf) -> bool): (b: bool)
    ensures b <==> forall k :: 0 <= k < |Leaves(n)| ==> it(Leaves(n)[k].0, Leaves(n)[k].1)
    decreases n
  {
    match n.body
    case LeafBody(x) =>
      assert Leaves(n)[0] == (n.byteLen, x);
      it(n.byteLen, x)
    case ConcatBody(l, r) =>
      assert Leaves(n) == Leaves(l) + Leaves(r);
      AllLeavesAppend(Leaves(l), Leaves(r), it);
      if NodeLoopLeaves(l, it) then NodeLoopLeaves(r, it) else false
  }

  /** The leaves of a rope; none for the empty rope. */
  function RopeLeaves(r: Rope): seq<(nat, Leaf)> {
    if r.None? then [] else Leaves(r.value)
  }

  /** `rope::loop_leaves`: true on the empty rope. */
  function LoopLeaves(rope: Rope, it: (nat, Leaf) -> bool): (b: bool)
    ensures b <==> forall k :: 0 <= k < |RopeLeaves(rope)| ==> it(RopeLeaves(rope)[k].0, RopeLeaves(rope)[k].1)
    ensures rope.None? ==> b
  {
    match rope
    case None => true
    case Some(n) =>
      assert RopeLeaves(rope) == Leaves(n);
      NodeLoopLeaves(n, it)
  }

  /** The leaves alone, without their lengths: what `node::bal` gathers
      into its forest before rebuilding. */
  function Forest(n: Node): (f: seq<Leaf>)
    ensures |f| == |Leaves(n)|
    ensures forall k :: 0 <= k < |f| ==> f[k] == Leaves(n)[k].1
    decreases n
  {
    match n.body
    case LeafBody(x) => [x]
    case ConcatBody(l, r) => Forest(l) + Forest(r)
  }

  /** `node::bal`: nothing happens below `HintMaxNodeHeight`; otherwise
      the leaves are gathered in order and handed to the rebuilding step
      (`tree_from_forest_destructive`, a parameter here). */
  function NodeBal(n: Node, treeFromForest: seq<Leaf> -> Node): (r: Option<Node>)
    ensures r.None? <==> n.height < HintMaxNodeHeight
    ensures r.Some? ==> r.value == treeFromForest(Forest(n))
  {
    if n.height < HintMaxNodeHeight then None
    else Some(treeFromForest(Forest(n)))
  }

  /** `rope::bal`: the empty rope and every rope lower than
      `HintMaxNodeHeight` come back unchanged. */
  function Bal(rope: Rope, treeFromForest: seq<Leaf> -> Node): (r: Rope)
    ensures rope.None? ==> r == rope
    ensures rope.Some? && rope.value.height < HintMaxNodeHeight ==> r == rope
    ensures rope.Some? && rope.value.height >= HintMaxNodeHeight ==>
      r == Some(treeFromForest(Forest(rope.value)))
  {
    match rope
    case None => rope
    case Some(x) =>
      match NodeBal(x, treeFromForest)
      case None => rope
      case Some(y) => Some(y)
  }

  /** Two ropes below the threshold by more than one level are left alone
      by `bal` once appended. */
  lemma BalOfLowAppend(a: Rope, b: Rope, treeFromForest: seq<Leaf> -> Node)
    requires Height(a) + 1 < HintMaxNodeHeight && Height(b) + 1 < HintMaxNodeHeight
    ensures Bal(AppendRope(a, b), treeFromForest) == AppendRope(a, b)
  {
    var r := AppendRope(a, b);
    if a.Some? && b.Some? {
      assert r.value.height == Max(a.value.height, b.value.height) + 1;
    }
  }

  /* ---------------------------------------------------------------- */
  /* Character access                                                   */
  /* ---------------------------------------------------------------- */

  /** `str::char_at`: the character that starts at byte `b`. A position
      past the end, or one inside a character, fails. */
  function StrCharAt(s: string, b: nat): (r: Outcome<char>)
    ensures r.Returns? <==> b < ByteLen(s) && IsBoundary(s, b)
    ensures r.Returns? ==> CharIndex(s, b) < |s| && r.value == s[CharIndex(s, b)]
  {
    if b < ByteLen(s) && IsBoundary(s, b) then
      assert CharIndex(s, b) < |s| by {
        assert s[..|s|] == s;
      }
      Returns(s[CharIndex(s, b)])
    else Fails
  }

  /** The byte offset of character `i` is where `str::char_at` finds it. */
  lemma StrCharAtPrefix(s: string, i: nat)
    requires i < |s|
    ensures StrCharAt(s, ByteLen(s[..i])) == Returns(s[i])
  {
    CharIndexOfPrefix(s, i);
    assert s == s[..i] + s[i..];
    ByteLenAppend(s[..i], s[i..]);
    assert s[i..] == [s[i]] + s[i + 1..];
    ByteLenAppend([s[i]], s[i + 1..]);
  }

  /** `node::char_at`, corrected: at a leaf, the character `pos` places
      after the leaf's start is looked up at its byte offset in the
      content; a position past the leaf fails. */
  function NodeCharAt(n: Node, pos: nat): (r: Outcome<char>)
    ensures Valid(n) ==> r == if pos < |Text(n)| then Returns(Text(n)[pos]) else Fails
    decreases n
  {
    match n.body
    case LeafBody(x) =>
      if pos < n.charLen then
        var i := CharIndex(x.content, x.byteOffset) + pos;
        if Valid(n) && i < |x.content| then
          StrCharAtPrefix(x.content, i);
          StrCharAt(x.content, ByteLen(x.content[..i]))
        else if i < |x.content| then StrCharAt(x.content, ByteLen(x.content[..i]))
        else Fails
      else
        if Valid(n) then ValidLengths(n); Fails else Fails
    case ConcatBody(l, rt) =>
      if Valid(n) then
        ValidLengths(l);
        ValidLengths(rt);
        if l.charLen > pos then NodeCharAt(l, pos) else NodeCharAt(rt, pos - l.charLen)
      else if l.charLen > pos then NodeCharAt(l, pos) else NodeCharAt(rt, pos - l.charLen)
  }

  /** `node::char_at` as written: at a leaf the character position is
      used as a byte position into the content, counted from the start of
      the content rather than from the leaf's offset. */
  function NodeCharAtAsWritten(n: Node, pos: nat): (r: Outcome<char>)
    ensures n.body.LeafBody? ==> r == StrCharAt(n.body.leaf.content, pos)
    decreases n
  {
    match n.body
    case LeafBody(x) => StrCharAt(x.content, pos)
    case ConcatBody(l, rt) =>
      if l.charLen > pos then NodeCharAtAsWritten(l, pos) else NodeCharAtAsWritten(rt, pos - l.charLen)
  }

  /** `rope::char_at`: the empty rope fails; otherwise the character at
      `pos` of the text, failing past its end. */
  function CharAt(rope: Rope, pos: nat): (r: Outcome<char>)
    ensures ValidRope(rope) ==> r == if pos < |RopeText(rope)| then Returns(RopeText(rope)[pos]) else Fails
  {
    match rope
    case None => Fails
    case Some(x) => NodeCharAt(x, pos)
  }

  /** `rope::char_at` over the as-written `node::char_at`. */
  function CharAtAsWritten(rope: Rope, pos: nat): (r: Outcome<char>)
    ensures rope.None? ==> r == Fails
    ensures rope.Some? && rope.value.body.LeafBody? ==> r == StrCharAt(rope.value.body.leaf.content, pos)
  {
    match rope
    case None => Fails
    case Some(x) => NodeCharAtAsWritten(x, pos)
  }

  /** The rope for "bc" taken from "abc" at byte 1: one leaf of two
      characters and two bytes. */
  const BcOfAbc: Node := Node(2, 2, 0, LeafBody(Leaf(1, "abc")))

  /** On that rope the as-written `char_at` answers 'a' for position 0,
      where the text starts with 'b'. */
  lemma CharAtIgnoresOffset()
    ensures Valid(BcOfAbc) && Text(BcOfAbc) == "bc"
    ensures CharAtAsWritten(Some(BcOfAbc), 0) == Returns('a')
    ensures CharAt(Some(BcOfAbc), 0) == Returns('b')
  {
    var s := "abc";
    AsciiBytes(s, 0);
    AsciiBytes(s, 1);
    AsciiBytes(s, 3);
    assert s[1..3] == "bc";
  }
}
