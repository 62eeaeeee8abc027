/** Bit vectors (src/libstd/bitv.rs): `nbits` bits kept in an array of
    machine words, bit `i` being bit `i % UintBits` of word `i / UintBits`.
    A word is modelled as its sequence of bits, least significant first.
    The class mutates its storage in place; here every operation takes the
    vector and returns the new one. */
module Bitv {

  /** `uint_bits`: the width of a machine word, 64 on the 64-bit target
      modelled here (the source's expression gives 32 on a 32-bit one). */
  const UintBits: nat := 64

  type Word = seq<bool>

  predicate IsWord(w: Word) {
    |w| == UintBits
  }

  /** The word with every bit clear (`0`). */
  function Zero(): (w: Word)
    ensures IsWord(w) && forall b :: 0 <= b < UintBits ==> !w[b]
  {
    seq(UintBits, _ => false)
  }

  /** The word with every bit set (`!0`). */
  function Ones(): (w: Word)
    ensures IsWord(w) && forall b :: 0 <= b < UintBits ==> w[b]
  {
    seq(UintBits, _ => true)
  }

  /** Bitwise complement (`!w`). */
  function Not(w: Word): (r: Word)
    requires IsWord(w)
    ensures IsWord(r) && forall b :: 0 <= b < UintBits ==> r[b] == !w[b]
  {
    seq(UintBits, b requires 0 <= b < UintBits => !w[b])
  }

  /** The word operations `process` is used with: `lor`, `land`, `right`. */
  datatype WordOp = Lor | Land | Right

  function Apply(op: WordOp, w0: Word, w1: Word): (w: Word)
    requires IsWord(w0) && IsWord(w1)
    ensures IsWord(w)
    ensures forall b :: 0 <= b < UintBits ==>
      w[b] == match op
        case Lor => w0[b] || w1[b]
        case Land => w0[b] && w1[b]
        case Right => w1[b]
  {
    match op
    case Lor => seq(UintBits, b requires 0 <= b < UintBits => w0[b] || w1[b])
    case Land => seq(UintBits, b requires 0 <= b < UintBits => w0[b] && w1[b])
    case Right => w1
  }

  datatype Bitv = Bitv(storage: seq<Word>, nbits: nat)

  predicate AllWords(ws: seq<Word>) {
    forall k :: 0 <= k < |ws| ==> IsWord(ws[k])
  }

  /** What the constructor sets up and every operation keeps: one word
      more than `nbits / UintBits` full words. */
  predicate Valid(v: Bitv) {
    |v.storage| == v.nbits / UintBits + 1 && AllWords(v.storage)
  }

  /* ---------------------------------------------------------------- */
  /* The bits a vector stands for                                       */
  /* ---------------------------------------------------------------- */

  /** The words' bits one after the other. */
  function Concat(ws: seq<Word>): (s: seq<bool>)
    ensures AllWords(ws) ==> |s| == UintBits * |ws|
  {
    if |ws| == 0 then []
    else
      assert AllWords(ws) ==> AllWords(ws[..|ws| - 1]);
      Concat(ws[..|ws| - 1]) + ws[|ws| - 1]
  }

  /** Bit `b` of word `w` is bit `UintBits * w + b` of the concatenation. */
  lemma {:induction false} ConcatIndex(ws: seq<Word>, w: nat, b: nat)
    requires AllWords(ws) && w < |ws| && b < UintBits
    ensures Concat(ws)[UintBits * w + b] == ws[w][b]
    decreases |ws|
  {
    var init := ws[..|ws| - 1];
    assert AllWords(init);
    if w < |ws| - 1 {
      ConcatIndex(init, w, b);
    }
  }

  /** The `nbits` bits of the vector, in index order. */
  function Bits(v: Bitv): (s: seq<bool>)
    requires Valid(v)
    ensures |s| == v.nbits
  {
    Concat(v.storage)[..v.nbits]
  }

  /** Where bit `i` lives: word `i / UintBits`, bit `i % UintBits`. */
  lemma BitsIndex(v: Bitv, i: nat)
    requires Valid(v) && i < v.nbits
    ensures i / UintBits < |v.storage|
    ensures Bits(v)[i] == v.storage[i / UintBits][i % UintBits]
  {
    ConcatIndex(v.storage, i / UintBits, i % UintBits);
  }

  /** Two valid vectors with the same storage have the same bits. */
  lemma SameStorageSameBits(a: Bitv, b: Bitv)
    requires Valid(a) && Valid(b) && a.nbits == b.nbits && a.storage == b.storage
    ensures Bits(a) == Bits(b)
  {
  }

  /* ---------------------------------------------------------------- */
  /* Construction and single bits                                       */
  /* ---------------------------------------------------------------- */

  /** `bitv_::new` (and `mk_bitv`): `nbits / UintBits + 1` words, all set
      when `init` holds and all clear otherwise, so every bit is `init`. */
  method New(nbits: nat, init: bool) returns (v: Bitv)
    ensures Valid(v) && v.nbits == nbits
    ensures forall k :: 0 <= k < |v.storage| ==> v.storage[k] == (if init then Ones() else Zero())
    ensures Bits(v) == seq(nbits, _ => init)
  {
    var elt := if init then Ones() else Zero();
    var storage: seq<Word> := [];
    while |storage| < nbits / UintBits + 1
      invariant |storage| <= nbits / UintBits + 1
      invariant forall k :: 0 <= k < |storage| ==> storage[k] == elt
    {
      storage := storage + [elt];
    }
    v := Bitv(storage, nbits);
    forall i | 0 <= i < nbits ensures Bits(v)[i] == init {
      BitsIndex(v, i);
    }
  }

  /** `get`: bit `i`, for `i` below `nbits`. */
  function Get(v: Bitv, i: nat): (x: bool)
    requires Valid(v) && i < v.nbits
    ensures x == Bits(v)[i]
  {
    BitsIndex(v, i);
    v.storage[i / UintBits][i % UintBits]
  }

  /** `set`: bit `i` becomes `x`; no other bit changes. */
  function Set(v: Bitv, i: nat, x: bool): (r: Bitv)
    requires Valid(v) && i < v.nbits
    ensures Valid(r) && r.nbits == v.nbits
    ensures Bits(r) == Bits(v)[i := x]
  {
    BitsIndex(v, i);
    var w, b := i / UintBits, i % UintBits;
    var word := v.storage[w][b := x];
    var r := Bitv(v.storage[w := word], v.nbits);
    assert Valid(r);
    SetBits(v, r, i, x);
    r
  }

  lemma SetBits(v: Bitv, r: Bitv, i: nat, x: bool)
    requires Valid(v) && Valid(r) && i < v.nbits == r.nbits
    requires i / UintBits < |v.storage|
    requires r.storage == v.storage[i / UintBits := v.storage[i / UintBits][i % UintBits := x]]
    ensures Bits(r) == Bits(v)[i := x]
  {
    forall j | 0 <= j < v.nbits ensures Bits(r)[j] == Bits(v)[i := x][j] {
      BitsIndex(v, j);
      BitsIndex(r, j);
      if j != i && j / UintBits == i / UintBits {
        assert j % UintBits != i % UintBits;
      }
    }
  }

  /* ---------------------------------------------------------------- */
  /* Word-wise operations                                               */
  /* ---------------------------------------------------------------- */

  /** `process`: every word of `self` becomes `op` of it and the word of
      `v1` at the same index; the result says whether any word changed.
      Both vectors must have the same length and storage. */
  method Process(self: Bitv, v1: Bitv, op: WordOp) returns (changed: bool, r: Bitv)
    requires Valid(self) && Valid(v1)
    requires |self.storage| == |v1.storage| && self.nbits == v1.nbits
    ensures Valid(r) && r.nbits == self.nbits
    ensures forall k :: 0 <= k < |r.storage| ==> r.storage[k] == Apply(op, self.storage[k], v1.storage[k])
    ensures changed <==> r.storage != self.storage
  {
    var len := |v1.storage|;
    var storage := self.storage;
    changed := false;
    var i := 0;
    while i < len
      invariant 0 <= i <= len == |storage|
      invariant forall k :: 0 <= k < i ==> storage[k] == Apply(op, self.storage[k], v1.storage[k])
      invariant forall k :: i <= k < len ==> storage[k] == self.storage[k]
      invariant changed <==> exists k :: 0 <= k < i && storage[k] != self.storage[k]
    {
      var w0 := storage[i];
      var w1 := v1.storage[i];
      var w := Apply(op, w0, w1);
      if w0 != w {
        changed := true;
        storage := storage[i := w];
      }
      i := i + 1;
    }
    r := Bitv(storage, self.nbits);
    if changed {
      var k :| 0 <= k < i && storage[k] != self.storage[k];
      assert r.storage[k] != self.storage[k];
    }
  }

  /** The bits after `process` are `op` of the bits before, one by one. */
  lemma ProcessBits(self: Bitv, v1: Bitv, op: WordOp, r: Bitv, i: nat)
    requires Valid(self) && Valid(v1) && Valid(r)
    requires |self.storage| == |v1.storage| == |r.storage| && self.nbits == v1.nbits == r.nbits
    requires forall k :: 0 <= k < |r.storage| ==> r.storage[k] == Apply(op, self.storage[k], v1.storage[k])
    requires i < self.nbits
    ensures Bits(r)[i] == match op
      case Lor => Bits(self)[i] || Bits(v1)[i]
      case Land => Bits(self)[i] && Bits(v1)[i]
      case Right => Bits(v1)[i]
  {
    BitsIndex(self, i);
    BitsIndex(v1, i);
    BitsIndex(r, i);
  }

  /** `union`: every bit becomes the OR of the two; true iff a word changed. */
  method Union(self: Bitv, v1: Bitv) returns (changed: bool, r: Bitv)
    requires Valid(self) && Valid(v1) && self.nbits == v1.nbits
    ensures Valid(r) && r.nbits == self.nbits
    ensures forall i :: 0 <= i < r.nbits ==> Bits(r)[i] == (Bits(self)[i] || Bits(v1)[i])
    ensures changed <==> r.storage != self.storage
  {
    changed, r := Process(self, v1, Lor);
    forall i | 0 <= i < r.nbits ensures Bits(r)[i] == (Bits(self)[i] || Bits(v1)[i]) {
      ProcessBits(self, v1, Lor, r, i);
    }
  }

  /** `intersect`: every bit becomes the AND of the two; true iff a word
      changed. */
  method Intersect(self: Bitv, v1: Bitv) returns (changed: bool, r: Bitv)
    requires Valid(self) && Valid(v1) && self.nbits == v1.nbits
    ensures Valid(r) && r.nbits == self.nbits
    ensures forall i :: 0 <= i < r.nbits ==> Bits(r)[i] == (Bits(self)[i] && Bits(v1)[i])
    ensures changed <==> r.storage != self.storage
  {
    changed, r := Process(self, v1, Land);
    forall i | 0 <= i < r.nbits ensures Bits(r)[i] == (Bits(self)[i] && Bits(v1)[i]) {
      ProcessBits(self, v1, Land, r, i);
    }
  }

  /** `assign`: `self` takes `v`'s words; true iff that changed anything. */
  method Assign(self: Bitv, v: Bitv) returns (changed: bool, r: Bitv)
    requires Valid(self) && Valid(v) && self.nbits == v.nbits
    ensures r == v
    ensures Bits(r) == Bits(v)
    ensures changed <==> v.storage != self.storage
  {
    changed, r := Process(self, v, Right);
    assert r.storage == v.storage;
  }

  /* ---------------------------------------------------------------- */
  /* Whole-storage rewrites                                             */
  /* ---------------------------------------------------------------- */

  /** What `clear`, `set_all` and `invert` do to one word. */
  datatype Rewrite = ToZero | ToOnes | Flip

  function RewriteWord(op: Rewrite, w: Word): (r: Word)
    requires IsWord(w)
    ensures IsWord(r)
  {
    match op
    case ToZero => Zero()
    case ToOnes => Ones()
    case Flip => Not(w)
  }

  /** `each_storage` as written: each word is handed to `op`, written
      back, and the loop stops as soon as `op` returns true. The body of a
      `for` loop returns true when it falls through, so `opResult` is true
      for every caller and only word 0 is ever rewritten. */
  method EachStorageAsWritten(v: Bitv, op: Rewrite, opResult: bool) returns (r: Bitv)
    requires Valid(v)
    ensures Valid(r) && r.nbits == v.nbits
    ensures opResult ==> r.storage == v.storage[0 := RewriteWord(op, v.storage[0])]
    ensures !opResult ==> forall k :: 0 <= k < |r.storage| ==> r.storage[k] == RewriteWord(op, v.storage[k])
  {
    var storage := v.storage;
    var i := 0;
    while i < |storage|
      invariant 0 <= i <= |storage| == |v.storage|
      invariant opResult ==> i == 0 && storage == v.storage
      invariant !opResult ==> forall k :: 0 <= k < i ==> storage[k] == RewriteWord(op, v.storage[k])
      invariant !opResult ==> forall k :: i <= k < |storage| ==> storage[k] == v.storage[k]
    {
      var w := RewriteWord(op, storage[i]);
      var b := !opResult;
      storage := storage[i := w];
      i := i + 1;
      if !b {
        break;
      }
    }
    r := Bitv(storage, v.nbits);
  }

  /** `each_storage` as intended: every word is rewritten. */
  method EachStorage(v: Bitv, op: Rewrite) returns (r: Bitv)
    requires Valid(v)
    ensures Valid(r) && r.nbits == v.nbits
    ensures forall k :: 0 <= k < |r.storage| ==> r.storage[k] == RewriteWord(op, v.storage[k])
  {
    var storage := v.storage;
    var i := 0;
    while i < |storage|
      invariant 0 <= i <= |storage| == |v.storage|
      invariant forall k :: 0 <= k < i ==> storage[k] == RewriteWord(op, v.storage[k])
      invariant forall k :: i <= k < |storage| ==> storage[k] == v.storage[k]
    {
      storage := storage[i := RewriteWord(op, storage[i])];
      i := i + 1;
    }
    r := Bitv(storage, v.nbits);
  }

  /** The bits of a vector whose every word went through `op`. */
  lemma RewriteBits(v: Bitv, r: Bitv, op: Rewrite)
    requires Valid(v) && Valid(r) && r.nbits == v.nbits
    requires forall k :: 0 <= k < |r.storage| ==> r.storage[k] == RewriteWord(op, v.storage[k])
    ensures forall i :: 0 <= i < r.nbits ==> Bits(r)[i] == match op
      case ToZero => false
      case ToOnes => true
      case Flip => !Bits(v)[i]
  {
    forall i | 0 <= i < r.nbits ensures Bits(r)[i] == match op
      case ToZero => false
      case ToOnes => true
      case Flip => !Bits(v)[i]
    {
      BitsIndex(v, i);
      BitsIndex(r, i);
    }
  }

  /** The bits of a vector whose word 0 alone went through `op`: the bits
      below `UintBits` are rewritten and the others kept. */
  lemma RewriteFirstBits(v: Bitv, r: Bitv, op: Rewrite)
    requires Valid(v) && Valid(r) && r.nbits == v.nbits
    requires r.storage == v.storage[0 := RewriteWord(op, v.storage[0])]
    ensures forall i :: 0 <= i < r.nbits ==> Bits(r)[i] == if i < UintBits then match op
      case ToZero => false
      case ToOnes => true
      case Flip => !Bits(v)[i]
      else Bits(v)[i]
  {
    forall i | 0 <= i < r.nbits ensures Bits(r)[i] == if i < UintBits then match op
      case ToZero => false
      case ToOnes => true
      case Flip => !Bits(v)[i]
      else Bits(v)[i]
    {
      BitsIndex(v, i);
      BitsIndex(r, i);
    }
  }

  /** `clear` as written: only the bits of word 0 are cleared. */
  method ClearAsWritten(v: Bitv) returns (r: Bitv)
    requires Valid(v)
    ensures Valid(r) && r.nbits == v.nbits
    ensures forall i :: 0 <= i < r.nbits ==> Bits(r)[i] == (if i < UintBits then false else Bits(v)[i])
  {
    r := EachStorageAsWritten(v, ToZero, true);
    RewriteFirstBits(v, r, ToZero);
  }

  /** `set_all` as written: only the bits of word 0 are set. */
  method SetAllAsWritten(v: Bitv) returns (r: Bitv)
    requires Valid(v)
    ensures Valid(r) && r.nbits == v.nbits
    ensures forall i :: 0 <= i < r.nbits ==> Bits(r)[i] == (if i < UintBits then true else Bits(v)[i])
  {
    r := EachStorageAsWritten(v, ToOnes, true);
    RewriteFirstBits(v, r, ToOnes);
  }

  /** `invert` as written: only the bits of word 0 are flipped. */
  method InvertAsWritten(v: Bitv) returns (r: Bitv)
    requires Valid(v)
    ensures Valid(r) && r.nbits == v.nbits
    ensures r.storage == v.storage[0 := Not(v.storage[0])]
    ensures forall i :: 0 <= i < r.nbits ==> Bits(r)[i] == (if i < UintBits then !Bits(v)[i] else Bits(v)[i])
  {
    r := EachStorageAsWritten(v, Flip, true);
    RewriteFirstBits(v, r, Flip);
  }

  /** `clear`: every bit becomes 0. */
  method Clear(v: Bitv) returns (r: Bitv)
    requires Valid(v)
    ensures Valid(r) && r.nbits == v.nbits
    ensures Bits(r) == seq(v.nbits, _ => false)
  {
    r := EachStorage(v, ToZero);
    RewriteBits(v, r, ToZero);
  }

  /** `set_all`: every bit becomes 1. */
  method SetAll(v: Bitv) returns (r: Bitv)
    requires Valid(v)
    ensures Valid(r) && r.nbits == v.nbits
    ensures Bits(r) == seq(v.nbits, _ => true)
  {
    r := EachStorage(v, ToOnes);
    RewriteBits(v, r, ToOnes);
  }

  /** `invert`: every bit flips, and every word is complemented. */
  method Invert(v: Bitv) returns (r: Bitv)
    requires Valid(v)
    ensures Valid(r) && r.nbits == v.nbits
    ensures forall k :: 0 <= k < |r.storage| ==> r.storage[k] == Not(v.storage[k])
    ensures forall i :: 0 <= i < r.nbits ==> Bits(r)[i] == !Bits(v)[i]
  {
    r := EachStorage(v, Flip);
    RewriteBits(v, r, Flip);
  }

  /** Complementing a word twice gives it back. */
  lemma NotNot(w: Word)
    requires IsWord(w)
    ensures Not(Not(w)) == w
  {
  }

  /** `difference`: `v` is inverted, intersected into `self` and inverted
      back, so `self` keeps exactly its bits that `v` lacks and `v` ends as
      it began. */
  method Difference(self: Bitv, v: Bitv) returns (changed: bool, r: Bitv, vAfter: Bitv)
    requires Valid(self) && Valid(v) && self.nbits == v.nbits
    ensures Valid(r) && r.nbits == self.nbits
    ensures forall i :: 0 <= i < r.nbits ==> Bits(r)[i] == (Bits(self)[i] && !Bits(v)[i])
    ensures vAfter == v
    ensures changed <==> r.storage != self.storage
  {
    var inv := Invert(v);
    changed, r := Intersect(self, inv);
    vAfter := Invert(inv);
    forall k | 0 <= k < |v.storage| ensures vAfter.storage[k] == v.storage[k] {
      NotNot(v.storage[k]);
    }
  }

  /** `difference` over the as-written `invert`: `v` still ends as it
      began, and the bits of word 0 become `self`'s and not `v`'s, but
      the bits of later words become `self`'s and `v`'s. */
  method DifferenceAsWritten(self: Bitv, v: Bitv) returns (changed: bool, r: Bitv, vAfter: Bitv)
    requires Valid(self) && Valid(v) && self.nbits == v.nbits
    ensures Valid(r) && r.nbits == self.nbits
    ensures forall i :: 0 <= i < r.nbits ==>
      Bits(r)[i] == (if i < UintBits then Bits(self)[i] && !Bits(v)[i] else Bits(self)[i] && Bits(v)[i])
    ensures vAfter == v
    ensures changed <==> r.storage != self.storage
  {
    var inv := InvertAsWritten(v);
    changed, r := Intersect(self, inv);
    vAfter := InvertAsWritten(inv);
    NotNot(v.storage[0]);
    assert vAfter.storage == v.storage;
  }

  /* ---------------------------------------------------------------- */
  /* Comparison, conversion and copying                                 */
  /* ---------------------------------------------------------------- */

  /** `equal`: false when the lengths differ; otherwise the words are
      compared one by one, unused high bits of the last word included. */
  method Equal(self: Bitv, v1: Bitv) returns (eq: bool)
    requires Valid(self) && Valid(v1)
    ensures eq <==> self == v1
    ensures eq ==> Bits(self) == Bits(v1)
  {
    if self.nbits != v1.nbits {
      return false;
    }
    var len := |v1.storage|;
    var i := 0;
    while i < len
      invariant 0 <= i <= len
      invariant forall k :: 0 <= k < i ==> self.storage[k] == v1.storage[k]
    {
      if self.storage[i] != v1.storage[i] {
        return false;
      }
      i := i + 1;
    }
    assert self.storage == v1.storage;
    return true;
  }

  /** Comparing only the `nbits` bits, as `equal` is documented to. */
  method EqualBits(self: Bitv, v1: Bitv) returns (eq: bool)
    requires Valid(self) && Valid(v1)
    ensures eq <==> self.nbits == v1.nbits && Bits(self) == Bits(v1)
  {
    if self.nbits != v1.nbits {
      return false;
    }
    var i := 0;
    while i < self.nbits
      invariant 0 <= i <= self.nbits
      invariant forall k :: 0 <= k < i ==> Bits(self)[k] == Bits(v1)[k]
    {
      if Get(self, i) != Get(v1, i) {
        return false;
      }
      i := i + 1;
    }
    return true;
  }

  /** Ten bits all set two ways: by `new` with `init` true, and one by one
      with `set` in a vector `new` built cleared. The bits agree, so
      comparing the bits says equal; the unused bits of the word do not,
      so `equal` says different. */
  method EqualSeesUnusedBits() returns (ones: Bitv, byHand: Bitv, eq: bool, eqBits: bool)
    ensures Valid(ones) && Valid(byHand) && Bits(ones) == Bits(byHand)
    ensures !eq && eqBits
  {
    ones := New(10, true);
    byHand := New(10, false);
    var i := 0;
    while i < 10
      invariant 0 <= i <= 10
      invariant Valid(byHand) && byHand.nbits == 10
      invariant Bits(byHand) == seq(10, k => k < i)
      invariant !byHand.storage[0][10]
    {
      byHand := Set(byHand, i, true);
      assert Bits(byHand) == seq(10, k => k < i + 1);
      i := i + 1;
    }
    assert Bits(ones) == Bits(byHand);
    assert ones.storage[0][10];
    eq := Equal(ones, byHand);
    eqBits := EqualBits(ones, byHand);
  }

  /** `to_vec`: one entry per bit, 1 where the bit is set and 0 elsewhere. */
  method ToVec(v: Bitv) returns (r: seq<nat>)
    requires Valid(v)
    ensures |r| == v.nbits
    ensures forall i :: 0 <= i < |r| ==> (r[i] == 1 <==> Bits(v)[i]) && (r[i] == 0 <==> !Bits(v)[i])
  {
    r := [];
    while |r| < v.nbits
      invariant |r| <= v.nbits
      invariant forall i :: 0 <= i < |r| ==> r[i] == if Bits(v)[i] then 1 else 0
    {
      r := r + [if Get(v, |r|) then 1 else 0];
    }
  }

  /** `to_str`: one character per bit, '1' where it is set and '0' elsewhere. */
  method ToStr(v: Bitv) returns (s: string)
    requires Valid(v)
    ensures |s| == v.nbits
    ensures forall i :: 0 <= i < |s| ==> (s[i] == '1' <==> Bits(v)[i]) && (s[i] == '0' <==> !Bits(v)[i])
  {
    s := "";
    var i := 0;
    while i < v.nbits
      invariant i == |s| <= v.nbits
      invariant forall k :: 0 <= k < i ==> s[k] == if Bits(v)[k] then '1' else '0'
    {
      if Get(v, i) {
        s := s + "1";
      } else {
        s := s + "0";
      }
      i := i + 1;
    }
  }

  /** `eq_vec`: `v` has one entry per bit; true iff each bit is set exactly
      where the entry is non-zero. */
  method EqVec(self: Bitv, v: seq<nat>) returns (eq: bool)
    requires Valid(self) && self.nbits == |v|
    ensures eq <==> forall i :: 0 <= i < |v| ==> (Bits(self)[i] <==> v[i] != 0)
  {
    var i := 0;
    while i < self.nbits
      invariant 0 <= i <= self.nbits
      invariant forall k :: 0 <= k < i ==> (Bits(self)[k] <==> v[k] != 0)
    {
      var w0 := Get(self, i);
      var w1 := v[i];
      if (!w0 && w1 != 0) || (w0 && w1 == 0) {
        return false;
      }
      i := i + 1;
    }
    return true;
  }

  /** `clone`: fresh storage of the same size, every word copied. */
  method Clone(self: Bitv) returns (r: Bitv)
    requires Valid(self)
    ensures r == self
    ensures Bits(r) == Bits(self)
  {
    var storage: seq<Word> := [];
    while |storage| < self.nbits / UintBits + 1
      invariant |storage| <= self.nbits / UintBits + 1
      invariant forall k :: 0 <= k < |storage| ==> storage[k] == Zero()
    {
      storage := storage + [Zero()];
    }
    var len := |self.storage|;
    var i := 0;
    while i < len
      invariant 0 <= i <= len == |storage|
      invariant forall k :: 0 <= k < i ==> storage[k] == self.storage[k]
    {
      storage := storage[i := self.storage[i]];
      i := i + 1;
    }
    r := Bitv(storage, self.nbits);
  }

  /** A 65-bit vector built all set and then cleared with the as-written
      `clear` still has bit 64 set: it lives in word 1, which is never
      rewritten. */
  method ClearAsWrittenKeepsBit64() returns (v: Bitv)
    ensures Valid(v) && v.nbits == 65 && Bits(v)[64]
  {
    var full := New(65, true);
    v := ClearAsWritten(full);
  }

  /** The same vector cleared with `clear` as intended has bit 64 clear. */
  method ClearClearsBit64() returns (v: Bitv)
    ensures Valid(v) && v.nbits == 65 && !Bits(v)[64]
  {
    var full := New(65, true);
    v := Clear(full);
  }
}
