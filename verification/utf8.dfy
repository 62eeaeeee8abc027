/** Strings are UTF-8 encoded: a character takes one to four bytes, and
    byte offsets into a string are meaningful at character boundaries. The
    model keeps a string as its characters and counts bytes from them. */
module Utf8 {

  /** The number of bytes UTF-8 uses for `c`. */
  function Width(c: char): (w: nat)
    ensures 1 <= w <= 4
  {
    if c as int < 0x80 then 1
    else if c as int < 0x800 then 2
    else if c as int < 0x1_0000 then 3
    else 4
  }

  /** The length of `s` in bytes (`str::len`). */
  function ByteLen(s: string): (n: nat)
    ensures |s| <= n <= 4 * |s|
  {
    if |s| == 0 then 0 else Width(s[0]) + ByteLen(s[1..])
  }

  lemma {:induction false} ByteLenAppend(a: string, b: string)
    ensures ByteLen(a + b) == ByteLen(a) + ByteLen(b)
    decreases |a|
  {
    if |a| > 0 {
      assert (a + b)[1..] == a[1..] + b;
      ByteLenAppend(a[1..], b);
    } else {
      assert a + b == b;
    }
  }

  /** How many whole characters fit in the first `b` bytes of `s`. */
  function CharIndex(s: string, b: nat): (i: nat)
    ensures i <= |s|
    decreases |s|
  {
    if |s| == 0 || b < Width(s[0]) then 0
    else 1 + CharIndex(s[1..], b - Width(s[0]))
  }

  /** The characters that fit in `b` bytes take at most `b` bytes, and the
      next character would not fit. */
  lemma {:induction false} CharIndexFits(s: string, b: nat)
    ensures ByteLen(s[..CharIndex(s, b)]) <= b
    ensures CharIndex(s, b) < |s| ==> b < ByteLen(s[..CharIndex(s, b) + 1])
    decreases |s|
  {
    var i := CharIndex(s, b);
    if |s| > 0 && b >= Width(s[0]) {
      CharIndexFits(s[1..], b - Width(s[0]));
      assert s[..i] == [s[0]] + s[1..][..i - 1];
      ByteLenAppend([s[0]], s[1..][..i - 1]);
      if i < |s| {
        assert s[..i + 1] == [s[0]] + s[1..][..i];
        ByteLenAppend([s[0]], s[1..][..i]);
      }
    } else if |s| > 0 {
      assert s[..1] == [s[0]];
    }
  }

  /** More bytes never hold fewer characters. */
  lemma {:induction false} CharIndexMono(s: string, b: nat, e: nat)
    requires b <= e
    ensures CharIndex(s, b) <= CharIndex(s, e)
    decreases |s|
  {
    if |s| > 0 && b >= Width(s[0]) {
      CharIndexMono(s[1..], b - Width(s[0]), e - Width(s[0]));
    }
  }

  /** The byte offset of a character index is a boundary that gives the
      index back. */
  lemma {:induction false} CharIndexOfPrefix(s: string, i: nat)
    requires i <= |s|
    ensures CharIndex(s, ByteLen(s[..i])) == i
    decreases |s|
  {
    if i > 0 {
      assert s[..i] == [s[0]] + s[1..][..i - 1];
      ByteLenAppend([s[0]], s[1..][..i - 1]);
      CharIndexOfPrefix(s[1..], i - 1);
    }
  }

  /** `b` falls between two characters of `s` (or at either end). */
  predicate IsBoundary(s: string, b: nat) {
    ByteLen(s[..CharIndex(s, b)]) == b
  }

  /** The characters between byte offsets `b` and `e`. */
  function Slice(s: string, b: nat, e: nat): (t: string)
    requires b <= e
    ensures |t| == CharIndex(s, e) - CharIndex(s, b)
  {
    CharIndexMono(s, b, e);
    s[CharIndex(s, b)..CharIndex(s, e)]
  }

  /** Between two boundaries, the slice takes exactly the bytes between
      them. */
  lemma SliceByteLen(s: string, b: nat, e: nat)
    requires b <= e && IsBoundary(s, b) && IsBoundary(s, e)
    ensures ByteLen(Slice(s, b, e)) == e - b
  {
    var i, j := CharIndex(s, b), CharIndex(s, e);
    CharIndexMono(s, b, e);
    assert s[..j] == s[..i] + s[i..j];
    ByteLenAppend(s[..i], s[i..j]);
  }

  /** Between two different boundaries lies at least one character. */
  lemma BoundaryGap(s: string, b: nat, e: nat)
    requires b < e && IsBoundary(s, b) && IsBoundary(s, e)
    ensures CharIndex(s, b) < CharIndex(s, e)
  {
    CharIndexMono(s, b, e);
  }

  /** A boundary lies within the string. */
  lemma BoundaryInRange(s: string, b: nat)
    requires IsBoundary(s, b)
    ensures b <= ByteLen(s)
  {
    var i := CharIndex(s, b);
    assert s == s[..i] + s[i..];
    ByteLenAppend(s[..i], s[i..]);
  }

  /** The end of the string is a boundary. */
  lemma EndIsBoundary(s: string)
    ensures IsBoundary(s, ByteLen(s)) && CharIndex(s, ByteLen(s)) == |s|
  {
    assert s[..|s|] == s;
    CharIndexOfPrefix(s, |s|);
  }

  /** From a boundary to the end of the string, the slice is the tail. */
  lemma SliceToEnd(s: string, b: nat)
    requires IsBoundary(s, b)
    ensures b <= ByteLen(s) && IsBoundary(s, ByteLen(s))
    ensures Slice(s, b, ByteLen(s)) == s[CharIndex(s, b)..]
  {
    BoundaryInRange(s, b);
    EndIsBoundary(s);
  }

  /** Every character of `s` is ASCII. */
  predicate Ascii(s: string) {
    forall k :: 0 <= k < |s| ==> s[k] as int < 0x80
  }

  /** In an ASCII string bytes and characters coincide. */
  lemma {:induction false} AsciiBytes(s: string, b: nat)
    requires Ascii(s)
    ensures ByteLen(s) == |s|
    ensures CharIndex(s, b) == if b < |s| then b else |s|
    ensures b <= |s| ==> IsBoundary(s, b)
    decreases |s|
  {
    if |s| > 0 {
      assert Ascii(s[1..]) by {
        forall k | 0 <= k < |s| - 1 ensures s[1..][k] as int < 0x80 {
          assert s[1..][k] == s[k + 1];
        }
      }
      AsciiBytes(s[1..], if b == 0 then 0 else b - 1);
      assert Width(s[0]) == 1;
      if b <= |s| {
        var i := CharIndex(s, b);
        assert i == b;
        AsciiPrefix(s, b);
      }
    }
  }

  lemma AsciiPrefix(s: string, i: nat)
    requires Ascii(s) && i <= |s|
    ensures ByteLen(s[..i]) == i
  {
    assert Ascii(s[..i]) by {
      forall k | 0 <= k < i ensures s[..i][k] as int < 0x80 {
        assert s[..i][k] == s[k];
      }
    }
    AsciiLen(s[..i]);
  }

  lemma {:induction false} AsciiLen(s: string)
    requires Ascii(s)
    ensures ByteLen(s) == |s|
    decreases |s|
  {
    if |s| > 0 {
      assert Ascii(s[1..]) by {
        forall k | 0 <= k < |s| - 1 ensures s[1..][k] as int < 0x80 {
          assert s[1..][k] == s[k + 1];
        }
      }
      AsciiLen(s[1..]);
    }
  }
}
