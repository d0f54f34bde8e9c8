/**
  * UTF-8 text as the byte sequence a Rust `String` holds, and the UTF-16 lengths
  * the Language Server Protocol counts columns in.
  *
  * Well-formedness follows the grammar of RFC 3629, section 4; UTF-16 lengths
  * follow RFC 2781, section 2.1.
  */
module Utf8 {
  import opened Prelude

  newtype byte = b: int | 0 <= b < 256

  const LF: byte := 0x0A
  const CR: byte := 0x0D

  /** The first `b` at or after `from`, or the end of `s`. */
  function FindByte(s: seq<byte>, b: byte, from: nat): (n: nat)
    requires from <= |s|
    ensures from <= n <= |s| && (n < |s| ==> s[n] == b)
    ensures forall k :: from <= k < n ==> s[k] != b
    decreases |s| - from
  {
    if from == |s| || s[from] == b then from else FindByte(s, b, from + 1)
  }

  predicate IsTail(b: byte) {
    0x80 <= b <= 0xBF
  }

  predicate IsLead3(b0: byte, b1: byte) {
    || (b0 == 0xE0 && 0xA0 <= b1 <= 0xBF)
    || (0xE1 <= b0 <= 0xEC && IsTail(b1))
    || (b0 == 0xED && 0x80 <= b1 <= 0x9F)
    || (0xEE <= b0 <= 0xEF && IsTail(b1))
  }

  predicate IsLead4(b0: byte, b1: byte) {
    || (b0 == 0xF0 && 0x90 <= b1 <= 0xBF)
    || (0xF1 <= b0 <= 0xF3 && IsTail(b1))
    || (b0 == 0xF4 && 0x80 <= b1 <= 0x8F)
  }

  /** Length of the well-formed character `s` starts with, or 0 when there is none. */
  function CharLen(s: seq<byte>): (n: nat)
    ensures n <= 4 && n <= |s|
    ensures 0 < n ==> !IsTail(s[0]) && forall k :: 1 <= k < n ==> IsTail(s[k])
  {
    if |s| >= 1 && s[0] <= 0x7F then 1
    else if |s| >= 2 && 0xC2 <= s[0] <= 0xDF && IsTail(s[1]) then 2
    else if |s| >= 3 && IsLead3(s[0], s[1]) && IsTail(s[2]) then 3
    else if |s| >= 4 && IsLead4(s[0], s[1]) && IsTail(s[2]) && IsTail(s[3]) then 4
    else 0
  }

  /** `s` is the content of some Rust `String`. */
  predicate Valid(s: seq<byte>) {
    s == [] || (0 < CharLen(s) && Valid(s[CharLen(s)..]))
  }

  /** `str::is_char_boundary` */
  predicate IsBoundary(s: seq<byte>, i: nat) {
    i <= |s| && (i == 0 || i == |s| || !IsTail(s[i]))
  }

  /** `str::get` over a range: nothing unless both ends are character boundaries, in order. */
  function Get(s: seq<byte>, start: nat, end: nat): Option<seq<byte>> {
    if start <= end && IsBoundary(s, start) && IsBoundary(s, end) then Some(s[start..end]) else None
  }

  lemma CharLenOfPrefix(a: seq<byte>, b: seq<byte>)
    requires 0 < CharLen(a)
    ensures CharLen(a + b) == CharLen(a)
    ensures (a + b)[CharLen(a)..] == a[CharLen(a)..] + b
  {
  }

  lemma {:induction false} ConcatValid(a: seq<byte>, b: seq<byte>)
    requires Valid(a) && Valid(b)
    ensures Valid(a + b)
  {
    if a == [] {
      assert a + b == b;
    } else {
      CharLenOfPrefix(a, b);
      ConcatValid(a[CharLen(a)..], b);
    }
  }

  lemma {:induction false} AsciiIsValid(s: seq<byte>)
    requires forall i :: 0 <= i < |s| ==> s[i] <= 0x7F
    ensures Valid(s)
  {
    if s != [] {
      AsciiIsValid(s[1..]);
    }
  }

  /** Cutting well-formed text between two characters leaves well-formed text on both sides. */
  lemma {:induction false} SplitValid(s: seq<byte>, i: nat)
    requires Valid(s) && IsBoundary(s, i)
    ensures Valid(s[..i]) && Valid(s[i..])
  {
    if i == 0 {
      assert s[i..] == s;
    } else {
      var n := CharLen(s);
      assert n <= i;
      var j: nat := i - n;
      assert i < |s| ==> s[n..][j] == s[i];
      SplitValid(s[n..], j);
      DropDrop(s, n, j, i);
      assert s[n..][..j] == s[..i][n..];
      assert CharLen(s[..i]) == n;
    }
  }

  /** A cut is a character boundary exactly when both halves are text. */
  lemma BoundaryIffBothHalvesValid(s: seq<byte>, i: nat)
    requires Valid(s) && i <= |s|
    ensures IsBoundary(s, i) <==> Valid(s[..i]) && Valid(s[i..])
  {
    if IsBoundary(s, i) {
      SplitValid(s, i);
    } else {
      assert s[i..][0] == s[i];
    }
  }

  /** An ASCII byte is a whole character: both of its edges are boundaries. */
  lemma {:induction false} AsciiStandsAlone(s: seq<byte>, i: nat)
    requires Valid(s) && i < |s| && s[i] <= 0x7F
    ensures IsBoundary(s, i) && IsBoundary(s, i + 1)
  {
    var n := CharLen(s);
    if n <= i {
      AsciiStandsAlone(s[n..], i - n);
    } else {
      assert i == 0;
      assert i + 1 < |s| ==> s[n..][0] == s[i + 1];
    }
  }

  /** A boundary of the middle piece is a boundary of the whole. */
  lemma BoundaryOfSlice(s: seq<byte>, lo: nat, hi: nat, i: nat)
    requires Valid(s) && lo <= hi <= |s|
    requires IsBoundary(s, lo) && IsBoundary(s, hi)
    ensures Valid(s[lo..hi])
    ensures i <= hi - lo ==> (IsBoundary(s[lo..hi], i) <==> IsBoundary(s, lo + i))
  {
    SplitValid(s, hi);
    assert lo < hi ==> s[..hi][lo] == s[lo];
    SplitValid(s[..hi], lo);
    assert s[..hi][lo..] == s[lo..hi];
    if i < hi - lo {
      assert s[lo..hi][i] == s[lo + i];
    }
    if lo < hi && i == 0 {
      assert s[lo..hi][0] == s[lo];
    }
  }

  // ---- UTF-16 ----

  /** The scalar value of the first character of `s`. */
  function CodePoint(s: seq<byte>): (v: int)
    requires 0 < CharLen(s)
  {
    var n := CharLen(s);
    if n == 1 then s[0] as int
    else if n == 2 then (s[0] as int - 0xC0) * 0x40 + (s[1] as int - 0x80)
    else if n == 3 then
      (s[0] as int - 0xE0) * 0x1000 + (s[1] as int - 0x80) * 0x40 + (s[2] as int - 0x80)
    else
      (s[0] as int - 0xF0) * 0x40000 + (s[1] as int - 0x80) * 0x1000
      + (s[2] as int - 0x80) * 0x40 + (s[3] as int - 0x80)
  }

  /** `char::len_utf16` */
  function Utf16Width(v: int): nat {
    if v < 0x10000 then 1 else 2
  }

  /** Well-formed UTF-8 encodes scalar values only, and four bytes mean a surrogate pair. */
  lemma CodePointIsScalar(s: seq<byte>)
    requires 0 < CharLen(s)
    ensures 0 <= CodePoint(s) <= 0x10FFFF
    ensures !(0xD800 <= CodePoint(s) <= 0xDFFF)
    ensures CharLen(s) == 4 <==> Utf16Width(CodePoint(s)) == 2
  {
  }

  /** Number of UTF-16 code units in `s`. */
  function Utf16Len(s: seq<byte>): nat
    requires Valid(s)
  {
    if s == [] then 0
    else Utf16Width(CodePoint(s)) + Utf16Len(s[CharLen(s)..])
  }

  lemma {:induction false} Utf16LenConcat(a: seq<byte>, b: seq<byte>)
    requires Valid(a) && Valid(b)
    ensures Valid(a + b)
    ensures Utf16Len(a + b) == Utf16Len(a) + Utf16Len(b)
  {
    if a == [] {
      assert a + b == b;
    } else {
      ConcatValid(a, b);
      CharLenOfPrefix(a, b);
      Utf16LenConcat(a[CharLen(a)..], b);
    }
  }

  /**
    * The byte at which UTF-16 column `col` of `line` falls, rounded down to a character;
    * an excessive column falls at the length of the line.
    */
  function ByteOfColumn(line: seq<byte>, col: nat): (b: nat)
    requires Valid(line)
    ensures b <= |line|
  {
    if line == [] then 0
    else
      var w := Utf16Width(CodePoint(line));
      if col < w then 0
      else CharLen(line) + ByteOfColumn(line[CharLen(line)..], col - w)
  }

  /** Column of a boundary: the UTF-16 length of what precedes it. */
  function ColumnOfByte(line: seq<byte>, b: nat): nat
    requires Valid(line) && IsBoundary(line, b)
  {
    SplitValid(line, b);
    Utf16Len(line[..b])
  }

  /** Past the first character, boundaries are those of the rest. */
  lemma BoundaryAfterFirst(line: seq<byte>, b: nat)
    requires Valid(line) && line != [] && CharLen(line) <= b
    ensures IsBoundary(line, b) <==> IsBoundary(line[CharLen(line)..], b - CharLen(line))
  {
    var n := CharLen(line);
    if b < |line| {
      assert line[n..][b - n] == line[b];
      assert n == b ==> 0 < CharLen(line[n..]);
    }
  }

  /** One character further, the column grows by the character's width. */
  lemma ColumnStep(line: seq<byte>, b: nat)
    requires Valid(line) && IsBoundary(line, b) && 0 < b
    ensures CharLen(line) <= b
    ensures IsBoundary(line[CharLen(line)..], b - CharLen(line))
    ensures ColumnOfByte(line, b)
         == Utf16Width(CodePoint(line)) + ColumnOfByte(line[CharLen(line)..], b - CharLen(line))
  {
    var n := CharLen(line);
    assert n <= b;
    BoundaryAfterFirst(line, b);
    SplitValid(line, b);
    TakeDrop(line, n, b);
    FirstOfPrefix(line, b);
  }

  lemma FirstOfPrefix(s: seq<byte>, b: nat)
    requires 0 < CharLen(s) <= b <= |s|
    ensures CharLen(s[..b]) == CharLen(s) && CodePoint(s[..b]) == CodePoint(s)
  {
  }

  lemma {:induction false} ByteOfColumnIsBoundary(line: seq<byte>, col: nat)
    requires Valid(line)
    ensures IsBoundary(line, ByteOfColumn(line, col))
  {
    if line != [] && Utf16Width(CodePoint(line)) <= col {
      ByteOfColumnIsBoundary(line[CharLen(line)..], col - Utf16Width(CodePoint(line)));
      BoundaryAfterFirst(line, ByteOfColumn(line, col));
    }
  }

  /** One character further, the byte of a column is that of the rest of the column in the rest. */
  lemma ByteOfColumnStep(line: seq<byte>, col: nat, c: nat)
    requires Valid(line) && line != [] && col == Utf16Width(CodePoint(line)) + c
    ensures ByteOfColumn(line, col) == CharLen(line) + ByteOfColumn(line[CharLen(line)..], c)
  {
  }

  /** The column grows by the character's width, seen from the rest of the line. */
  lemma ColumnGrows(line: seq<byte>, r: nat, b: nat)
    requires Valid(line) && line != [] && b == CharLen(line) + r && IsBoundary(line, b)
    ensures ColumnOfByte(line, b) == Utf16Width(CodePoint(line)) + ColumnOfByte(line[CharLen(line)..], r)
  {
    ColumnStep(line, b);
    assert b - CharLen(line) == r;
  }

  /** `ByteOfColumn` is a character boundary, and its column is no more than asked for. */
  lemma {:induction false} ByteOfColumnSound(line: seq<byte>, col: nat)
    requires Valid(line)
    ensures IsBoundary(line, ByteOfColumn(line, col))
    ensures ColumnOfByte(line, ByteOfColumn(line, col)) <= col
  {
    ByteOfColumnIsBoundary(line, col);
    if line == [] || col < Utf16Width(CodePoint(line)) {
      assert line[..0] == [];
    } else {
      var c: nat := col - Utf16Width(CodePoint(line));
      ByteOfColumnSound(line[CharLen(line)..], c);
      ByteOfColumnStep(line, col, c);
      ColumnGrows(line, ByteOfColumn(line[CharLen(line)..], c), ByteOfColumn(line, col));
    }
  }

  /** Every later boundary has a column beyond the one asked for. */
  lemma {:induction false} ByteOfColumnGreatest(line: seq<byte>, col: nat, b: nat)
    requires Valid(line) && IsBoundary(line, b) && ByteOfColumn(line, col) < b
    ensures col < ColumnOfByte(line, b)
  {
    ColumnStep(line, b);
    var w := Utf16Width(CodePoint(line));
    if w <= col {
      ByteOfColumnGreatest(line[CharLen(line)..], col - w, b - CharLen(line));
    }
  }

  /**
    * The two together pin `ByteOfColumn` down: it is `b` exactly when `b` is the
    * greatest character boundary whose UTF-16 prefix is no longer than `col`.
    */
  lemma ByteOfColumnIsGreatest(line: seq<byte>, col: nat, b: nat)
    requires Valid(line)
    ensures ByteOfColumn(line, col) == b <==>
            && IsBoundary(line, b)
            && ColumnOfByte(line, b) <= col
            && forall k :: b < k && IsBoundary(line, k) ==> col < ColumnOfByte(line, k)
  {
    var r := ByteOfColumn(line, col);
    ByteOfColumnSound(line, col);
    forall k | r < k && IsBoundary(line, k)
      ensures col < ColumnOfByte(line, k)
    {
      ByteOfColumnGreatest(line, col, k);
    }
  }

  lemma {:induction false} ByteOfColumnMonotone(line: seq<byte>, c: nat, d: nat)
    requires Valid(line) && c <= d
    ensures ByteOfColumn(line, c) <= ByteOfColumn(line, d)
  {
    if line != [] {
      var w := Utf16Width(CodePoint(line));
      if w <= c {
        ByteOfColumnMonotone(line[CharLen(line)..], c - w, d - w);
      }
    }
  }

  /** Every boundary is the offset of its own column. */
  lemma {:induction false} ColumnRoundTrip(line: seq<byte>, b: nat)
    requires Valid(line) && IsBoundary(line, b)
    ensures ByteOfColumn(line, ColumnOfByte(line, b)) == b
  {
    if 0 < b {
      var r: nat := b - CharLen(line);
      ColumnStep(line, b);
      ColumnRoundTrip(line[CharLen(line)..], r);
      ByteOfColumnStep(line, ColumnOfByte(line, b), ColumnOfByte(line[CharLen(line)..], r));
    } else if line != [] {
      assert line[..b] == [];
    }
  }

  /** A column falls at the length of the line exactly when it is no less than the line's own. */
  lemma {:induction false} ByteOfColumnAtEnd(line: seq<byte>, col: nat)
    requires Valid(line)
    ensures ByteOfColumn(line, col) == |line| <==> Utf16Len(line) <= col
  {
    if line != [] {
      var w := Utf16Width(CodePoint(line));
      if w <= col {
        ByteOfColumnAtEnd(line[CharLen(line)..], col - w);
      }
    }
  }
}
