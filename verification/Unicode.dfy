/**
  * What the bytes of a text encode, and what its columns count: characters as scalar values,
  * their octets (section 3 of RFC 3629) and their UTF-16 code units (section 2 of RFC 2781).
  */
module Unicode {
  import opened Prelude
  import opened Utf8
  import opened Lines
  import opened Positions

  /** A Unicode scalar value: any code point but the surrogates. */
  predicate IsScalar(v: int) {
    0 <= v <= 0xD7FF || 0xE000 <= v <= 0x10FFFF
  }

  /** It has the property White_Space. */
  predicate IsWhiteSpace(v: int) {
    || 0x9 <= v <= 0xD || v == 0x20 || v == 0x85 || v == 0xA0 || v == 0x1680 || 0x2000 <= v <= 0x200A
    || v == 0x2028 || v == 0x2029 || v == 0x202F || v == 0x205F || v == 0x3000
  }

  // ---- octets ----

  /** The octet that holds the last six bits of `v`, and is not the first of its character. */
  function Tail(v: nat): byte {
    (0x80 + v % 0x40) as byte
  }

  /** The octets of a character. */
  function ToUtf8(v: int): seq<byte>
    requires IsScalar(v)
  {
    if v <= 0x7F then [v as byte]
    else if v <= 0x7FF then [(0xC0 + v / 0x40) as byte, Tail(v)]
    else if v <= 0xFFFF then [(0xE0 + v / 0x40 / 0x40) as byte, Tail(v / 0x40), Tail(v)]
    else [(0xF0 + v / 0x40 / 0x40 / 0x40) as byte, Tail(v / 0x40 / 0x40), Tail(v / 0x40), Tail(v)]
  }

  lemma LastSixBits(v: nat, high: nat)
    requires high == v / 0x40
    ensures IsTail(Tail(v)) && v == high * 0x40 + (Tail(v) as int - 0x80)
  {
  }

  lemma SixMoreBits(v: nat, high: nat, b: byte)
    requires IsTail(b) && v == high * 0x40 + (b as int - 0x80)
    ensures v / 0x40 == high && Tail(v) == b
  {
  }

  lemma CharLenFollowed(s: seq<byte>, rest: seq<byte>)
    requires 0 < CharLen(s) == |s|
    ensures CharLen(s + rest) == |s| && CodePoint(s + rest) == CodePoint(s) && (s + rest)[|s|..] == rest
  {
  }

  lemma {:induction false} Encoded3(v: int, a: nat, b: nat)
    requires 0x800 <= v <= 0xFFFF && IsScalar(v) && b == v / 0x40 && a == b / 0x40
    ensures ToUtf8(v) == [(0xE0 + a) as byte, Tail(b), Tail(v)]
    ensures CharLen(ToUtf8(v)) == 3 && CodePoint(ToUtf8(v)) == v
  {
    LastSixBits(v, b);
    LastSixBits(b, a);
  }

  lemma {:induction false} Encoded4(v: int, a: nat, b: nat, c: nat)
    requires 0x10000 <= v && IsScalar(v) && c == v / 0x40 && b == c / 0x40 && a == b / 0x40
    ensures ToUtf8(v) == [(0xF0 + a) as byte, Tail(b), Tail(c), Tail(v)]
    ensures CharLen(ToUtf8(v)) == 4 && CodePoint(ToUtf8(v)) == v
  {
    LastSixBits(v, c);
    LastSixBits(c, b);
    LastSixBits(b, a);
  }

  /** Every scalar value is decoded from its octets, whatever follows them. */
  lemma EncodedDecodes(v: int, rest: seq<byte>)
    requires IsScalar(v)
    ensures var s := ToUtf8(v) + rest;
            CharLen(s) == |ToUtf8(v)| > 0 && CodePoint(s) == v && s[CharLen(s)..] == rest
  {
    if 0x10000 <= v {
      Encoded4(v, v / 0x40 / 0x40 / 0x40, v / 0x40 / 0x40, v / 0x40);
    } else if 0x800 <= v {
      Encoded3(v, v / 0x40 / 0x40, v / 0x40);
    }
    CharLenFollowed(ToUtf8(v), rest);
  }

  lemma {:induction false} Decoded3(s: seq<byte>)
    requires CharLen(s) == 3
    ensures 0x800 <= CodePoint(s) <= 0xFFFF && IsScalar(CodePoint(s)) && ToUtf8(CodePoint(s)) == s[..3]
  {
    var v := CodePoint(s);
    var a: nat, b: nat := s[0] as int - 0xE0, (s[0] as int - 0xE0) * 0x40 + (s[1] as int - 0x80);
    SixMoreBits(v, b, s[2]);
    SixMoreBits(b, a, s[1]);
  }

  lemma {:induction false} Decoded4(s: seq<byte>)
    requires CharLen(s) == 4
    ensures 0x10000 <= CodePoint(s) && IsScalar(CodePoint(s)) && ToUtf8(CodePoint(s)) == s[..4]
  {
    var v := CodePoint(s);
    var a: nat, b: nat := s[0] as int - 0xF0, (s[0] as int - 0xF0) * 0x40 + (s[1] as int - 0x80);
    var c: nat := b * 0x40 + (s[2] as int - 0x80);
    SixMoreBits(v, c, s[3]);
    SixMoreBits(c, b, s[2]);
    SixMoreBits(b, a, s[1]);
  }

  /** What is decoded is a scalar value, from its octets and no others. */
  lemma DecodedEncodes(s: seq<byte>)
    requires 0 < CharLen(s)
    ensures IsScalar(CodePoint(s)) && ToUtf8(CodePoint(s)) == s[..CharLen(s)]
  {
    if CharLen(s) == 4 {
      Decoded4(s);
    } else if CharLen(s) == 3 {
      Decoded3(s);
    } else if CharLen(s) == 2 {
      SixMoreBits(CodePoint(s), s[0] as int - 0xC0, s[1]);
    }
  }

  /** The characters of a text. */
  function Scalars(s: seq<byte>): (vs: seq<int>)
    requires Valid(s)
    ensures forall i :: 0 <= i < |vs| ==> IsScalar(vs[i])
  {
    if s == [] then []
    else
      DecodedEncodes(s);
      [CodePoint(s)] + Scalars(s[CharLen(s)..])
  }

  /** The text of some characters. */
  function Encoded(vs: seq<int>): seq<byte>
    requires forall i :: 0 <= i < |vs| ==> IsScalar(vs[i])
  {
    if vs == [] then [] else ToUtf8(vs[0]) + Encoded(vs[1..])
  }

  /** Text is exactly what some characters encode to. */
  lemma {:induction false} TextIsEncoded(s: seq<byte>)
    requires Valid(s)
    ensures Encoded(Scalars(s)) == s
  {
    if s != [] {
      DecodedEncodes(s);
      TextIsEncoded(s[CharLen(s)..]);
    }
  }

  lemma {:induction false} EncodedIsText(vs: seq<int>)
    requires forall i :: 0 <= i < |vs| ==> IsScalar(vs[i])
    ensures Valid(Encoded(vs)) && Scalars(Encoded(vs)) == vs
  {
    if vs != [] {
      EncodedDecodes(vs[0], Encoded(vs[1..]));
      EncodedIsText(vs[1..]);
    }
  }

  // ---- code units ----

  newtype unit = u: int | 0 <= u < 0x10000

  /** The code units of a character: itself, or a high and a low surrogate. */
  function ToUtf16(v: int): seq<unit>
    requires IsScalar(v)
  {
    if v < 0x10000 then [v as unit]
    else [(0xD800 + (v - 0x10000) / 0x400) as unit, (0xDC00 + (v - 0x10000) % 0x400) as unit]
  }

  /** The characters some code units stand for; nothing when a surrogate is alone. */
  function FromUtf16(units: seq<unit>): Option<seq<int>> {
    if units == [] then Some([])
    else if units[0] < 0xD800 || 0xDFFF < units[0] then
      match FromUtf16(units[1..])
      case None => None
      case Some(rest) => Some([units[0] as int] + rest)
    else if |units| == 1 || 0xDBFF < units[0] || units[1] < 0xDC00 || 0xDFFF < units[1] then None
    else
      match FromUtf16(units[2..])
      case None => None
      case Some(rest) =>
        Some([0x10000 + (units[0] as int - 0xD800) * 0x400 + (units[1] as int - 0xDC00)] + rest)
  }

  /** The code units of a text. */
  function Units(s: seq<byte>): seq<unit>
    requires Valid(s)
  {
    if s == [] then []
    else
      DecodedEncodes(s);
      ToUtf16(CodePoint(s)) + Units(s[CharLen(s)..])
  }

  lemma OneCharacter(v: int, units: seq<unit>, rest: seq<int>)
    requires IsScalar(v) && FromUtf16(units) == Some(rest)
    ensures FromUtf16(ToUtf16(v) + units) == Some([v] + rest)
  {
    var all := ToUtf16(v) + units;
    assert all[|ToUtf16(v)|..] == units;
  }

  /** They stand for its characters. */
  lemma {:induction false} UnitsDecode(s: seq<byte>)
    requires Valid(s)
    ensures FromUtf16(Units(s)) == Some(Scalars(s))
  {
    if s != [] {
      var rest := s[CharLen(s)..];
      DecodedEncodes(s);
      UnitsDecode(rest);
      OneCharacter(CodePoint(s), Units(rest), Scalars(rest));
    }
  }

  /** What is counted of a character is its code units. */
  lemma WidthIsUnits(v: int)
    requires IsScalar(v)
    ensures Utf16Width(v) == |ToUtf16(v)|
  {
  }

  /** The UTF-16 length of a text is the number of its code units. */
  lemma {:induction false} LengthIsUnits(s: seq<byte>)
    requires Valid(s)
    ensures Utf16Len(s) == |Units(s)|
  {
    if s != [] {
      DecodedEncodes(s);
      WidthIsUnits(CodePoint(s));
      LengthIsUnits(s[CharLen(s)..]);
    }
  }

  /** The column of a boundary is the number of code units before it. */
  lemma ColumnIsUnits(line: seq<byte>, b: nat)
    requires Valid(line) && IsBoundary(line, b)
    ensures Valid(line[..b]) && ColumnOfByte(line, b) == |Units(line[..b])|
  {
    SplitValid(line, b);
    LengthIsUnits(line[..b]);
  }

  /** `b` is the greatest boundary of `line` with no more than `col` code units before it. */
  ghost predicate IsByteOf(line: seq<byte>, col: nat, b: nat) {
    && IsBoundary(line, b) && Valid(line[..b]) && |Units(line[..b])| <= col
    && forall k: nat :: b < k && IsBoundary(line, k) ==> Valid(line[..k]) && col < |Units(line[..k])|
  }

  /** A column falls there, and nowhere else. */
  lemma ByteOfColumnByUnits(line: seq<byte>, col: nat, b: nat)
    requires Valid(line)
    ensures ByteOfColumn(line, col) == b <==> IsByteOf(line, col, b)
  {
    ByteOfColumnIsGreatest(line, col, b);
    forall k: nat | IsBoundary(line, k)
      ensures Valid(line[..k]) && ColumnOfByte(line, k) == |Units(line[..k])|
    {
      ColumnIsUnits(line, k);
    }
  }

  /** So does the offset of a position, on a line that exists; its content is what comes before its terminator. */
  lemma OffsetByUnits(text: seq<byte>, p: Position, b: nat)
    requires Valid(text) && p.line < |LineStarts(text)|
    ensures var start := LineStarts(text)[p.line];
            start <= |text| && (Offset(text, p) == start + b <==> IsByteOf(Content(text, start), p.character, b))
  {
    OffsetThroughIndex(text, p);
    ByteOfColumnByUnits(Content(text, LineStarts(text)[p.line]), p.character, b);
  }
}
