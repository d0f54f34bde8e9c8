/**
  * Frames in a byte stream, each behind a header that gives its length (LSP 3.17, "Base Protocol, Header Part").
  */
module Framing {
  import opened Prelude
  import opened Utf8
  import opened Unicode

  const MAX_FRAME_BYTES := 64 * 1024 * 1024

  const USIZE_MAX := 0xFFFF_FFFF_FFFF_FFFF

  /** "Content-Length" */
  const CONTENT_LENGTH: seq<byte> :=
    [0x43, 0x6F, 0x6E, 0x74, 0x65, 0x6E, 0x74, 0x2D, 0x4C, 0x65, 0x6E, 0x67, 0x74, 0x68]

  const COLON: byte := 0x3A
  const SPACE: byte := 0x20
  const PLUS: byte := 0x2B

  // ---- decimal numbers ----

  predicate IsDigit(b: byte) {
    0x30 <= b <= 0x39
  }

  predicate AllDigits(s: seq<byte>) {
    forall i :: 0 <= i < |s| ==> IsDigit(s[i])
  }

  function Decimal(n: nat): (s: seq<byte>)
    ensures s != [] && AllDigits(s)
  {
    if n < 10 then [(0x30 + n) as byte] else Decimal(n / 10) + [(0x30 + n % 10) as byte]
  }

  function DigitsValue(s: seq<byte>): nat
    requires AllDigits(s)
  {
    if s == [] then 0 else DigitsValue(s[..|s| - 1]) * 10 + (s[|s| - 1] - 0x30) as nat
  }

  /** `str::parse::<usize>` */
  function ParseUsize(s: seq<byte>): Option<nat> {
    var digits := if |s| > 1 && s[0] == PLUS then s[1..] else s;
    if digits == [] || !AllDigits(digits) then None
    else if USIZE_MAX < DigitsValue(digits) then None
    else Some(DigitsValue(digits))
  }

  lemma {:induction false} DecimalValue(n: nat)
    ensures DigitsValue(Decimal(n)) == n
  {
    if 10 <= n {
      DecimalValue(n / 10);
      assert Decimal(n)[..|Decimal(n)| - 1] == Decimal(n / 10);
    } else {
      assert Decimal(n)[..0] == [];
    }
  }

  lemma ParsePrinted(n: nat)
    ensures ParseUsize(Decimal(n)) == if n <= USIZE_MAX then Some(n) else None
  {
    DecimalValue(n);
    assert IsDigit(Decimal(n)[0]);
  }

  function Zeros(k: nat): (s: seq<byte>)
    ensures |s| == k && AllDigits(s)
  {
    if k == 0 then [] else Zeros(k - 1) + [0x30]
  }

  /** The digits of `n`, perhaps behind some zeros. */
  ghost predicate IsNumeral(s: seq<byte>, n: nat) {
    exists k: nat :: s == Zeros(k) + Decimal(n)
  }

  lemma {:induction false} ZerosAreNothing(k: nat, n: nat)
    ensures AllDigits(Zeros(k) + Decimal(n)) && DigitsValue(Zeros(k) + Decimal(n)) == n
    decreases n, k
  {
    var s := Zeros(k) + Decimal(n);
    if 10 <= n {
      ZerosAreNothing(k, n / 10);
      assert s[..|s| - 1] == Zeros(k) + Decimal(n / 10);
    } else if 0 < k {
      ZerosAreNothing(k - 1, 0);
      assert s[..|s| - 1] == Zeros(k - 1) + Decimal(0);
    } else {
      assert s[..|s| - 1] == [];
    }
  }

  /** Digits are a numeral of their value. */
  lemma {:induction false} DigitsAreNumeral(s: seq<byte>)
    requires s != [] && AllDigits(s)
    ensures IsNumeral(s, DigitsValue(s))
  {
    var front, last := s[..|s| - 1], s[|s| - 1];
    var v, d: nat := DigitsValue(front), (last - 0x30) as nat;
    assert s == front + [last];
    if front == [] {
      assert s == Zeros(0) + Decimal(d);
    } else {
      DigitsAreNumeral(front);
      OneDigitMore(front, v, last, d);
    }
  }

  lemma OneDigitMore(front: seq<byte>, v: nat, last: byte, d: nat)
    requires IsNumeral(front, v) && IsDigit(last) && d == (last - 0x30) as nat
    ensures IsNumeral(front + [last], v * 10 + d)
  {
    var k: nat :| front == Zeros(k) + Decimal(v);
    if v == 0 {
      var next := k + 1;
      assert Decimal(0) == [0x30];
      assert front == Zeros(next);
      assert front + [last] == Zeros(next) + Decimal(d);
    } else {
      var n := v * 10 + d;
      assert n / 10 == v && n % 10 == d;
      assert Decimal(n) == Decimal(v) + [last];
      Associative(Zeros(k), Decimal(v), [last]);
    }
  }

  /** What is parsed as a number is its digits, perhaps behind some zeros and a plus, and nothing else. */
  lemma ParseExact(s: seq<byte>, n: nat)
    ensures ParseUsize(s) == Some(n) <==>
            n < 0x1_0000_0000_0000_0000 && (IsNumeral(s, n) || (s != [] && s[0] == PLUS && IsNumeral(s[1..], n)))
  {
    var digits := if |s| > 1 && s[0] == PLUS then s[1..] else s;
    if digits != [] && AllDigits(digits) {
      DigitsAreNumeral(digits);
    }
    NumeralIsDigits(s, n);
    if s != [] {
      NumeralIsDigits(s[1..], n);
    }
  }

  lemma NumeralIsDigits(s: seq<byte>, n: nat)
    ensures IsNumeral(s, n) ==> s != [] && AllDigits(s) && DigitsValue(s) == n && IsDigit(s[0])
  {
    if IsNumeral(s, n) {
      var k: nat :| s == Zeros(k) + Decimal(n);
      ZerosAreNothing(k, n);
    }
  }

  // ---- white space ----

  predicate IsAsciiSpace(b: byte) {
    0x09 <= b <= 0x0D || b == 0x20
  }

  predicate IsSpace2(a: byte, b: byte) {
    a == 0xC2 && (b == 0x85 || b == 0xA0)
  }

  predicate IsSpace3(a: byte, b: byte, c: byte) {
    || (a == 0xE1 && b == 0x9A && c == 0x80)
    || (a == 0xE2 && b == 0x80 && (0x80 <= c <= 0x8A || c == 0xA8 || c == 0xA9 || c == 0xAF))
    || (a == 0xE2 && b == 0x81 && c == 0x9F)
    || (a == 0xE3 && b == 0x80 && c == 0x80)
  }

  /** `c` encodes one character with the Unicode property White_Space. */
  predicate IsSpaceChar(c: seq<byte>) {
    || (|c| == 1 && IsAsciiSpace(c[0]))
    || (|c| == 2 && IsSpace2(c[0], c[1]))
    || (|c| == 3 && IsSpace3(c[0], c[1], c[2]))
  }

  lemma SpaceCharsAreWhiteSpace(c: seq<byte>)
    ensures IsSpaceChar(c) <==> 0 < CharLen(c) == |c| && IsWhiteSpace(CodePoint(c))
  {
  }

  /** Length of the white-space character `s` ends with, or 0. */
  function SpaceAtEnd(s: seq<byte>): (n: nat)
    ensures n <= |s|
  {
    var e := |s|;
    if 1 <= e && IsAsciiSpace(s[e - 1]) then 1
    else if 2 <= e && IsSpace2(s[e - 2], s[e - 1]) then 2
    else if 3 <= e && IsSpace3(s[e - 3], s[e - 2], s[e - 1]) then 3
    else 0
  }

  /** Length of the white-space character `s` starts with, or 0. */
  function SpaceAtStart(s: seq<byte>): (n: nat)
    ensures n <= |s|
  {
    if 1 <= |s| && IsAsciiSpace(s[0]) then 1
    else if 2 <= |s| && IsSpace2(s[0], s[1]) then 2
    else if 3 <= |s| && IsSpace3(s[0], s[1], s[2]) then 3
    else 0
  }

  function TrimEnd(s: seq<byte>): (r: seq<byte>)
    ensures r <= s
    decreases |s|
  {
    if SpaceAtEnd(s) == 0 then s else TrimEnd(s[..|s| - SpaceAtEnd(s)])
  }

  function TrimStart(s: seq<byte>): (r: seq<byte>)
    ensures |r| <= |s|
    decreases |s|
  {
    if SpaceAtStart(s) == 0 then s else TrimStart(s[SpaceAtStart(s)..])
  }

  function Trim(s: seq<byte>): seq<byte> {
    TrimEnd(TrimStart(s))
  }

  function Flatten(cs: seq<seq<byte>>): seq<byte> {
    if cs == [] then [] else cs[0] + Flatten(cs[1..])
  }

  ghost predicate AllSpaces(cs: seq<seq<byte>>) {
    forall i :: 0 <= i < |cs| ==> IsSpaceChar(cs[i])
  }

  ghost predicate EndsInSpace(s: seq<byte>) {
    exists t, c :: IsSpaceChar(c) && s == t + c
  }

  ghost predicate StartsInSpace(s: seq<byte>) {
    exists c, t :: IsSpaceChar(c) && s == c + t
  }

  lemma SpaceAtEndIsFound(s: seq<byte>)
    ensures SpaceAtEnd(s) == 0 <==> !EndsInSpace(s)
  {
    var k := |s| - SpaceAtEnd(s);
    Cut(s, k);
    if SpaceAtEnd(s) != 0 {
      assert IsSpaceChar(s[k..]) && s == s[..k] + s[k..];
    }
    if EndsInSpace(s) {
      var t, c :| IsSpaceChar(c) && s == t + c;
      SpaceCharAtEnd(t, c);
    }
  }

  lemma SpaceAtStartIsFound(s: seq<byte>)
    ensures SpaceAtStart(s) == 0 <==> !StartsInSpace(s)
  {
    var k := SpaceAtStart(s);
    Cut(s, k);
    if k != 0 {
      assert IsSpaceChar(s[..k]) && s == s[..k] + s[k..];
    }
    if StartsInSpace(s) {
      var c, t :| IsSpaceChar(c) && s == c + t;
      SpaceCharAtStart(c, t);
    }
  }

  lemma StartsStill(s: seq<byte>, more: seq<byte>)
    ensures StartsInSpace(s) ==> StartsInSpace(s + more)
  {
    if StartsInSpace(s) {
      var c, t :| IsSpaceChar(c) && s == c + t;
      Associative(c, t, more);
    }
  }

  /** These characters, in front of or behind what is left, make up `s`. */
  ghost predicate IsTrimmed(s: seq<byte>, before: seq<seq<byte>>, left: seq<byte>, after: seq<seq<byte>>) {
    AllSpaces(before) && AllSpaces(after) && s == Flatten(before) + left + Flatten(after)
  }

  lemma TrimEndStep(s: seq<byte>) returns (front: seq<byte>, c: seq<byte>)
    requires SpaceAtEnd(s) != 0
    ensures s == front + c && IsSpaceChar(c) && |front| < |s| && TrimEnd(s) == TrimEnd(front)
  {
    var k := |s| - SpaceAtEnd(s);
    front, c := s[..k], s[k..];
    Cut(s, k);
  }

  lemma OneSpaceMore(s: seq<byte>, cs: seq<seq<byte>>, c: seq<byte>)
    requires AllSpaces(cs) && IsSpaceChar(c)
    ensures AllSpaces(cs + [c]) && s + Flatten(cs + [c]) == s + Flatten(cs) + c
  {
    FlattenLast(cs, c);
    Associative(s, Flatten(cs), c);
  }

  lemma {:induction false} TrimEndCuts(s: seq<byte>) returns (cs: seq<seq<byte>>)
    ensures AllSpaces(cs) && s == TrimEnd(s) + Flatten(cs)
    decreases |s|
  {
    if SpaceAtEnd(s) == 0 {
      cs := [];
    } else {
      var front, c := TrimEndStep(s);
      var more := TrimEndCuts(front);
      OneSpaceMore(TrimEnd(s), more, c);
      cs := more + [c];
    }
  }

  lemma TrimStartStep(s: seq<byte>) returns (c: seq<byte>, rest: seq<byte>)
    requires SpaceAtStart(s) != 0
    ensures s == c + rest && IsSpaceChar(c) && |rest| < |s| && TrimStart(s) == TrimStart(rest)
  {
    var k := SpaceAtStart(s);
    c, rest := s[..k], s[k..];
    Cut(s, k);
  }

  lemma OneSpaceBefore(s: seq<byte>, c: seq<byte>, cs: seq<seq<byte>>)
    requires AllSpaces(cs) && IsSpaceChar(c)
    ensures AllSpaces([c] + cs) && Flatten([c] + cs) + s == c + (Flatten(cs) + s)
  {
    HeadAndRest(c, cs);
    Associative(c, Flatten(cs), s);
  }

  lemma {:induction false} TrimStartCuts(s: seq<byte>) returns (cs: seq<seq<byte>>)
    ensures AllSpaces(cs) && s == Flatten(cs) + TrimStart(s)
    decreases |s|
  {
    if SpaceAtStart(s) == 0 {
      cs := [];
    } else {
      var c, rest := TrimStartStep(s);
      var more := TrimStartCuts(rest);
      OneSpaceBefore(TrimStart(s), c, more);
      cs := [c] + more;
    }
  }

  lemma {:induction false} TrimEndStops(s: seq<byte>)
    ensures !EndsInSpace(TrimEnd(s))
    decreases |s|
  {
    SpaceAtEndIsFound(s);
    if SpaceAtEnd(s) != 0 {
      TrimEndStops(s[..|s| - SpaceAtEnd(s)]);
    }
  }

  lemma {:induction false} TrimStartStops(s: seq<byte>)
    ensures !StartsInSpace(TrimStart(s))
    decreases |s|
  {
    SpaceAtStartIsFound(s);
    if SpaceAtStart(s) != 0 {
      TrimStartStops(s[SpaceAtStart(s)..]);
    }
  }

  /** Nothing but white space is cut off at either end, and none is left there. */
  lemma TrimExact(s: seq<byte>)
    ensures exists before, after :: IsTrimmed(s, before, Trim(s), after)
    ensures !EndsInSpace(Trim(s)) && !StartsInSpace(Trim(s))
  {
    var before := TrimStartCuts(s);
    var after := TrimEndCuts(TrimStart(s));
    assert IsTrimmed(s, before, Trim(s), after) by {
      Associative(Flatten(before), Trim(s), Flatten(after));
    }
    TrimEndStops(TrimStart(s));
    TrimStartStops(s);
    StartsStill(Trim(s), Flatten(after));
  }

  lemma SpaceCharAtEnd(s: seq<byte>, c: seq<byte>)
    requires IsSpaceChar(c)
    ensures SpaceAtEnd(s + c) == |c|
  {
  }

  lemma {:induction false} FlattenLast(cs: seq<seq<byte>>, c: seq<byte>)
    ensures Flatten(cs + [c]) == Flatten(cs) + c
  {
    if cs == [] {
      assert cs + [c] == [c];
    } else {
      assert (cs + [c])[1..] == cs[1..] + [c];
      FlattenLast(cs[1..], c);
    }
  }

  /** Trailing white space does not survive. */
  lemma {:induction false} TrimEndDropsSpaces(s: seq<byte>, cs: seq<seq<byte>>)
    requires AllSpaces(cs)
    ensures TrimEnd(s + Flatten(cs)) == TrimEnd(s)
    decreases |cs|
  {
    if cs == [] {
      assert s + Flatten(cs) == s;
    } else {
      var front, c := cs[..|cs| - 1], cs[|cs| - 1];
      assert cs == front + [c];
      FlattenLast(front, c);
      assert s + Flatten(cs) == s + Flatten(front) + c;
      SpaceCharAtEnd(s + Flatten(front), c);
      assert (s + Flatten(front) + c)[..|s + Flatten(front)|] == s + Flatten(front);
      TrimEndDropsSpaces(s, front);
    }
  }

  lemma SpaceCharAtStart(c: seq<byte>, s: seq<byte>)
    requires IsSpaceChar(c)
    ensures SpaceAtStart(c + s) == |c|
  {
  }

  /** Leading white space does not survive. */
  lemma {:induction false} TrimStartDropsSpaces(cs: seq<seq<byte>>, s: seq<byte>)
    requires AllSpaces(cs)
    ensures TrimStart(Flatten(cs) + s) == TrimStart(s)
  {
    if cs == [] {
      assert Flatten(cs) + s == s;
    } else {
      var rest := Flatten(cs[1..]) + s;
      assert Flatten(cs) + s == cs[0] + rest;
      SpaceCharAtStart(cs[0], rest);
      assert (cs[0] + rest)[|cs[0]|..] == rest;
      TrimStartDropsSpaces(cs[1..], s);
    }
  }

  // ---- header lines ----

  function Lower(b: byte): byte {
    if 0x41 <= b <= 0x5A then b + 0x20 else b
  }

  predicate EqIgnoreAsciiCase(a: seq<byte>, b: seq<byte>) {
    |a| == |b| && forall i :: 0 <= i < |a| ==> Lower(a[i]) == Lower(b[i])
  }

  predicate IsContentLength(line: seq<byte>) {
    var colon := FindByte(line, COLON, 0);
    colon < |line| && EqIgnoreAsciiCase(line[..colon], CONTENT_LENGTH)
  }

  /** The header's name, as the protocol spells it. */
  const HEADER_NAME := "Content-Length"

  predicate IsLetter(code: int) {
    0x41 <= code <= 0x5A || 0x61 <= code <= 0x7A
  }

  /** The same letter in either case, or the same. */
  predicate SameButCase(a: int, b: int) {
    a == b || (IsLetter(a) && IsLetter(b) && (a == b + 0x20 || b == a + 0x20))
  }

  /** `name` spells the header's name, in whatever case each letter is. */
  predicate IsSpelling(name: seq<byte>) {
    |name| == |HEADER_NAME| && forall i :: 0 <= i < |name| ==> SameButCase(name[i] as int, HEADER_NAME[i] as int)
  }

  /** The line has a name that spells it, and a colon. */
  ghost predicate SaysLength(line: seq<byte>) {
    exists k :: 0 <= k < |line| && line[k] == COLON && COLON !in line[..k] && IsSpelling(line[..k])
  }

  /** The bytes of the name. */
  lemma NameInBytes()
    ensures |CONTENT_LENGTH| == |HEADER_NAME|
    ensures forall i :: 0 <= i < |CONTENT_LENGTH| ==> CONTENT_LENGTH[i] as int == HEADER_NAME[i] as int
  {
  }

  lemma LowerIsSameButCase(a: byte, b: byte)
    ensures Lower(a) == Lower(b) <==> SameButCase(a as int, b as int)
  {
  }

  /** Exactly its spellings are taken for the name. */
  lemma SpellingsAreRead(name: seq<byte>)
    ensures EqIgnoreAsciiCase(name, CONTENT_LENGTH) <==> IsSpelling(name)
  {
    NameInBytes();
    if |name| == |CONTENT_LENGTH| {
      forall i | 0 <= i < |name|
        ensures Lower(name[i]) == Lower(CONTENT_LENGTH[i]) <==> SameButCase(name[i] as int, HEADER_NAME[i] as int)
      {
        LowerIsSameButCase(name[i], CONTENT_LENGTH[i]);
      }
    }
  }

  /** And exactly the lines with such a name for Content-Length lines. */
  lemma LengthLinesAreRead(line: seq<byte>)
    ensures IsContentLength(line) <==> SaysLength(line)
  {
    var colon := FindByte(line, COLON, 0);
    if colon < |line| {
      SpellingsAreRead(line[..colon]);
    }
    forall k | colon < k < |line|
      ensures COLON in line[..k]
    {
      assert line[..k][colon] == COLON;
    }
  }

  /** The length in force after one more header line; the last Content-Length wins, usable or not. */
  function LengthAfter(len: Option<nat>, line: seq<byte>): Option<nat> {
    if IsContentLength(line)
    then ParseUsize(Trim(line[FindByte(line, COLON, 0) + 1..]))
    else len
  }

  /** Bytes up to and including the next LF, or all that is left. */
  function LineLen(s: seq<byte>): (n: nat)
    ensures n <= |s| && (s != [] ==> 0 < n)
  {
    var n := FindByte(s, LF, 0);
    if n < |s| then n + 1 else n
  }

  datatype HeaderBlock =
    | NoMoreInput
    | NotText
    | Headers(len: Option<nat>, rest: seq<byte>)

  /** Header lines up to and including the first that is blank. */
  function ReadHeaders(input: seq<byte>, len: Option<nat>): (r: HeaderBlock)
    ensures r.Headers? ==> |r.rest| < |input|
    decreases |input|
  {
    if input == [] then NoMoreInput
    else
      var line, rest := input[..LineLen(input)], input[LineLen(input)..];
      if !Valid(line) then NotText
      else if TrimEnd(line) == [] then Headers(len, rest)
      else ReadHeaders(rest, LengthAfter(len, TrimEnd(line)))
  }

  lemma HeadersStep(input: seq<byte>, len: Option<nat>, n: nat)
    requires input != [] && n == LineLen(input) && Valid(input[..n])
    ensures ReadHeaders(input, len)
         == if TrimEnd(input[..n]) == [] then Headers(len, input[n..])
            else ReadHeaders(input[n..], LengthAfter(len, TrimEnd(input[..n])))
  {
  }

  datatype FrameOutcome =
    | Frame(body: seq<byte>, rest: seq<byte>)
    | EndOfInput
    | Failed

  /** What the next frame of a stream is. */
  function ReadFrame(input: seq<byte>): (r: FrameOutcome)
    ensures r.Frame? ==> |r.rest| < |input|
  {
    match ReadHeaders(input, None)
    case NoMoreInput => EndOfInput
    case NotText => Failed
    case Headers(len, rest) =>
      if len.None? || MAX_FRAME_BYTES < len.value || |rest| < len.value then Failed
      else Frame(rest[..len.value], rest[len.value..])
  }

  // ---- the reader ----

  class Buffer {
    var bytes: seq<byte>

    constructor ()
      ensures bytes == []
    {
      bytes := [];
    }
  }

  class FrameReader {
    /** What is left of the stream. */
    var inner: seq<byte>
    var header: seq<byte>

    constructor (inner: seq<byte>)
      ensures this.inner == inner
    {
      this.inner := inner;
      header := [];
    }

    /** `BufRead::read_line`, appending to `header`: fails on a line that is not text. */
    method ReadLine() returns (r: Attempt<nat, ()>)
      modifies this
      ensures var n := LineLen(old(inner));
              && inner == old(inner)[n..]
              && (if Valid(old(inner)[..n])
                  then r == Ok(n) && header == old(header) + old(inner)[..n]
                  else r.Err?)
    {
      var n := LineLen(inner);
      var line := inner[..n];
      inner := inner[n..];
      if !Valid(line) {
        return Err(());
      }
      header := header + line;
      return Ok(n);
    }

    /** Read header lines up to the blank one; `more` is false at the end of the input. */
    method NextHeaders() returns (ok: bool, more: bool, len: Option<nat>)
      modifies this
      ensures match ReadHeaders(old(inner), None)
              case NoMoreInput => ok && !more && inner == []
              case NotText => !ok
              case Headers(l, rest) => ok && more && len == l && inner == rest
    {
      len := None;
      while true
        invariant ReadHeaders(inner, len) == ReadHeaders(old(inner), None)
        decreases |inner|
      {
        header := [];
        ghost var was := inner;
        var read := ReadLine();
        if read.Err? {
          return false, false, None;
        }
        if read.value == 0 {
          return true, false, None;
        }
        assert header == was[..read.value];
        HeadersStep(was, len, read.value);
        var line := TrimEnd(header);
        if line == [] {
          return true, true, len;
        }
        len := LengthAfter(len, line);
      }
    }

    /** `ReadFrame`, with the body left in the caller's buffer. */
    method NextFrame(body: Buffer) returns (r: Attempt<bool, ()>)
      modifies this, body
      ensures match ReadFrame(old(inner))
              case Frame(b, rest) => r == Ok(true) && body.bytes == b && inner == rest
              case EndOfInput => r == Ok(false) && body.bytes == old(body.bytes) && inner == []
              case Failed => r.Err?
    {
      var ok, more, len := NextHeaders();
      if !ok {
        return Err(());
      }
      if !more {
        return Ok(false);
      }
      if len.None? || MAX_FRAME_BYTES < len.value {
        return Err(());
      }
      body.bytes := [];
      if |inner| < len.value {
        return Err(());
      }
      body.bytes := inner[..len.value];
      inner := inner[len.value..];
      return Ok(true);
    }
  }

  const FRAME_END: seq<byte> := [CR, LF, CR, LF]

  function Framed(body: seq<byte>): seq<byte> {
    CONTENT_LENGTH + [COLON, SPACE] + Decimal(|body|) + FRAME_END + body
  }

  // ---- progress ----

  /** Reading headers takes whole lines off the front of the stream. */
  lemma {:induction false} HeadersConsume(input: seq<byte>, len: Option<nat>) returns (k: nat)
    requires ReadHeaders(input, len).Headers?
    ensures 0 < k <= |input| && ReadHeaders(input, len).rest == input[k..]
    decreases |input|
  {
    var n := LineLen(input);
    var line := TrimEnd(input[..n]);
    if line == [] {
      k := n;
    } else {
      var j := HeadersConsume(input[n..], LengthAfter(len, line));
      k := n + j;
      DropDrop(input, n, j, k);
    }
  }

  /** A frame read consumes its header block and exactly the declared body, and never nothing. */
  lemma FrameConsumes(input: seq<byte>) returns (k: nat, n: nat)
    requires ReadFrame(input).Frame?
    ensures 0 < k <= k + n <= |input| && n <= MAX_FRAME_BYTES
    ensures ReadHeaders(input, None) == Headers(Some(n), input[k..])
    ensures ReadFrame(input) == Frame(input[k..k + n], input[k + n..])
  {
    k := HeadersConsume(input, None);
    n := ReadHeaders(input, None).len.value;
    DropDrop(input, k, n, k + n);
    TakeDrop(input, k, k + n);
  }

  // ---- reading back what was written ----

  /** A line is a header line when it is text, holds no LF and is not blank. */
  ghost predicate IsHeaderLine(line: seq<byte>) {
    Valid(line + [LF]) && LF !in line && TrimEnd(line) != []
  }

  ghost predicate IsBlankLine(line: seq<byte>) {
    Valid(line + [LF]) && LF !in line && TrimEnd(line) == []
  }

  /** Lines, each with its LF. */
  function Terminated(lines: seq<seq<byte>>): seq<byte> {
    if lines == [] then [] else lines[0] + [LF] + Terminated(lines[1..])
  }

  /** The length in force after a block of lines. */
  ghost function LengthAfterAll(len: Option<nat>, lines: seq<seq<byte>>): Option<nat>
    decreases |lines|
  {
    if lines == [] then len else LengthAfterAll(LengthAfter(len, TrimEnd(lines[0])), lines[1..])
  }

  lemma TrimTerminated(line: seq<byte>)
    ensures TrimEnd(line + [LF]) == TrimEnd(line)
  {
    assert Flatten([[LF]]) == [LF] by { assert [[LF]][1..] == []; }
    TrimEndDropsSpaces(line, [[LF]]);
  }

  lemma FirstLineOf(line: seq<byte>, rest: seq<byte>)
    requires LF !in line
    ensures var input := line + [LF] + rest;
            && LineLen(input) == |line| + 1
            && input[..|line| + 1] == line + [LF] && input[|line| + 1..] == rest
  {
    var input := line + [LF] + rest;
    assert input[|line|] == LF;
    assert forall k :: 0 <= k < |line| ==> input[k] == line[k];
  }

  /** Any block of header lines and a blank line is read to its end, and only its lengths matter. */
  lemma {:induction false} ReadBlock(lines: seq<seq<byte>>, blank: seq<byte>, rest: seq<byte>, len: Option<nat>)
    requires forall i :: 0 <= i < |lines| ==> IsHeaderLine(lines[i])
    requires IsBlankLine(blank)
    ensures ReadHeaders(Terminated(lines) + (blank + [LF] + rest), len) == Headers(LengthAfterAll(len, lines), rest)
    decreases |lines|
  {
    if lines == [] {
      assert Terminated(lines) + (blank + [LF] + rest) == blank + [LF] + rest;
      FirstLineOf(blank, rest);
      TrimTerminated(blank);
    } else {
      var after := Terminated(lines[1..]) + (blank + [LF] + rest);
      assert Terminated(lines) + (blank + [LF] + rest) == lines[0] + [LF] + after;
      FirstLineOf(lines[0], after);
      TrimTerminated(lines[0]);
      ReadBlock(lines[1..], blank, rest, LengthAfter(len, TrimEnd(lines[0])));
    }
  }

  lemma {:induction false} OtherLinesIgnored(len: Option<nat>, lines: seq<seq<byte>>)
    requires forall i :: 0 <= i < |lines| ==> !IsContentLength(TrimEnd(lines[i]))
    ensures LengthAfterAll(len, lines) == len
    decreases |lines|
  {
    if lines != [] {
      OtherLinesIgnored(len, lines[1..]);
    }
  }

  lemma NoneIsContentLength(lines: seq<seq<byte>>)
    requires forall i :: 0 <= i < |lines| ==> !SaysLength(TrimEnd(lines[i]))
    ensures forall i :: 0 <= i < |lines| ==> !IsContentLength(TrimEnd(lines[i]))
  {
    forall i | 0 <= i < |lines|
      ensures !IsContentLength(TrimEnd(lines[i]))
    {
      LengthLinesAreRead(TrimEnd(lines[i]));
    }
  }

  /** Lines other than Content-Length leave the length alone. */
  lemma OtherHeadersIgnored(len: Option<nat>, lines: seq<seq<byte>>)
    requires forall i :: 0 <= i < |lines| ==> !SaysLength(TrimEnd(lines[i]))
    ensures LengthAfterAll(len, lines) == len
  {
    NoneIsContentLength(lines);
    OtherLinesIgnored(len, lines);
  }

  lemma NumberHasNoSpaces(v: seq<byte>)
    requires ParseUsize(v).Some?
    ensures v != [] && IsDigit(v[|v| - 1])
    ensures SpaceAtStart(v) == 0
  {
    if |v| > 1 && v[0] == PLUS {
      assert v[1..][|v| - 2] == v[|v| - 1];
    }
  }

  lemma DigitEndsLine(s: seq<byte>, v: seq<byte>)
    requires v != [] && IsDigit(v[|v| - 1])
    ensures TrimEnd(s + v) == s + v && s + v != []
  {
    assert (s + v)[|s + v| - 1] == v[|v| - 1];
  }

  /** A Content-Length line in any case, with any white space around its value, says its value. */
  lemma ContentLengthLine(
    name: seq<byte>, before: seq<seq<byte>>, v: seq<byte>, after: seq<seq<byte>>, len: Option<nat>)
    requires IsSpelling(name)
    requires AllSpaces(before) && AllSpaces(after)
    requires v != [] && IsDigit(v[|v| - 1]) && SpaceAtStart(v) == 0
    ensures var line := name + [COLON] + Flatten(before) + v + Flatten(after);
            && SaysLength(TrimEnd(line)) && TrimEnd(line) != []
            && LengthAfter(len, TrimEnd(line)) == ParseUsize(v)
  {
    var value := Flatten(before) + v;
    TrimmedLine(name + [COLON], Flatten(before), v, after);
    assert Trim(value) == v by {
      TrimStartDropsSpaces(before, v);
      DigitEndsLine([], v);
      assert [] + v == v;
    }
    NameEndsAtColon(name, value);
    SpellingsAreRead(name);
    LengthLinesAreRead(name + [COLON] + value);
  }

  lemma TrimmedLine(start: seq<byte>, spaces: seq<byte>, v: seq<byte>, after: seq<seq<byte>>)
    requires AllSpaces(after) && v != [] && IsDigit(v[|v| - 1])
    ensures TrimEnd(start + spaces + v + Flatten(after)) == start + (spaces + v) != []
  {
    assert start + spaces + v == start + (spaces + v);
    TrimEndDropsSpaces(start + spaces + v, after);
    DigitEndsLine(start + spaces, v);
  }

  lemma SpellingHasNoColon(name: seq<byte>)
    requires IsSpelling(name)
    ensures COLON !in name
  {
  }

  lemma NameEndsAtColon(name: seq<byte>, value: seq<byte>)
    requires IsSpelling(name)
    ensures var line := name + [COLON] + value;
            && FindByte(line, COLON, 0) == |name|
            && line[..|name|] == name && line[|name| + 1..] == value
  {
    var line := name + [COLON] + value;
    SpellingHasNoColon(name);
    assert line[|name|] == COLON;
  }

  lemma {:induction false} OneLengthLine(
    first: seq<seq<byte>>, line: seq<byte>, last: seq<seq<byte>>, len: Option<nat>, acc: Option<nat>)
    requires forall i :: 0 <= i < |first| ==> !IsContentLength(TrimEnd(first[i]))
    requires forall i :: 0 <= i < |last| ==> !IsContentLength(TrimEnd(last[i]))
    requires LengthAfter(acc, TrimEnd(line)) == len
    ensures LengthAfterAll(acc, first + ([line] + last)) == len
    decreases |first|
  {
    var tail := [line] + last;
    if first == [] {
      assert first + tail == tail;
      assert tail[1..] == last;
      OtherLinesIgnored(len, last);
    } else {
      assert (first + tail)[1..] == first[1..] + tail;
      OneLengthLine(first[1..], line, last, len, acc);
    }
  }

  /**
    * A block with one Content-Length line reads as the declared bytes, whatever the case
    * of the name, the white space around the value, and the other headers.
    */
  lemma BodyDependsOnLengthOnly(
    first: seq<seq<byte>>, name: seq<byte>, before: seq<seq<byte>>, v: seq<byte>, after: seq<seq<byte>>,
    last: seq<seq<byte>>, lines: seq<seq<byte>>, blank: seq<byte>, body: seq<byte>, rest: seq<byte>)
    requires IsSpelling(name)
    requires AllSpaces(before) && AllSpaces(after)
    requires ParseUsize(v) == Some(|body|) && |body| <= MAX_FRAME_BYTES
    requires forall i :: 0 <= i < |first| ==> !SaysLength(TrimEnd(first[i]))
    requires forall i :: 0 <= i < |last| ==> !SaysLength(TrimEnd(last[i]))
    requires lines == first + ([name + [COLON] + Flatten(before) + v + Flatten(after)] + last)
    requires forall i :: 0 <= i < |lines| ==> IsHeaderLine(lines[i])
    requires IsBlankLine(blank)
    ensures ReadFrame(Terminated(lines) + (blank + [LF] + (body + rest))) == Frame(body, rest)
  {
    assert LengthAfterAll(None, lines) == Some(|body|) by {
      NumberHasNoSpaces(v);
      NoneIsContentLength(first);
      NoneIsContentLength(last);
      ContentLengthLine(name, before, v, after, None);
      OneLengthLine(first, name + [COLON] + Flatten(before) + v + Flatten(after), last, Some(|body|), None);
    }
    ReadBlock(lines, blank, body + rest, None);
    assert (body + rest)[..|body|] == body && (body + rest)[|body|..] == rest;
  }

  // ---- the round trip ----

  /** The header line a writer writes, without its LF. */
  function LengthLine(name: seq<byte>, n: nat): seq<byte> {
    name + [COLON] + [SPACE] + Decimal(n) + [CR]
  }

  lemma OneChar(b: byte)
    ensures Flatten([[b]]) == [b]
  {
    assert [[b]][1..] == [];
  }

  lemma LengthLineSays(name: seq<byte>, n: nat)
    requires IsSpelling(name)
    ensures TrimEnd(LengthLine(name, n)) != []
    ensures LengthAfter(None, TrimEnd(LengthLine(name, n))) == ParseUsize(Decimal(n))
  {
    OneChar(SPACE);
    OneChar(CR);
    assert SpaceAtStart(Decimal(n)) == 0 by { assert IsDigit(Decimal(n)[0]); }
    ContentLengthLine(name, [[SPACE]], Decimal(n), [[CR]], None);
  }

  lemma LengthLineIsAscii(name: seq<byte>, n: nat)
    requires forall i :: 0 <= i < |name| ==> name[i] <= 0x7F && name[i] != LF
    ensures Valid(LengthLine(name, n) + [LF]) && LF !in LengthLine(name, n)
  {
    var line := LengthLine(name, n);
    forall i | 0 <= i < |line|
      ensures line[i] <= 0x7F && line[i] != LF
    {
      if |name| + 2 <= i < |line| - 1 {
        assert line[i] == Decimal(n)[i - (|name| + 2)];
        assert IsDigit(line[i]);
      }
    }
    AsciiIsValid(line + [LF]);
  }

  lemma LengthLineIsHeader(name: seq<byte>, n: nat)
    requires IsSpelling(name)
    requires forall i :: 0 <= i < |name| ==> name[i] <= 0x7F && name[i] != LF
    ensures IsHeaderLine(LengthLine(name, n))
  {
    LengthLineSays(name, n);
    LengthLineIsAscii(name, n);
  }

  lemma CrIsBlank()
    ensures IsBlankLine([CR])
  {
    AsciiIsValid([CR] + [LF]);
    assert [CR][..0] == [];
  }

  lemma BlockOfOne(line: seq<byte>, len: Option<nat>, rest: seq<byte>)
    requires IsHeaderLine(line) && LengthAfter(None, TrimEnd(line)) == len
    ensures ReadHeaders(line + [LF] + ([CR] + [LF] + rest), None) == Headers(len, rest)
  {
    CrIsBlank();
    ReadBlock([line], [CR], rest, None);
    assert [line][1..] == [];
    assert Terminated([line]) == line + [LF];
    assert LengthAfterAll(None, [line]) == len;
  }

  lemma FramedShape(body: seq<byte>, rest: seq<byte>)
    ensures Framed(body) + rest == LengthLine(CONTENT_LENGTH, |body|) + [LF] + ([CR] + [LF] + (body + rest))
  {
  }

  lemma ContentLengthIsAscii()
    ensures IsSpelling(CONTENT_LENGTH)
    ensures forall i :: 0 <= i < |CONTENT_LENGTH| ==> CONTENT_LENGTH[i] <= 0x7F && CONTENT_LENGTH[i] != LF
  {
    NameInBytes();
  }

  lemma FramedHeaders(body: seq<byte>, rest: seq<byte>)
    ensures ReadHeaders(Framed(body) + rest, None) == Headers(ParseUsize(Decimal(|body|)), body + rest)
  {
    ContentLengthIsAscii();
    var line := LengthLine(CONTENT_LENGTH, |body|);
    LengthLineSays(CONTENT_LENGTH, |body|);
    LengthLineIsHeader(CONTENT_LENGTH, |body|);
    BlockOfOne(line, ParseUsize(Decimal(|body|)), body + rest);
    FramedShape(body, rest);
  }

  /** A written frame reads back, leaving what follows it, exactly when it is within the reader's cap. */
  lemma FramedReadsBack(body: seq<byte>, rest: seq<byte>)
    ensures ReadFrame(Framed(body) + rest) == Frame(body, rest) <==> |body| <= 64 * 1024 * 1024
    ensures 64 * 1024 * 1024 < |body| ==> ReadFrame(Framed(body) + rest) == Failed
  {
    FramedHeaders(body, rest);
    ParsePrinted(|body|);
    assert (body + rest)[..|body|] == body && (body + rest)[|body|..] == rest;
  }

  /** What a writer wrote after writing these bodies in order. */
  function Written(bodies: seq<seq<byte>>): seq<byte> {
    Flatten(Frames(bodies))
  }

  function Frames(bodies: seq<seq<byte>>): (frames: seq<seq<byte>>)
    ensures |frames| == |bodies|
    ensures forall i :: 0 <= i < |bodies| ==> frames[i] == Framed(bodies[i])
  {
    seq(|bodies|, i requires 0 <= i < |bodies| => Framed(bodies[i]))
  }

  /** All frames of a stream, and whether it ended cleanly. */
  function ReadAll(input: seq<byte>): (r: (seq<seq<byte>>, bool))
    decreases |input|
  {
    match ReadFrame(input)
    case EndOfInput => ([], true)
    case Failed => ([], false)
    case Frame(body, rest) => ([body] + ReadAll(rest).0, ReadAll(rest).1)
  }

  /** Whatever follows it, `frame` is read as `body`. */
  ghost predicate Reads(frame: seq<byte>, body: seq<byte>) {
    forall tail :: ReadFrame(frame + tail) == Frame(body, tail)
  }

  lemma {:induction false} FramesReadBack(frames: seq<seq<byte>>, bodies: seq<seq<byte>>)
    requires |frames| == |bodies|
    requires forall i :: 0 <= i < |frames| ==> Reads(frames[i], bodies[i])
    ensures ReadAll(Flatten(frames)) == (bodies, true)
    decreases |frames|
  {
    if frames != [] {
      var tail := Flatten(frames[1..]);
      FramesReadBack(frames[1..], bodies[1..]);
      assert Reads(frames[0], bodies[0]);
      assert ReadFrame(frames[0] + tail) == Frame(bodies[0], tail);
      assert bodies == [bodies[0]] + bodies[1..];
    } else {
      assert bodies == [] && ReadFrame(Flatten(frames)) == EndOfInput;
    }
  }

  /** Reading what was written yields the bodies in order, then the end of the input. */
  lemma StreamRoundTrip(bodies: seq<seq<byte>>)
    requires forall i :: 0 <= i < |bodies| ==> |bodies[i]| <= MAX_FRAME_BYTES
    ensures ReadAll(Written(bodies)) == (bodies, true)
  {
    forall i | 0 <= i < |bodies|
      ensures Reads(Frames(bodies)[i], bodies[i])
    {
      forall tail
        ensures ReadFrame(Framed(bodies[i]) + tail) == Frame(bodies[i], tail)
      {
        FramedReadsBack(bodies[i], tail);
      }
    }
    FramesReadBack(Frames(bodies), bodies);
  }

  /** So no two lists of bodies are written alike. */
  lemma UniquelyDecodable(a: seq<seq<byte>>, b: seq<seq<byte>>)
    requires forall i :: 0 <= i < |a| ==> |a[i]| <= MAX_FRAME_BYTES
    requires forall i :: 0 <= i < |b| ==> |b[i]| <= MAX_FRAME_BYTES
    requires Written(a) == Written(b)
    ensures a == b
  {
    StreamRoundTrip(a);
    StreamRoundTrip(b);
  }

  class FrameWriter {
    var output: seq<byte>
    /** The bodies written so far, oldest first, and the frames they went out as. */
    ghost var bodies: seq<seq<byte>>
    ghost var frames: seq<seq<byte>>

    ghost predicate Valid()
      reads this
    {
      && output == Flatten(frames)
      && |frames| == |bodies|
      && forall i :: 0 <= i < |frames| ==> frames[i] == Framed(bodies[i])
    }

    constructor ()
      ensures Valid() && bodies == []
    {
      output, bodies, frames := [], [], [];
    }

    lemma OutputIsWritten()
      requires Valid()
      ensures output == Written(bodies)
    {
      assert frames == Frames(bodies);
    }

    /** Whoever reads the output gets the bodies back, as long as none is too long to be read. */
    lemma OutputReadsBack()
      requires Valid() && forall i :: 0 <= i < |bodies| ==> |bodies[i]| <= MAX_FRAME_BYTES
      ensures ReadAll(output) == (bodies, true)
    {
      OutputIsWritten();
      StreamRoundTrip(bodies);
    }

    method WriteFrame(body: seq<byte>)
      requires Valid()
      modifies this
      ensures Valid() && bodies == old(bodies) + [body]
      ensures output == old(output) + Framed(body)
    {
      FlattenLast(frames, Framed(body));
      output := output + CONTENT_LENGTH + [COLON, SPACE] + Decimal(|body|) + FRAME_END;
      output := output + body;
      bodies, frames := bodies + [body], frames + [Framed(body)];
    }
  }
}
