/**
  * JSON as text: enough of a scanner to take the members of an object apart without decoding
  * them, and a writer of objects that it inverts (RFC 8259, sections 2 to 7).
  */
module JsonText {
  import opened Prelude
  import opened Utf8
  import opened Framing
  import opened JsonRpc

  const QUOTE: byte := 0x22
  const COMMA: byte := 0x2C
  const MINUS: byte := 0x2D
  const BACKSLASH: byte := 0x5C
  const OPENING: set<byte> := {0x5B, 0x7B}
  const CLOSING: set<byte> := {0x5D, 0x7D}
  const LBRACE: byte := 0x7B
  const RBRACE: byte := 0x7D

  // ---- scanning ----

  /** Where a scan stands: how many brackets are open, and whether it is inside a string. */
  datatype Scan = Scan(depth: nat, quoted: bool, escaped: bool) {
    function Deeper(): Scan {
      this.(depth := depth + 1)
    }
  }

  const OUTSIDE := Scan(0, false, false)
  const INSIDE_STRING := Scan(0, true, false)

  function After(at: Scan, b: byte): Scan {
    if at.escaped then at.(escaped := false)
    else if at.quoted then
      if b == BACKSLASH then at.(escaped := true) else if b == QUOTE then at.(quoted := false) else at
    else if b == QUOTE then at.(quoted := true)
    else if b in OPENING then at.(depth := at.depth + 1)
    else if b in CLOSING && 0 < at.depth then at.(depth := at.depth - 1)
    else at
  }

  /** Outside of everything, these end a value. */
  predicate Stops(at: Scan, b: byte) {
    at == OUTSIDE && (b == COMMA || b == COLON || b in CLOSING)
  }

  /** The text takes the scan from one place to another, with nothing in it that would end a value. */
  predicate Passes(s: Json, from: Scan, to: Scan) {
    if s == [] then from == to else !Stops(from, s[0]) && Passes(s[1..], After(from, s[0]), to)
  }

  /** The text is one value, as far as brackets and strings tell. */
  predicate IsValue(s: Json) {
    s != [] && Passes(s, OUTSIDE, OUTSIDE)
  }

  /** The length of the value that `s` starts with. */
  function ValueLen(s: Json, at: Scan): (n: nat)
    ensures n <= |s|
  {
    if s == [] || Stops(at, s[0]) then 0 else 1 + ValueLen(s[1..], After(at, s[0]))
  }

  lemma {:induction false} ValueEnds(v: Json, rest: Json, at: Scan)
    requires Passes(v, at, OUTSIDE) && (rest == [] || Stops(OUTSIDE, rest[0]))
    ensures ValueLen(v + rest, at) == |v|
  {
    if v == [] {
      assert v + rest == rest;
    } else {
      assert (v + rest)[1..] == v[1..] + rest;
      ValueEnds(v[1..], rest, After(at, v[0]));
    }
  }

  lemma {:induction false} PassesBoth(a: Json, b: Json, from: Scan, via: Scan, to: Scan)
    requires Passes(a, from, via) && Passes(b, via, to)
    ensures Passes(a + b, from, to)
  {
    if a == [] {
      assert a + b == b;
    } else {
      assert (a + b)[1..] == a[1..] + b;
      PassesBoth(a[1..], b, After(from, a[0]), via, to);
    }
  }

  lemma PassesOne(b: byte, from: Scan)
    requires !Stops(from, b)
    ensures Passes([b], from, After(from, b))
  {
    assert [b][1..] == [];
  }

  /** A value is one inside brackets, too. */
  lemma {:induction false} PassesDeeper(s: Json, from: Scan, to: Scan)
    requires Passes(s, from, to)
    requires from.escaped ==> from.quoted
    ensures Passes(s, from.Deeper(), to.Deeper())
  {
    if s != [] {
      PassesDeeper(s[1..], After(from, s[0]), to);
    }
  }

  // ---- objects ----

  /** A name, with its quotes, and a value. */
  type Member = (Json, Json)

  /** The member `s` starts with, and what comes after it. */
  function FirstMember(s: Json): (r: Option<(Member, Json)>)
    ensures r.Some? ==> |r.value.1| < |s|
  {
    var k := ValueLen(s, OUTSIDE);
    if k == |s| || s[k] != COLON then None
    else
      var rest := s[k + 1..];
      var n := ValueLen(rest, OUTSIDE);
      Some(((s[..k], rest[..n]), rest[n..]))
  }

  /** The members of an object whose brace is open. */
  function MembersOf(s: Json): Option<seq<Member>>
    decreases |s|
  {
    match FirstMember(s)
    case None => None
    case Some((first, after)) =>
      if after == [RBRACE] then Some([first])
      else if after == [] || after[0] != COMMA then None
      else
        match MembersOf(after[1..])
        case None => None
        case Some(more) => Some([first] + more)
  }

  function Lookup(members: seq<Member>, name: Json): Option<Json> {
    if members == [] then None
    else if members[0].0 == name then Some(members[0].1)
    else Lookup(members[1..], name)
  }

  /** What an object's text holds under a name. */
  function MemberOf(s: Json, name: Json): Option<Json> {
    if s == [] || s[0] != LBRACE then None
    else
      match MembersOf(s[1..])
      case None => None
      case Some(members) => Lookup(members, name)
  }

  function Joined(members: seq<Member>): Json
    requires members != []
  {
    members[0].0 + [COLON] + members[0].1 + if |members| == 1 then [] else [COMMA] + Joined(members[1..])
  }

  /** An object's text. */
  function ObjectOf(members: seq<Member>): Json
    requires members != []
  {
    [LBRACE] + Joined(members) + [RBRACE]
  }

  predicate AreValues(members: seq<Member>) {
    forall i :: 0 <= i < |members| ==> IsValue(members[i].0) && IsValue(members[i].1)
  }

  lemma FirstMemberReads(name: Json, value: Json, after: Json)
    requires IsValue(name) && IsValue(value) && after != [] && Stops(OUTSIDE, after[0])
    ensures FirstMember(name + [COLON] + value + after) == Some(((name, value), after))
  {
    var s, rest := name + [COLON] + value + after, value + after;
    assert s == name + ([COLON] + rest);
    ValueEnds(name, [COLON] + rest, OUTSIDE);
    ValueEnds(value, after, OUTSIDE);
    assert s[|name| + 1..] == rest;
  }

  lemma LastMember(s: Json, first: Member)
    requires FirstMember(s) == Some((first, [RBRACE]))
    ensures MembersOf(s) == Some([first])
  {
  }

  lemma NextMember(s: Json, first: Member, after: Json, rest: Json, more: seq<Member>)
    requires FirstMember(s) == Some((first, after)) && MembersOf(rest) == Some(more)
    requires after != [] && after[0] == COMMA && after[1..] == rest
    ensures MembersOf(s) == Some([first] + more)
  {
  }

  lemma FirstAndOthers(members: seq<Member>) returns (first: Member, others: seq<Member>)
    requires members != [] && AreValues(members)
    ensures first == members[0] && others == members[1..] && members == [first] + others && AreValues(others)
    ensures others == [] <==> |members| == 1
    ensures others == [] ==> members == [first]
  {
    first, others := members[0], members[1..];
  }

  lemma JoinedEnds(members: seq<Member>)
    requires members != []
    ensures Joined(members) + [RBRACE]
         == members[0].0 + [COLON] + members[0].1
            + if |members| == 1 then [RBRACE] else [COMMA] + (Joined(members[1..]) + [RBRACE])
  {
    var first := members[0].0 + [COLON] + members[0].1;
    if |members| == 1 {
      assert Joined(members) == first;
    } else {
      var rest := Joined(members[1..]);
      assert Joined(members) == first + ([COMMA] + rest);
      Associative(first, [COMMA] + rest, [RBRACE]);
      Associative([COMMA], rest, [RBRACE]);
    }
  }

  lemma MemberIsFirst(members: seq<Member>, after: Json)
    requires members != [] && AreValues(members)
    requires after == if |members| == 1 then [RBRACE] else [COMMA] + (Joined(members[1..]) + [RBRACE])
    ensures FirstMember(Joined(members) + [RBRACE]) == Some((members[0], after))
  {
    JoinedEnds(members);
    FirstMemberReads(members[0].0, members[0].1, after);
  }

  /** The members of an object read back from its text. */
  lemma {:induction false} MembersReadBack(members: seq<Member>, s: Json)
    requires members != [] && AreValues(members) && s == Joined(members) + [RBRACE]
    ensures MembersOf(s) == Some(members)
  {
    var first, others := FirstAndOthers(members);
    if others == [] {
      MemberIsFirst(members, [RBRACE]);
      LastMember(s, first);
    } else {
      var rest := Joined(others) + [RBRACE];
      MembersReadBack(others, rest);
      MemberIsFirst(members, [COMMA] + rest);
      HeadAndRest(COMMA, rest);
      NextMember(s, first, [COMMA] + rest, rest, others);
    }
  }

  lemma BraceOff(s: Json, rest: Json, name: Json, members: seq<Member>)
    requires s == [LBRACE] + rest && MembersOf(rest) == Some(members)
    ensures MemberOf(s, name) == Lookup(members, name)
  {
    assert s[1..] == rest;
  }

  lemma MemberReadsBack(members: seq<Member>, name: Json)
    requires members != [] && AreValues(members)
    ensures MemberOf(ObjectOf(members), name) == Lookup(members, name)
  {
    var rest := Joined(members) + [RBRACE];
    MembersReadBack(members, rest);
    BraceOff(ObjectOf(members), rest, name, members);
  }

  lemma {:induction false} JoinedPasses(members: seq<Member>)
    requires members != [] && AreValues(members)
    ensures Passes(Joined(members), OUTSIDE.Deeper(), OUTSIDE.Deeper())
  {
    var name, value, at := members[0].0, members[0].1, OUTSIDE.Deeper();
    PassesDeeper(name, OUTSIDE, OUTSIDE);
    PassesDeeper(value, OUTSIDE, OUTSIDE);
    PassesOne(COLON, at);
    PassesBoth(name, [COLON], at, at, at);
    PassesBoth(name + [COLON], value, at, at, at);
    if 1 < |members| {
      JoinedPasses(members[1..]);
      PassesOne(COMMA, at);
      PassesBoth([COMMA], Joined(members[1..]), at, at, at);
      PassesBoth(name + [COLON] + value, [COMMA] + Joined(members[1..]), at, at, at);
    } else {
      assert Joined(members) == name + [COLON] + value;
    }
  }

  /** An object is a value. */
  lemma ObjectIsValue(members: seq<Member>)
    requires members != [] && AreValues(members)
    ensures IsValue(ObjectOf(members))
  {
    var at := OUTSIDE.Deeper();
    PassesOne(LBRACE, OUTSIDE);
    JoinedPasses(members);
    PassesBoth([LBRACE], Joined(members), OUTSIDE, at, at);
    PassesOne(RBRACE, at);
    PassesBoth([LBRACE] + Joined(members), [RBRACE], OUTSIDE, at, OUTSIDE);
  }

  // ---- names and numbers ----

  predicate IsPlain(b: byte) {
    b != QUOTE && b != BACKSLASH && b != COMMA && b != COLON && b !in OPENING && b !in CLOSING
  }

  lemma {:induction false} PlainPasses(s: Json, at: Scan)
    requires forall i :: 0 <= i < |s| ==> IsPlain(s[i])
    requires !at.escaped
    ensures Passes(s, at, at)
  {
    if s != [] {
      PlainPasses(s[1..], at);
    }
  }

  /** A name without anything to escape, in quotes. */
  function Quoted(name: string): Json {
    [QUOTE] + Ascii(name) + [QUOTE]
  }

  lemma QuotedIsValue(name: string)
    requires forall i :: 0 <= i < |name| ==> IsPlain(Ascii(name)[i])
    ensures IsValue(Quoted(name))
  {
    PassesOne(QUOTE, OUTSIDE);
    PlainPasses(Ascii(name), INSIDE_STRING);
    PassesBoth([QUOTE], Ascii(name), OUTSIDE, INSIDE_STRING, INSIDE_STRING);
    PassesOne(QUOTE, INSIDE_STRING);
    PassesBoth([QUOTE] + Ascii(name), [QUOTE], OUTSIDE, INSIDE_STRING, OUTSIDE);
  }

  function Integer(n: int): Json {
    if n < 0 then [MINUS] + Decimal(-n) else Decimal(n)
  }

  /** The number an integer's text stands for. */
  function IntegerValue(s: Json): Option<int> {
    if s != [] && s[0] == MINUS then
      if AllDigits(s[1..]) then Some(0 - DigitsValue(s[1..])) else None
    else if AllDigits(s) then Some(DigitsValue(s)) else None
  }

  lemma IntegerReadsBack(n: int)
    ensures IntegerValue(Integer(n)) == Some(n)
  {
    if n < 0 {
      DecimalValue(-n);
      assert Integer(n)[1..] == Decimal(-n);
    } else {
      DecimalValue(n);
      assert IsDigit(Decimal(n)[0]);
    }
  }

  lemma IntegerIsValue(n: int)
    ensures IsValue(Integer(n))
  {
    var s := Integer(n);
    forall i | 0 <= i < |s|
      ensures IsPlain(s[i])
    {
      if n < 0 && 0 < i {
        assert s[i] == Decimal(-n)[i - 1];
      }
      assert (n < 0 && i == 0) || IsDigit(s[i]);
    }
    PlainPasses(s, OUTSIDE);
  }
}
