/**
  * What the editor finds in the answers written: read from the bytes, without knowing how
  * they were put together.
  */
module LspWire {
  import opened Prelude
  import opened Utf8
  import opened Files
  import opened Framing
  import opened JsonRpc
  import opened JsonText
  import opened LspServer
  import opened LspRuns

  const ID := "id"
  const RESULT := "result"
  const ERROR := "error"

  /** What surroundings are expected to give: JSON. */
  ghost predicate IsSound(env: Surroundings) {
    IsValue(env.capabilities) && forall s :: IsValue(env.quote(s))
  }

  /** The ids of the messages are JSON. */
  predicate HaveIds(messages: seq<Request>) {
    forall i :: 0 <= i < |messages| && messages[i].rawId.Some? ==> IsValue(messages[i].rawId.value)
  }

  /** What an answer's text holds under a name. */
  function Held(body: Json, name: string): Option<Json> {
    MemberOf(body, Quoted(name))
  }

  /** The text of an error reads as this code, message and data. */
  ghost predicate SaysError(env: Surroundings, error: Json, code: int, message: string, data: Option<string>) {
    && Held(error, "code").Some? && IntegerValue(Held(error, "code").value) == Some(code)
    && Held(error, "message") == Some(env.quote(message))
    && Held(error, "data") == (match data case None => None case Some(d) => Some(env.quote(d)))
  }

  /** The text reads as this answer: its id, and either a result or an error. */
  ghost predicate Says(env: Surroundings, body: Json, answer: Answer) {
    && Held(body, "jsonrpc") == Some(Quoted("2.0"))
    && Held(body, ID) == Some(answer.id)
    && match answer.reply
       case Silent => false
       case Result(json) => Held(body, RESULT) == Some(json) && Held(body, ERROR) == None
       case Error(code, message, data) =>
         && Held(body, RESULT) == None && Held(body, ERROR).Some?
         && SaysError(env, Held(body, ERROR).value, code, message, data)
  }

  lemma NamesAreValues()
    ensures IsValue(Quoted("jsonrpc")) && IsValue(Quoted("2.0")) && IsValue(Quoted(ID))
    ensures IsValue(Quoted(RESULT)) && IsValue(Quoted(ERROR))
    ensures IsValue(Quoted("code")) && IsValue(Quoted("message")) && IsValue(Quoted("data"))
  {
    QuotedIsValue("jsonrpc");
    QuotedIsValue("2.0");
    QuotedIsValue(ID);
    QuotedIsValue(RESULT);
    QuotedIsValue(ERROR);
    QuotedIsValue("code");
    QuotedIsValue("message");
    QuotedIsValue("data");
  }

  /** Names that differ in length or in some letter differ in quotes, too. */
  lemma QuotedDiffer(a: string, b: string)
    requires |a| != |b| || exists i :: 0 <= i < |a| == |b| && Ascii(a)[i] != Ascii(b)[i]
    ensures Quoted(a) != Quoted(b)
  {
    if |a| == |b| {
      var i :| 0 <= i < |a| && Ascii(a)[i] != Ascii(b)[i];
      assert Quoted(a)[i + 1] != Quoted(b)[i + 1];
    }
  }

  lemma NamesDiffer()
    ensures Quoted("jsonrpc") != Quoted(ID) && Quoted("jsonrpc") != Quoted(RESULT) && Quoted("jsonrpc") != Quoted(ERROR)
    ensures Quoted(ID) != Quoted(RESULT) && Quoted(ID) != Quoted(ERROR) && Quoted(RESULT) != Quoted(ERROR)
    ensures Quoted("code") != Quoted("message") && Quoted("code") != Quoted("data")
    ensures Quoted("message") != Quoted("data")
  {
    QuotedDiffer("jsonrpc", ID);
    QuotedDiffer("jsonrpc", RESULT);
    QuotedDiffer("jsonrpc", ERROR);
    QuotedDiffer(ID, RESULT);
    QuotedDiffer(ID, ERROR);
    QuotedDiffer(RESULT, ERROR);
    QuotedDiffer("code", "message");
    assert Ascii("code")[0] != Ascii("data")[0];
    QuotedDiffer("code", "data");
    QuotedDiffer("message", "data");
  }

  /** An answer with a member of this name beside its id. */
  function Envelope(id: Json, name: string, value: Json): Json {
    ObjectOf([(Quoted("jsonrpc"), Quoted("2.0")), (Quoted(ID), id), (Quoted(name), value)])
  }

  lemma JoinedLast(member: Member)
    ensures Joined([member]) == member.0 + [COLON] + member.1
  {
  }

  lemma JoinedFirst(member: Member, others: seq<Member>)
    requires others != []
    ensures Joined([member] + others) == member.0 + [COLON] + member.1 + ([COMMA] + Joined(others))
  {
    assert ([member] + others)[1..] == others;
  }

  /** An object of three members, with the last two values set apart. */
  lemma ThreeMembers(a: Member, b: Member, c: Member)
    ensures ObjectOf([a, b, c])
         == [LBRACE] + a.0 + [COLON] + a.1 + [COMMA] + b.0 + [COLON] + b.1 + ([COMMA] + c.0 + [COLON]) + c.1 + [RBRACE]
  {
    assert [a, b, c] == [a] + ([b] + [c]);
    JoinedFirst(a, [b] + [c]);
    JoinedFirst(b, [c]);
    JoinedLast(c);
    var first, second, third := a.0 + [COLON] + a.1, b.0 + [COLON] + b.1, c.0 + [COLON] + c.1;
    assert Joined([a, b, c]) == first + ([COMMA] + (second + ([COMMA] + third)));
  }

  lemma OpeningInBytes()
    ensures Ascii("{\"jsonrpc\":\"2.0\",\"id\":")
         == [LBRACE] + Quoted("jsonrpc") + [COLON] + Quoted("2.0") + [COMMA] + Quoted(ID) + [COLON]
  {
  }

  lemma RestInBytes()
    ensures Ascii(",\"result\":") == [COMMA] + Quoted(RESULT) + [COLON]
    ensures Ascii("}") == [RBRACE]
  {
  }

  /** A successful answer, put together by hand, is the object with these members. */
  lemma ResultIsObject(env: Surroundings, id: Json, json: Json)
    ensures Rendered(env, Answer(id, Result(json))) == Envelope(id, RESULT, json)
  {
    OpeningInBytes();
    RestInBytes();
    ThreeMembers((Quoted("jsonrpc"), Quoted("2.0")), (Quoted(ID), id), (Quoted(RESULT), json));
  }

  // ---- reading them ----

  lemma LookupOne(a: Member, name: Json)
    ensures Lookup([a], name) == if a.0 == name then Some(a.1) else None
  {
    assert [a][1..] == [];
  }

  lemma LookupTwo(a: Member, b: Member, name: Json)
    ensures Lookup([a, b], name) == if a.0 == name then Some(a.1) else if b.0 == name then Some(b.1) else None
  {
    assert [a, b][1..] == [b];
    LookupOne(b, name);
  }

  lemma LookupThree(a: Member, b: Member, c: Member, name: Json)
    ensures Lookup([a, b, c], name)
         == if a.0 == name then Some(a.1) else if b.0 == name then Some(b.1)
            else if c.0 == name then Some(c.1) else None
  {
    assert [a, b, c][1..] == [b, c];
    LookupTwo(b, c, name);
  }

  /** What an object of three members holds under any name. */
  lemma ThreeReadBack(a: Member, b: Member, c: Member, name: Json)
    requires AreValues([a, b, c])
    ensures MemberOf(ObjectOf([a, b, c]), name)
         == if a.0 == name then Some(a.1) else if b.0 == name then Some(b.1)
            else if c.0 == name then Some(c.1) else None
  {
    MemberReadsBack([a, b, c], name);
    LookupThree(a, b, c, name);
  }

  lemma EnvelopeReadsBack(id: Json, name: string, value: Json)
    requires IsValue(id) && IsValue(value) && (name == RESULT || name == ERROR)
    ensures var body := Envelope(id, name, value);
            && Held(body, "jsonrpc") == Some(Quoted("2.0")) && Held(body, ID) == Some(id)
            && Held(body, RESULT) == (if name == RESULT then Some(value) else None)
            && Held(body, ERROR) == (if name == ERROR then Some(value) else None)
  {
    var a, b, c := (Quoted("jsonrpc"), Quoted("2.0")), (Quoted(ID), id), (Quoted(name), value);
    NamesAreValues();
    NamesDiffer();
    ThreeReadBack(a, b, c, Quoted("jsonrpc"));
    ThreeReadBack(a, b, c, Quoted(ID));
    ThreeReadBack(a, b, c, Quoted(RESULT));
    ThreeReadBack(a, b, c, Quoted(ERROR));
  }

  lemma ResultReadsBack(env: Surroundings, id: Json, json: Json)
    requires IsValue(id) && IsValue(json)
    ensures Says(env, Rendered(env, Answer(id, Result(json))), Answer(id, Result(json)))
  {
    ResultIsObject(env, id, json);
    EnvelopeReadsBack(id, RESULT, json);
  }

  lemma ErrorMembersAreValues(env: Surroundings, code: int, message: string, data: Option<string>)
    requires IsSound(env)
    ensures AreValues(ErrorMembers(env, code, message, data))
  {
    NamesAreValues();
    IntegerIsValue(code);
  }

  lemma LookupError(env: Surroundings, code: int, message: string, data: Option<string>, name: Json)
    ensures Lookup(ErrorMembers(env, code, message, data), name)
         == if Quoted("code") == name then Some(Integer(code))
            else if Quoted("message") == name then Some(env.quote(message))
            else if Quoted("data") == name && data.Some? then Some(env.quote(data.value)) else None
  {
    var a, b := (Quoted("code"), Integer(code)), (Quoted("message"), env.quote(message));
    match data
    case None =>
      assert ErrorMembers(env, code, message, data) == [a, b];
      LookupTwo(a, b, name);
    case Some(d) =>
      assert ErrorMembers(env, code, message, data) == [a, b, (Quoted("data"), env.quote(d))];
      LookupThree(a, b, (Quoted("data"), env.quote(d)), name);
  }

  lemma ErrorSays(env: Surroundings, code: int, message: string, data: Option<string>)
    requires IsSound(env)
    ensures var error := ObjectOf(ErrorMembers(env, code, message, data));
            IsValue(error) && SaysError(env, error, code, message, data)
  {
    var members := ErrorMembers(env, code, message, data);
    ErrorMembersAreValues(env, code, message, data);
    ObjectIsValue(members);
    NamesDiffer();
    IntegerReadsBack(code);
    MemberReadsBack(members, Quoted("code"));
    MemberReadsBack(members, Quoted("message"));
    MemberReadsBack(members, Quoted("data"));
    LookupError(env, code, message, data, Quoted("code"));
    LookupError(env, code, message, data, Quoted("message"));
    LookupError(env, code, message, data, Quoted("data"));
  }

  lemma ErrorReadsBack(env: Surroundings, id: Json, code: int, message: string, data: Option<string>)
    requires IsValue(id) && IsSound(env)
    ensures Says(env, Rendered(env, Answer(id, Error(code, message, data))), Answer(id, Error(code, message, data)))
  {
    ErrorSays(env, code, message, data);
    EnvelopeReadsBack(id, ERROR, ObjectOf(ErrorMembers(env, code, message, data)));
  }

  /** An answer of JSON values. */
  predicate IsJson(answer: Answer) {
    !answer.reply.Silent? && IsValue(answer.id) && (answer.reply.Result? ==> IsValue(answer.reply.json))
  }

  /** Whoever reads the text of an answer finds its id, and its result or its error. */
  lemma AnswerReadsBack(env: Surroundings, answer: Answer)
    requires IsSound(env) && IsJson(answer)
    ensures Says(env, Rendered(env, answer), answer)
  {
    match answer.reply
    case Result(json) => ResultReadsBack(env, answer.id, json);
    case Error(code, message, data) => ErrorReadsBack(env, answer.id, code, message, data);
  }

  /** A frame is a header line with the body's length in decimal, a blank line, and the body. */
  lemma FrameInBytes(body: seq<byte>)
    ensures Framed(body) == Ascii("Content-Length: ") + Decimal(|body|) + Ascii("\r\n\r\n") + body
  {
    HeaderInBytes();
    BlankLineInBytes();
  }

  lemma HeaderInBytes()
    ensures Ascii("Content-Length: ") == CONTENT_LENGTH + [COLON, SPACE]
  {
    var s := Ascii("Content-Length: ");
    assert s[..14] == CONTENT_LENGTH && s[14..] == [COLON, SPACE];
    Cut(s, 14);
  }

  lemma BlankLineInBytes()
    ensures Ascii("\r\n\r\n") == FRAME_END
  {
  }

  // ---- over a session ----

  lemma ConstantsAreValues()
    ensures IsValue(NULL) && IsValue(EMPTY_ACTIONS)
  {
    PlainPasses(NULL, OUTSIDE);
    PassesOne(EMPTY_ACTIONS[0], OUTSIDE);
    PassesOne(EMPTY_ACTIONS[1], OUTSIDE.Deeper());
    PassesBoth([EMPTY_ACTIONS[0]], [EMPTY_ACTIONS[1]], OUTSIDE, OUTSIDE.Deeper(), OUTSIDE);
    assert EMPTY_ACTIONS == [EMPTY_ACTIONS[0]] + [EMPTY_ACTIONS[1]];
  }

  lemma ReplyIsJson(s: State, env: Surroundings, tree: Tree, r: Request)
    requires IsSound(env) && (r.rawId.Some? ==> IsValue(r.rawId.value))
    ensures forall k :: 0 <= k < |AnswersTo(r, Handle(s, env, tree, r).1)|
                        ==> IsJson(AnswersTo(r, Handle(s, env, tree, r).1)[k])
  {
    ConstantsAreValues();
  }

  lemma {:induction false} AnswersAreJson(env: Surroundings, messages: seq<Request>, tree: nat -> Tree, n: nat)
    requires n <= |messages| && IsSound(env) && HaveIds(messages)
    ensures forall k :: 0 <= k < |Answers(env, messages, tree, n)|
                        ==> IsJson(Answers(env, messages, tree, n)[k])
  {
    if 0 < n {
      AnswersAreJson(env, messages, tree, n - 1);
      ReplyIsJson(StateAt(env, messages, tree, n - 1), env, tree(n - 1), messages[n - 1]);
    }
  }

  /**
    * Of everything the server writes, read back from the bytes: there is one frame for each
    * message that is answered, in order; it carries that message's id, and the result or the
    * error that the reference server gives.
    */
  lemma OutputSaysAnswers(env: Surroundings, messages: seq<Request>, tree: nat -> Tree, output: seq<byte>)
    requires IsSound(env) && HaveIds(messages)
    requires output == Written(AnswersOnTheWire(env, messages, tree))
    requires forall k :: 0 <= k < |AnswersOnTheWire(env, messages, tree)|
                         ==> |AnswersOnTheWire(env, messages, tree)[k]| <= MAX_FRAME_BYTES
    ensures var (bodies, clean) := ReadAll(output);
            var ids, answers := AnsweredIds(messages, |messages|), Answers(env, messages, tree, |messages|);
            && clean && |bodies| == |ids| == |answers|
            && (forall k :: 0 <= k < |bodies| ==> Held(bodies[k], ID) == Some(ids[k]))
            && (forall k :: 0 <= k < |bodies| ==> Says(env, bodies[k], answers[k]))
  {
    var wire := AnswersOnTheWire(env, messages, tree);
    var ids, answers := AnsweredIds(messages, |messages|), Answers(env, messages, tree, |messages|);
    StreamRoundTrip(wire);
    RepliesCorrespond(env, messages, tree, |messages|);
    AnswersAreJson(env, messages, tree, |messages|);
    forall k | 0 <= k < |wire|
      ensures Says(env, wire[k], answers[k]) && answers[k].id == ids[k]
    {
      AnswerReadsBack(env, answers[k]);
      assert Ids(answers)[k] == answers[k].id;
    }
  }
}
