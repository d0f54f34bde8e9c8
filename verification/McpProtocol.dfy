/**
  * What the companion answers to a client's requests, one at a time.
  */
module McpProtocol {
  import opened Prelude
  import opened JsonRpc

  /** The parameters of a request, as far as a handler looks: its `name`, when that is a string. */
  datatype Params = Params(name: Option<string>)

  /** The methods told apart; the comments give their names on the wire. */
  datatype Method =
    | Initialize // initialize
    | ToolsList // tools/list
    | ToolsCall // tools/call
    | SetLevel // logging/setLevel
    | PromptsList // prompts/list
    | PromptsGet // prompts/get
    | AtMention // at_mention_request
    | Other(name: string)

  datatype Request = Request(id: Option<Json>, verb: Method, params: Option<Params>)

  function NameOf(verb: Method): string {
    match verb
    case Initialize => "initialize"
    case ToolsList => "tools/list"
    case ToolsCall => "tools/call"
    case SetLevel => "logging/setLevel"
    case PromptsList => "prompts/list"
    case PromptsGet => "prompts/get"
    case AtMention => "at_mention_request"
    case Other(name) => name
  }

  datatype Payload =
    | ServerDescription
    | NoTools
    | ToolResult(text: string, isError: bool)
    | EmptyObject
    | NoPrompts
    | Prompt(description: string)

  datatype Outcome =
    | Success(payload: Payload)
    | Failure(code: int, message: string, details: Option<string>)

  datatype Response = Response(id: Option<Json>, outcome: Outcome)

  /** A handler's own failure: the caller's arguments, or something else. */
  datatype Trouble = BadArguments(what: string) | OtherTrouble(what: string)

  /** What a tool call answers, and the flag that marks it as an error. */
  function DispatchTool(name: string): (string, bool) {
    if name == "getDiagnostics" then ("{\"diagnostics\":[]}", false)
    else
      ("NOT_SUPPORTED: Tool '" + name + "' is not available in Zed integration. "
       + "File operations should be performed directly.", true)
  }

  function HandleToolsCall(params: Option<Params>): Attempt<Payload, Trouble> {
    match params
    case None => Err(BadArguments("tools/call requires params"))
    case Some(Params(None)) => Err(BadArguments("tools/call requires a string name"))
    case Some(Params(Some(name))) =>
      var (text, isError) := DispatchTool(name);
      Ok(ToolResult(text, isError))
  }

  function HandlePromptsGet(params: Option<Params>): Attempt<Payload, Trouble> {
    match params
    case None => Err(OtherTrouble("Missing parameters for prompts/get"))
    case Some(Params(None)) => Err(OtherTrouble("Missing prompt name"))
    case Some(Params(Some(name))) => Ok(Prompt("Prompt: " + name))
  }

  function Answer(id: Option<Json>, handled: Attempt<Payload, Trouble>): Attempt<Response, Trouble> {
    match handled
    case Ok(payload) => Ok(Response(id, Success(payload)))
    case Err(trouble) => Err(trouble)
  }

  function HandleRequest(r: Request): Attempt<Response, Trouble> {
    match r.verb
    case Initialize => Answer(r.id, Ok(ServerDescription))
    case ToolsList => Answer(r.id, Ok(NoTools))
    case ToolsCall => Answer(r.id, HandleToolsCall(r.params))
    case SetLevel => Answer(r.id, Ok(EmptyObject))
    case PromptsList => Answer(r.id, Ok(NoPrompts))
    case PromptsGet => Answer(r.id, HandlePromptsGet(r.params))
    case _ => Ok(Response(r.id, Failure(METHOD_NOT_FOUND, "Method not found: " + NameOf(r.verb), None)))
  }

  // ---- one message ----

  /** A message from the client. */
  datatype Message =
    /** text no JSON parser accepts */
    | NotJson
    /** JSON that is no request; the id is what its `id` member says, if it has one */
    | Malformed(recoveredId: Option<Json>)
    | WellFormed(request: Request)
    /** a close, binary or control frame */
    | NotText
    /** the socket failed */
    | Broken

  predicate IsNotification(r: Request) {
    r.id.None? || r.id.value == NULL
  }

  function RespondTo(r: Request): Response {
    match HandleRequest(r)
    case Ok(response) => response
    case Err(BadArguments(what)) => Response(r.id, Failure(INVALID_PARAMS, "Invalid params", Some(what)))
    case Err(OtherTrouble(what)) => Response(r.id, Failure(INTERNAL_ERROR, "Internal error", Some(what)))
  }

  /** What is sent back for a message. */
  function Responses(m: Message): seq<Response> {
    match m
    case NotJson => [Response(Some(NULL), Failure(PARSE_ERROR, "Parse error", None))]
    case Malformed(id) =>
      if id.Some? && id.value != NULL then [Response(id, Failure(INVALID_REQUEST, "Invalid Request", None))] else []
    case WellFormed(r) => if IsNotification(r) then [] else [RespondTo(r)]
    case NotText => []
    case Broken => []
  }

  /** The message asks for an at-mention of the current selection. */
  predicate AsksForMention(m: Message) {
    m.WellFormed? && IsNotification(m.request) && m.request.verb.AtMention?
  }

  // ---- every conversation ----

  /** All that is sent back for some messages. */
  function AllResponses(messages: seq<Message>): seq<Response> {
    if messages == [] then []
    else
      var n := |messages| - 1;
      AllResponses(messages[..n]) + Responses(messages[n])
  }

  /** The id JSON-RPC wants answered: a request's own, unless it has none; null for what cannot be parsed. */
  function IdToAnswer(m: Message): Option<Json> {
    match m
    case NotJson => Some(NULL)
    case Malformed(id) => if id == Some(NULL) then None else id
    case WellFormed(r) => if r.id == Some(NULL) then None else r.id
    case _ => None
  }

  function IdsToAnswer(messages: seq<Message>): seq<Json> {
    if messages == [] then []
    else
      var n := |messages| - 1;
      IdsToAnswer(messages[..n]) + match IdToAnswer(messages[n]) { case None => [] case Some(id) => [id] }
  }

  function IdsOf(responses: seq<Response>): seq<Option<Json>> {
    seq(|responses|, i requires 0 <= i < |responses| => responses[i].id)
  }

  function Present(ids: seq<Json>): seq<Option<Json>> {
    seq(|ids|, i requires 0 <= i < |ids| => Some(ids[i]))
  }

  /** Over any conversation, the ids that want an answer get one each, in order, and nothing else is answered. */
  lemma {:induction false} ResponsesCorrespond(messages: seq<Message>)
    ensures IdsOf(AllResponses(messages)) == Present(IdsToAnswer(messages))
  {
    if messages != [] {
      var n := |messages| - 1;
      ResponsesCorrespond(messages[..n]);
      assert IdsOf(AllResponses(messages)) == IdsOf(AllResponses(messages[..n])) + IdsOf(Responses(messages[n]));
    }
  }

  /** The code of an answer tells exactly what was wrong. */
  lemma CodesAreExact(m: Message)
    requires IdToAnswer(m).Some?
    ensures |Responses(m)| == 1
    ensures var outcome := Responses(m)[0].outcome;
            var bare := m.WellFormed? && (m.request.params.None? || m.request.params.value.name.None?);
            var unknown := m.WellFormed? && (m.request.verb.AtMention? || m.request.verb.Other?);
            && (outcome.Failure? && outcome.code == -32700 <==> m.NotJson?)
            && (outcome.Failure? && outcome.code == -32600 <==> m.Malformed?)
            && (outcome.Failure? && outcome.code == -32601 <==> unknown)
            && (outcome.Failure? && outcome.code == -32602 <==> bare && m.request.verb.ToolsCall?)
            && (outcome.Failure? && outcome.code == -32603 <==> bare && m.request.verb.PromptsGet?)
  {
  }

  /** What a successful answer holds tells exactly what was called. */
  lemma PayloadsAreExact(m: Message)
    requires IdToAnswer(m).Some?
    ensures var outcome := Responses(m)[0].outcome;
            var named := m.WellFormed? && m.request.params.Some? && m.request.params.value.name.Some?;
            && (outcome == Success(ServerDescription) <==> m.WellFormed? && m.request.verb.Initialize?)
            && (outcome == Success(NoTools) <==> m.WellFormed? && m.request.verb.ToolsList?)
            && (outcome == Success(EmptyObject) <==> m.WellFormed? && m.request.verb.SetLevel?)
            && (outcome == Success(NoPrompts) <==> m.WellFormed? && m.request.verb.PromptsList?)
            && (outcome.Success? && outcome.payload.Prompt? <==> named && m.request.verb.PromptsGet?)
            && (outcome.Success? && outcome.payload.ToolResult? <==> named && m.request.verb.ToolsCall?)
  {
  }

  /** And says what it should of the name it was called with. */
  lemma NamesAreEchoed(m: Message, name: string)
    requires IdToAnswer(m).Some? && m.WellFormed? && m.request.params == Some(Params(Some(name)))
    ensures var outcome := Responses(m)[0].outcome;
            && (m.request.verb.PromptsGet? ==> outcome == Success(Prompt("Prompt: " + name)))
            && (m.request.verb.ToolsCall? && name == "getDiagnostics" ==>
                  outcome == Success(ToolResult("{\"diagnostics\":[]}", false)))
            && (m.request.verb.ToolsCall? && name != "getDiagnostics" ==>
                  outcome == Success(ToolResult(
                    "NOT_SUPPORTED: Tool '" + name + "' is not available in Zed integration. "
                    + "File operations should be performed directly.", true)))
  {
  }

  /** And an error says what was wrong with a request. */
  lemma FailuresSay(m: Message)
    requires IdToAnswer(m).Some? && m.WellFormed?
    ensures var r, outcome := m.request, Responses(m)[0].outcome;
            var bare := r.params.None? || r.params.value.name.None?;
            && (r.verb.Other? ==> outcome == Failure(-32601, "Method not found: " + r.verb.name, None))
            && (r.verb.AtMention? ==> outcome == Failure(-32601, "Method not found: " + "at_mention_request", None))
            && (r.verb.ToolsCall? && bare ==>
                  outcome == Failure(-32602, "Invalid params",
                                     Some(if r.params.None? then "tools/call requires params"
                                          else "tools/call requires a string name")))
            && (r.verb.PromptsGet? && bare ==>
                  outcome == Failure(-32603, "Internal error",
                                     Some(if r.params.None? then "Missing parameters for prompts/get"
                                          else "Missing prompt name")))
  {
  }

  /** Or that it was none. */
  lemma NoRequestIsTold(m: Message)
    requires IdToAnswer(m).Some?
    ensures m.NotJson? ==> Responses(m) == [Response(Some(NULL), Failure(-32700, "Parse error", None))]
    ensures m.Malformed? ==> Responses(m) == [Response(m.recoveredId, Failure(-32600, "Invalid Request", None))]
  {
  }

  /** A mention is asked for by a notification of that name, and by nothing else. */
  lemma MentionsAreAskedFor(m: Message)
    ensures AsksForMention(m) <==>
            && m.WellFormed? && IdToAnswer(m).None?
            && !m.request.verb.Other? && NameOf(m.request.verb) == "at_mention_request"
  {
  }

  /** The messages that want an answer, in order. */
  function Wanting(messages: seq<Message>): seq<Message> {
    if messages == [] then []
    else
      var n := |messages| - 1;
      Wanting(messages[..n]) + if IdToAnswer(messages[n]).Some? then [messages[n]] else []
  }

  /** Each of them is answered once, in its turn. */
  lemma {:induction false} AnsweredInTurn(messages: seq<Message>)
    ensures |AllResponses(messages)| == |Wanting(messages)|
    ensures forall k :: 0 <= k < |Wanting(messages)| ==> Responses(Wanting(messages)[k]) == [AllResponses(messages)[k]]
  {
    if messages != [] {
      AnsweredInTurn(messages[..|messages| - 1]);
    }
  }

  predicate Calls(m: Message, tool: string) {
    && m.WellFormed? && m.request.verb.ToolsCall?
    && m.request.params.Some? && m.request.params.value.name == Some(tool)
  }

  /**
    * No client is ever told that a tool did its work, but for the one that has none to do:
    * over every list of messages, a tool result answers a call of the same place among
    * those that want an answer, and lacks the error flag exactly when that call is of
    * `getDiagnostics`. So an `openDiff` is never taken for a reviewed and saved edit.
    */
  lemma OnlyDiagnosticsSucceed(messages: seq<Message>, k: nat)
    requires k < |AllResponses(messages)|
    requires var outcome := AllResponses(messages)[k].outcome; outcome.Success? && outcome.payload.ToolResult?
    ensures |AllResponses(messages)| == |Wanting(messages)|
    ensures var call := Wanting(messages)[k];
            && call.WellFormed? && call.request.id == AllResponses(messages)[k].id
            && (!AllResponses(messages)[k].outcome.payload.isError <==> Calls(call, "getDiagnostics"))
  {
    AnsweredInTurn(messages);
    assert Responses(Wanting(messages)[k])[0] == AllResponses(messages)[k];
  }
}
