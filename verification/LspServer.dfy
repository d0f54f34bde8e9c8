/**
  * The editor side: the LSP messages, what each one does, and the loop that serves
  * them from a byte stream.
  */
module LspServer {
  import opened Prelude
  import opened Utf8
  import opened Lines
  import opened Positions
  import opened Files
  import opened Documents
  import opened Framing
  import opened JsonRpc
  import opened JsonText
  import opened Selections
  import opened StaleIndex

  // ---- messages ----

  /** "[]" */
  const EMPTY_ACTIONS: Json := [0x5B, 0x5D]

  lemma EmptyActionsInBytes()
    ensures EMPTY_ACTIONS == Ascii("[]")
  {
  }

  const SERVER_NOT_INITIALIZED := -32002

  /** What each decoder makes of a message's parameters; nothing when they do not fit. */
  datatype Params = Params(
    didOpen: Option<(Url, Text)>,
    didChange: Option<(Url, seq<Change>)>,
    didClose: Option<Url>,
    codeAction: Option<(Url, Range)>)

  /** The methods the server tells apart; the comments give their names on the wire. */
  datatype Method =
    | Initialize // initialize
    | Initialized // initialized
    | Shutdown // shutdown
    | Exit // exit
    | DidOpen // textDocument/didOpen
    | DidChange // textDocument/didChange
    | DidClose // textDocument/didClose
    | DidSave // textDocument/didSave
    | CodeAction // textDocument/codeAction
    | SelectionRange // textDocument/selectionRange
    | Other(name: string)

  datatype Request = Request(verb: Method, rawId: Option<Json>, params: Params) {
    /** The id to answer to; null is none. */
    function Id(): Option<Json> {
      if rawId.Some? && rawId.value != NULL then rawId else None
    }

    predicate IsNotification() {
      Id().None?
    }
  }

  datatype Reply =
    | Silent
    | Result(json: Json)
    | Error(code: int, message: string, data: Option<string>)

  const REFUSAL := Error(INVALID_REQUEST, "Invalid request", None)
  const NOT_INITIALIZED := Error(SERVER_NOT_INITIALIZED, "Server not initialized", None)

  function MethodNotFound(verb: Method): Reply {
    Error(METHOD_NOT_FOUND, "Method not found", if verb.Other? then Some(verb.name) else None)
  }

  /** What the surroundings decide: URI decoding, the capability payload, and how JSON quotes a string. */
  datatype Surroundings = Surroundings(
    pathOf: Url -> Path,
    capabilities: Json,
    quote: string -> Json)

  // ---- the reference server: plain state, no index, no cache ----

  /** `fromFile` tells which of the texts reported had to be read from a file. */
  datatype State = State(
    initialized: bool, shutDown: bool, mirror: Mirror, reported: seq<Selection>, fromFile: seq<bool>)
  {
    /** One more report. */
    function Reporting(selection: Selection): State {
      this.(reported := reported + [selection],
            fromFile := fromFile + [NeedsFile(mirror, selection.uri, selection.range)])
    }
  }

  const INITIAL := State(false, false, map[], [], [])

  function SelectionAt(s: State, env: Surroundings, tree: Tree, uri: Url, range: Range): Selection {
    var path := env.pathOf(uri);
    Selection(path, uri, range, SelectionText(s.mirror, tree, uri, path, range))
  }

  /** What an initialized server that is not refusing the message does with it. */
  function Serve(s: State, env: Surroundings, tree: Tree, r: Request): (State, Reply) {
    match r.verb
    case Initialized => (s, Silent)
    case Shutdown => (s.(shutDown := true), Result(NULL))
    case DidOpen =>
      (match r.params.didOpen
       case None => s
       case Some((uri, text)) => s.(mirror := Opened(s.mirror, uri, text)), Silent)
    case DidChange =>
      (match r.params.didChange
       case None => s
       case Some((uri, changes)) => s.(mirror := Changed(s.mirror, uri, changes)), Silent)
    case DidClose =>
      (match r.params.didClose
       case None => s
       case Some(uri) => s.(mirror := Closed(s.mirror, uri)), Silent)
    case DidSave => (s, Silent)
    case CodeAction =>
      (match r.params.codeAction
       case None => (s, REFUSAL)
       case Some((uri, range)) =>
         (s.Reporting(SelectionAt(s, env, tree, uri, range)), Result(EMPTY_ACTIONS)))
    case SelectionRange => (s, Result(NULL))
    case _ =>
      (s, if r.IsNotification() then Silent else MethodNotFound(r.verb))
  }

  function Handle(s: State, env: Surroundings, tree: Tree, r: Request): (State, Reply) {
    if r.verb.Initialize? then
      if s.initialized then (s, REFUSAL)
      else (s.(initialized := true), Result(env.capabilities))
    else if !s.initialized then
      (s, if r.IsNotification() then Silent else NOT_INITIALIZED)
    else if s.shutDown && !r.IsNotification() then (s, REFUSAL)
    else Serve(s, env, tree, r)
  }

  /** A reply as it goes out: only to a message with an id, and only if there is something to say. */
  datatype Answer = Answer(id: Json, reply: Reply)

  function AnswersTo(r: Request, reply: Reply): seq<Answer> {
    match r.Id()
    case None => []
    case Some(id) => if reply.Silent? then [] else [Answer(id, reply)]
  }

  /** The state after the first `n` messages of a session; file `tree(i)` is there at message `i`. */
  function StateAt(env: Surroundings, messages: seq<Request>, tree: nat -> Tree, n: nat): State
    requires n <= |messages|
  {
    if n == 0 then INITIAL
    else Handle(StateAt(env, messages, tree, n - 1), env, tree(n - 1), messages[n - 1]).0
  }

  function ReplyTo(env: Surroundings, messages: seq<Request>, tree: nat -> Tree, i: nat): Reply
    requires i < |messages|
  {
    Handle(StateAt(env, messages, tree, i), env, tree(i), messages[i]).1
  }

  /** Every answer to the first `n` messages, in order. */
  function Answers(env: Surroundings, messages: seq<Request>, tree: nat -> Tree, n: nat): seq<Answer>
    requires n <= |messages|
  {
    if n == 0 then []
    else Answers(env, messages, tree, n - 1) + AnswersTo(messages[n - 1], ReplyTo(env, messages, tree, n - 1))
  }

  /** What a server does with message number `n` in state `s`. */
  type Step = (State, nat, Request) -> (State, Reply)

  /** `step` is the reference server over the files `tree`. */
  ghost predicate IsReference(step: Step, env: Surroundings, tree: nat -> Tree) {
    forall s: State, n: nat, r: Request {:trigger Handle(s, env, tree(n), r)} ::
      step(s, n, r) == Handle(s, env, tree(n), r)
  }

  /** The rest of a session from state `s`: the state it ends in, and the answers still to come. */
  function Session(step: Step, s: State, n: nat, left: seq<Request>): (State, seq<Answer>)
    decreases |left|
  {
    if left == [] then (s, [])
    else
      var (after, reply) := step(s, n, left[0]);
      var (end, answers) := Session(step, after, n + 1, left[1..]);
      (end, AnswersTo(left[0], reply) + answers)
  }

  /** Message by message and all at once, a session is the same. */
  lemma {:induction false} SessionFrom(
    step: Step, env: Surroundings, messages: seq<Request>, tree: nat -> Tree, n: nat)
    requires n <= |messages| && IsReference(step, env, tree)
    ensures var (end, answers) := Session(step, StateAt(env, messages, tree, n), n, messages[n..]);
            && end == StateAt(env, messages, tree, |messages|)
            && Answers(env, messages, tree, n) + answers == Answers(env, messages, tree, |messages|)
    decreases |messages| - n
  {
    if n < |messages| {
      var next := n + 1;
      SessionFrom(step, env, messages, tree, next);
      assert messages[n..][0] == messages[n] && messages[n..][1..] == messages[next..];
      var reply := ReplyTo(env, messages, tree, n);
      var (end, answers) := Session(step, StateAt(env, messages, tree, next), next, messages[next..]);
      Associative(Answers(env, messages, tree, n), AnswersTo(messages[n], reply), answers);
    } else {
      assert messages[n..] == [];
    }
  }

  lemma SessionOfAll(step: Step, env: Surroundings, messages: seq<Request>, tree: nat -> Tree)
    requires IsReference(step, env, tree)
    ensures var (end, answers) := Session(step, INITIAL, 0, messages);
            end == StateAt(env, messages, tree, |messages|) && answers == Answers(env, messages, tree, |messages|)
  {
    SessionFrom(step, env, messages, tree, 0);
    assert messages[0..] == messages;
  }

  /** The messages of a session: the frames that decode, up to the first `exit`. */
  function Inbox(bodies: seq<seq<byte>>, parse: seq<byte> -> Option<Request>): seq<Request> {
    if bodies == [] then []
    else
      match parse(bodies[0])
      case None => Inbox(bodies[1..], parse)
      case Some(r) => if r.verb.Exit? then [] else [r] + Inbox(bodies[1..], parse)
  }

  // ---- what a server with a cache may report ----

  /** The same report, but for the text; that too, if it is `sure`. */
  predicate SameReport(got: Selection, want: Selection, sure: bool) {
    got.path == want.path && got.uri == want.uri && got.range == want.range && (sure ==> got.text == want.text)
  }

  /**
    * Report by report, `got` is what the reference server reports; only a text that had to
    * be read from a file may differ, and only if that file is not in `trusted`.
    */
  ghost predicate Alike(got: seq<Selection>, s: State, trusted: iset<Path>) {
    && |got| == |s.reported| == |s.fromFile|
    && forall k :: 0 <= k < |got| ==>
         SameReport(got[k], s.reported[k], s.fromFile[k] ==> s.reported[k].path in trusted)
  }

  /** Nothing was reported in between. */
  predicate SameReports(s: State, t: State) {
    t.reported == s.reported && t.fromFile == s.fromFile
  }

  lemma AlikeOneMore(
    before: seq<Selection>, s: State, trusted: iset<Path>, got: seq<Selection>, want: Selection)
    requires Alike(before, s, trusted) && |got| == 1
    requires SameReport(got[0], want, NeedsFile(s.mirror, want.uri, want.range) ==> want.path in trusted)
    ensures Alike(before + got, s.Reporting(want), trusted)
  {
  }

  /** Where nothing differs, the reports are the reference server's. */
  lemma AlikeIsEqual(got: seq<Selection>, s: State, trusted: iset<Path>)
    requires Alike(got, s, trusted)
    requires forall k :: 0 <= k < |s.reported| && s.fromFile[k] ==> s.reported[k].path in trusted
    ensures got == s.reported
  {
    forall k | 0 <= k < |got|
      ensures got[k] == s.reported[k]
    {
      assert SameReport(got[k], s.reported[k], true);
    }
  }

  // ---- rendering ----

  /** The `error` member of an answer; without data it has no `data` member. */
  function ErrorMembers(env: Surroundings, code: int, message: string, data: Option<string>): seq<Member> {
    [(Quoted("code"), Integer(code)), (Quoted("message"), env.quote(message))]
    + match data
      case None => []
      case Some(d) => [(Quoted("data"), env.quote(d))]
  }

  function Rendered(env: Surroundings, answer: Answer): Json {
    match answer.reply
    case Silent => []
    case Result(json) =>
      Ascii("{\"jsonrpc\":\"2.0\",\"id\":") + answer.id + Ascii(",\"result\":") + json + Ascii("}")
    case Error(code, message, data) =>
      ObjectOf([(Quoted("jsonrpc"), Quoted("2.0")), (Quoted("id"), answer.id),
                (Quoted("error"), ObjectOf(ErrorMembers(env, code, message, data)))])
  }

  function AllRendered(env: Surroundings, answers: seq<Answer>): seq<Json> {
    seq(|answers|, i requires 0 <= i < |answers| => Rendered(env, answers[i]))
  }

  // ---- the server ----

  class Server {
    const env: Surroundings
    const tracker: SelectionTracker
    const documents: DocumentStore
    var initialized: bool
    var shutDown: bool

    ghost predicate Valid()
      reads this, tracker, documents, documents.docs.Values
    {
      tracker.Valid() && documents.Valid()
    }

    /** The server is in state `s`, all but what was reported. */
    ghost predicate Agrees(s: State)
      reads this, documents`docs, documents.docs.Values
    {
      initialized == s.initialized && shutDown == s.shutDown && documents.View() == s.mirror
    }

    /** What was reported is what the reference server reports, as far as the files can be trusted. */
    ghost predicate Reports(s: State, trusted: iset<Path>)
      reads tracker
    {
      Alike(tracker.reported, s, trusted)
    }

    /** The remembered index may stand in for any trusted file it is taken for. */
    ghost predicate Sound(tree: Tree, trusted: iset<Path>)
      reads documents`disk
    {
      forall path :: path in trusted ==> documents.CacheSound(tree, path)
    }

    lemma TellingStampsKeepSound(was: Tree, now: Tree, trusted: iset<Path>)
      requires documents.DiskIndexed() && documents.CachedFrom(was)
      requires forall path :: path in trusted ==> StampTells(was, now, path)
      ensures Sound(now, trusted)
    {
      forall path | path in trusted
        ensures documents.CacheSound(now, path)
      {
        documents.TellingStampKeepsCacheSound(was, now, path);
      }
    }

    constructor (env: Surroundings, tracker: SelectionTracker)
      requires tracker.Valid()
      ensures Valid() && this.env == env && this.tracker == tracker
      ensures fresh(documents) && documents.docs == map[] && documents.disk.None?
      ensures Agrees(INITIAL)
    {
      this.env := env;
      this.tracker := tracker;
      documents := new DocumentStore();
      initialized := false;
      shutDown := false;
    }

    method DidOpen(r: Request, ghost s: State) returns (reply: Reply)
      requires Valid() && Agrees(s)
      modifies documents`docs
      ensures Valid() && fresh(documents.docs.Values - old(documents.docs.Values))
      ensures reply == Silent
      ensures Agrees(match r.params.didOpen
                     case None => s
                     case Some((uri, text)) => s.(mirror := Opened(s.mirror, uri, text)))
    {
      match r.params.didOpen {
        case None =>
        case Some((uri, text)) => documents.Open(uri, text);
      }
      return Silent;
    }

    method DidChange(r: Request, ghost s: State) returns (reply: Reply)
      requires Valid() && Agrees(s)
      modifies documents`docs, documents.docs.Values
      ensures Valid() && documents.docs.Values <= old(documents.docs.Values)
      ensures reply == Silent
      ensures Agrees(match r.params.didChange
                     case None => s
                     case Some((uri, changes)) => s.(mirror := Changed(s.mirror, uri, changes)))
    {
      match r.params.didChange {
        case None =>
        case Some((uri, changes)) => documents.Apply(uri, changes);
      }
      return Silent;
    }

    method DidClose(r: Request, ghost s: State) returns (reply: Reply)
      requires Valid() && Agrees(s)
      modifies documents`docs
      ensures Valid() && documents.docs.Values <= old(documents.docs.Values)
      ensures reply == Silent
      ensures Agrees(match r.params.didClose
                     case None => s
                     case Some(uri) => s.(mirror := Closed(s.mirror, uri)))
    {
      match r.params.didClose {
        case None =>
        case Some(uri) => documents.Close(uri);
      }
      return Silent;
    }

    /** What it reports is `got`. */
    method CodeAction(r: Request, fs: FileSystem, ghost s: State) returns (reply: Reply, ghost got: seq<Selection>)
      requires Valid() && Agrees(s)
      modifies tracker, documents`disk, documents`diskText, fs`log
      ensures Valid()
      ensures reply == if r.params.codeAction.Some? then Result(EMPTY_ACTIONS) else REFUSAL
      ensures (documents.disk == old(documents.disk) && documents.diskText == old(documents.diskText))
              || documents.CachedFrom(fs.tree)
      ensures tracker.reported == old(tracker.reported) + got
      ensures r.params.codeAction.None? ==> got == []
      ensures r.params.codeAction.Some? ==>
                var (uri, range) := r.params.codeAction.value;
                && |got| == 1
                && SameReport(got[0], SelectionAt(s, env, fs.tree, uri, range),
                              !NeedsFile(s.mirror, uri, range) || old(documents.CacheSound(fs.tree, env.pathOf(uri))))
    {
      if r.params.codeAction.None? {
        return REFUSAL, [];
      }
      var (uri, range) := r.params.codeAction.value;
      var path := env.pathOf(uri);
      var text := documents.TextForRange(fs, uri, path, range);
      var selection := Selection(path, uri, range, text);
      tracker.Update(selection);
      return Result(EMPTY_ACTIONS), [selection];
    }

    /** The one request that reports a selection. */
    method Report(
      r: Request, fs: FileSystem, ghost s: State, ghost want: (State, Reply), ghost trusted: iset<Path>)
      returns (reply: Reply)
      requires Valid() && Agrees(s) && r.verb.CodeAction? && want == Serve(s, env, fs.tree, r)
      requires Reports(s, trusted) && Sound(fs.tree, trusted)
      modifies tracker, documents`disk, documents`diskText, fs`log
      ensures Valid()
      ensures Agrees(want.0) && Reports(want.0, trusted) && reply == want.1
      ensures (documents.disk == old(documents.disk) && documents.diskText == old(documents.diskText))
              || documents.CachedFrom(fs.tree)
    {
      ghost var before, got := tracker.reported, [];
      reply, got := CodeAction(r, fs, s);
      if r.params.codeAction.Some? {
        var (uri, range) := r.params.codeAction.value;
        AlikeOneMore(before, s, trusted, got, SelectionAt(s, env, fs.tree, uri, range));
      }
    }

    /** The three notifications that keep the mirror in step with the editor. */
    method Synchronize(r: Request, ghost s: State, ghost tree: Tree, ghost want: (State, Reply)) returns (reply: Reply)
      requires Valid() && Agrees(s) && want == Serve(s, env, tree, r)
      requires r.verb.DidOpen? || r.verb.DidChange? || r.verb.DidClose?
      modifies documents`docs, documents.docs.Values
      ensures Valid() && fresh(documents.docs.Values - old(documents.docs.Values))
      ensures Agrees(want.0) && SameReports(s, want.0) && reply == want.1
    {
      match r.verb {
        case DidOpen => reply := DidOpen(r, s);
        case DidChange => reply := DidChange(r, s);
        case DidClose => reply := DidClose(r, s);
      }
    }

    /** The messages that touch no document and report nothing. */
    method Acknowledge(r: Request, ghost s: State, ghost tree: Tree, ghost want: (State, Reply)) returns (reply: Reply)
      requires Valid() && Agrees(s) && want == Serve(s, env, tree, r)
      requires !r.verb.DidOpen? && !r.verb.DidChange? && !r.verb.DidClose? && !r.verb.CodeAction?
      modifies this`shutDown
      ensures Agrees(want.0) && SameReports(s, want.0) && reply == want.1
    {
      match r.verb {
        case Initialized | DidSave => reply := Silent;
        case Shutdown => shutDown, reply := true, Result(NULL);
        case SelectionRange => reply := Result(NULL);
        case _ => reply := if r.IsNotification() then Silent else MethodNotFound(r.verb);
      }
    }

    /** The handlers, for an initialized server that is not refusing the message. */
    method ServeMessage(
      r: Request, fs: FileSystem, ghost s: State, ghost want: (State, Reply), ghost trusted: iset<Path>)
      returns (reply: Reply)
      requires Valid() && Agrees(s) && want == Serve(s, env, fs.tree, r)
      requires Reports(s, trusted) && Sound(fs.tree, trusted)
      modifies this`shutDown, tracker, documents, documents.docs.Values, fs`log
      ensures Valid() && fresh(documents.docs.Values - old(documents.docs.Values))
      ensures Agrees(want.0) && Reports(want.0, trusted) && reply == want.1
      ensures (documents.disk == old(documents.disk) && documents.diskText == old(documents.diskText))
              || documents.CachedFrom(fs.tree)
    {
      match r.verb {
        case DidOpen | DidChange | DidClose => reply := Synchronize(r, s, fs.tree, want);
        case CodeAction => reply := Report(r, fs, s, want, trusted);
        case _ => reply := Acknowledge(r, s, fs.tree, want);
      }
    }

    /** Dispatch one message. What it does is `want`, which is what the reference server does. */
    method Route(
      r: Request, fs: FileSystem, ghost s: State, ghost want: (State, Reply), ghost trusted: iset<Path>)
      returns (reply: Reply)
      requires Valid() && Agrees(s) && want == Handle(s, env, fs.tree, r)
      requires Reports(s, trusted) && Sound(fs.tree, trusted)
      modifies this, tracker, documents, documents.docs.Values, fs`log
      ensures Valid() && fresh(documents.docs.Values - old(documents.docs.Values))
      ensures Agrees(want.0) && Reports(want.0, trusted) && reply == want.1
      ensures (documents.disk == old(documents.disk) && documents.diskText == old(documents.diskText))
              || documents.CachedFrom(fs.tree)
    {
      var notification := r.IsNotification();
      if r.verb.Initialize? {
        if initialized {
          return REFUSAL;
        }
        initialized := true;
        return Result(env.capabilities);
      }
      if !initialized {
        return if notification then Silent else NOT_INITIALIZED;
      }
      if shutDown && !notification {
        return REFUSAL;
      }
      reply := ServeMessage(r, fs, s, want, trusted);
    }
  }

  // ---- the session ----

  /** Over the whole session, no later change of this file's lines goes unnoticed by its stamp. */
  ghost predicate StampAlwaysTells(tree: nat -> Tree, path: Path) {
    forall i, j :: i <= j ==> StampTells(tree(i), tree(j), path)
  }

  /** As long as its time of change is known and the same, what was text still is, with the same lines. */
  ghost predicate TimeTells(tree: nat -> Tree, path: Path) {
    forall i, j ::
      && i <= j && path in tree(i) && Valid(tree(i)[path].content) && path in tree(j)
      && tree(i)[path].modified.Some? && tree(j)[path].modified == tree(i)[path].modified
      ==> Valid(tree(j)[path].content) && LineStarts(tree(j)[path].content) == LineStarts(tree(i)[path].content)
  }

  /** So it is of every file whose time changes whenever its lines do. */
  lemma TimeTellsOfChange(tree: nat -> Tree, path: Path)
    requires TimeTells(tree, path)
    ensures StampAlwaysTells(tree, path) && path in Trusted(tree)
  {
  }

  /** It is so of every file that a text was read from. */
  ghost predicate FilesTell(tree: nat -> Tree, s: State) {
    |s.reported| == |s.fromFile|
    && forall k :: 0 <= k < |s.reported| && s.fromFile[k] ==> StampAlwaysTells(tree, s.reported[k].path)
  }

  /** The files of which this is so. */
  ghost function Trusted(tree: nat -> Tree): iset<Path> {
    iset path | StampAlwaysTells(tree, path)
  }

  /** Then every selection reported is the reference server's. */
  lemma TellingFilesAreReported(got: seq<Selection>, s: State, tree: nat -> Tree)
    ensures Alike(got, s, Trusted(tree)) && FilesTell(tree, s) ==> got == s.reported
  {
    if Alike(got, s, Trusted(tree)) && FilesTell(tree, s) {
      AlikeIsEqual(got, s, Trusted(tree));
    }
  }

  /** What is still to come of a session whose reader has this much input left. */
  function Remaining(input: seq<byte>, parse: seq<byte> -> Option<Request>): seq<Request> {
    Inbox(ReadAll(input).0, parse)
  }

  /** `inbox` tells what is still to come of any input. */
  ghost predicate IsInbox(inbox: seq<byte> -> seq<Request>, parse: seq<byte> -> Option<Request>) {
    forall input {:trigger Remaining(input, parse)} :: inbox(input) == Remaining(input, parse)
  }

  lemma RemainingStep(input: seq<byte>, parse: seq<byte> -> Option<Request>)
    ensures !ReadFrame(input).Frame? ==> Remaining(input, parse) == []
    ensures ReadFrame(input).Frame? ==>
              var rest := Remaining(ReadFrame(input).rest, parse);
              Remaining(input, parse)
              == match parse(ReadFrame(input).body)
                 case None => rest
                 case Some(r) => if r.verb.Exit? then [] else [r] + rest
  {
    if ReadFrame(input).Frame? {
      var rest := ReadAll(ReadFrame(input).rest).0;
      assert ReadAll(input).0 == [ReadFrame(input).body] + rest;
      assert ReadAll(input).0[1..] == rest;
    }
  }

  lemma RenderedStep(env: Surroundings, answers: seq<Answer>, more: seq<Answer>)
    ensures AllRendered(env, answers + more) == AllRendered(env, answers) + AllRendered(env, more)
  {
  }

  /** Write the answer to a message, if it gets one. */
  method WriteAnswer(env: Surroundings, r: Request, reply: Reply, writer: FrameWriter)
    requires writer.Valid()
    modifies writer
    ensures writer.Valid() && writer.bodies == old(writer.bodies) + AllRendered(env, AnswersTo(r, reply))
  {
    var id := r.Id();
    if id.Some? && !reply.Silent? {
      writer.WriteFrame(Rendered(env, Answer(id.value, reply)));
    }
  }

  /** Handle one message and write its answer, if it gets one; `want` is what the reference server does. */
  method ServeOne(
    server: Server, r: Request, writer: FrameWriter, fs: FileSystem, ghost s: State, ghost want: (State, Reply),
    ghost trusted: iset<Path>)
    requires server.Valid() && server.Agrees(s) && writer.Valid()
    requires server.Reports(s, trusted) && server.Sound(fs.tree, trusted)
    requires want == Handle(s, server.env, fs.tree, r)
    modifies server, server.tracker, server.documents, server.documents.docs.Values, fs`log, writer
    ensures server.Valid() && server.Agrees(want.0) && server.Reports(want.0, trusted) && writer.Valid()
    ensures fresh(server.documents.docs.Values - old(server.documents.docs.Values))
    ensures (server.documents.disk == old(server.documents.disk)
             && server.documents.diskText == old(server.documents.diskText))
            || server.documents.CachedFrom(fs.tree)
    ensures writer.bodies == old(writer.bodies) + AllRendered(server.env, AnswersTo(r, want.1))
  {
    var reply := server.Route(r, fs, s, want, trusted);
    WriteAnswer(server.env, r, reply, writer);
  }

  /**
    * The next message of the stream, past frames that do not decode; nothing at its end
    * or at `exit`. While the server waits for it the files become `now`.
    */
  method NextRequest(
    reader: FrameReader, body: Buffer, parse: seq<byte> -> Option<Request>, fs: FileSystem, now: Tree)
    returns (r: Option<Request>)
    modifies reader, body, fs`tree
    ensures fs.tree == now
    ensures r.None? ==> Remaining(old(reader.inner), parse) == []
    ensures r.Some? ==> && |reader.inner| < |old(reader.inner)|
                        && Remaining(old(reader.inner), parse) == [r.value] + Remaining(reader.inner, parse)
  {
    fs.tree := now;
    while true
      invariant fs.tree == now
      invariant |reader.inner| <= |old(reader.inner)|
      invariant Remaining(reader.inner, parse) == Remaining(old(reader.inner), parse)
      decreases |reader.inner|
    {
      RemainingStep(reader.inner, parse);
      var more := reader.NextFrame(body);
      if more.Err? || !more.value {
        return None;
      }
      var request := parse(body.bytes);
      if request.None? {
        continue;
      }
      if request.value.verb.Exit? {
        return None;
      }
      return request;
    }
  }

  /** How a session ends: from a state, a number of messages handled, those to come and what is written. */
  type Outcome = (State, nat, seq<Request>, seq<Json>) -> (State, seq<Json>)

  /** The state and all that is written once the messages to come have been handled. */
  function AtTheEnd(
    env: Surroundings, step: Step, s: State, n: nat, left: seq<Request>, written: seq<Json>): (State, seq<Json>)
  {
    var (end, answers) := Session(step, s, n, left);
    (end, written + AllRendered(env, answers))
  }

  /** `outcome` tells how any session of the server `step` ends. */
  ghost predicate IsOutcome(outcome: Outcome, env: Surroundings, step: Step) {
    forall s, n, left, written {:trigger AtTheEnd(env, step, s, n, left, written)} ::
      outcome(s, n, left, written) == AtTheEnd(env, step, s, n, left, written)
  }

  /** Handling one more message, and writing its answers, leaves the outcome what it was. */
  lemma OutcomeStep(
    outcome: Outcome, env: Surroundings, step: Step, s: State, n: nat, r: Request, rest: seq<Request>,
    written: seq<Json>)
    requires IsOutcome(outcome, env, step)
    ensures var (after, reply) := step(s, n, r);
            outcome(after, n + 1, rest, written + AllRendered(env, AnswersTo(r, reply)))
            == outcome(s, n, [r] + rest, written)
  {
    assert ([r] + rest)[1..] == rest;
    var (after, reply) := step(s, n, r);
    var now, later := Session(step, s, n, [r] + rest), Session(step, after, n + 1, rest);
    assert now.0 == later.0 && now.1 == AnswersTo(r, reply) + later.1;
    RenderedStep(env, AnswersTo(r, reply), later.1);
    Associative(written, AllRendered(env, AnswersTo(r, reply)), AllRendered(env, later.1));
    assert AtTheEnd(env, step, after, n + 1, rest, written + AllRendered(env, AnswersTo(r, reply)))
        == AtTheEnd(env, step, s, n, [r] + rest, written);
  }

  lemma OutcomeReached(outcome: Outcome, env: Surroundings, step: Step, s: State, n: nat, written: seq<Json>)
    requires IsOutcome(outcome, env, step)
    ensures outcome(s, n, [], written) == (s, written)
  {
    assert written + AllRendered(env, []) == written;
    assert AtTheEnd(env, step, s, n, [], written) == (s, written);
  }

  /**
    * Before message `n` the server is in state `s` and has reported what it should; the index
    * it remembers, if any, is of a file as it was at message `m`.
    */
  ghost predicate InStep(
    server: Server, writer: FrameWriter, s: State, trusted: iset<Path>, tree: nat -> Tree, m: nat, n: nat)
    reads server, server.tracker, server.documents, server.documents.docs.Values, writer
  {
    && server.Valid() && server.Agrees(s) && server.Reports(s, trusted) && writer.Valid()
    && m <= n && server.documents.CachedFrom(tree(m))
  }

  /**
    * Handle message number `n`, with an index remembered from message `m`; `step` is the
    * reference server, and `rest` is still to come.
    */
  method ServeNth(
    server: Server, r: Request, writer: FrameWriter, fs: FileSystem, tree: nat -> Tree, n: nat,
    ghost step: Step, ghost outcome: Outcome, ghost trusted: iset<Path>,
    ghost s: State, ghost m: nat, ghost rest: seq<Request>)
    returns (ghost after: State, ghost source: nat)
    requires IsReference(step, server.env, tree) && IsOutcome(outcome, server.env, step)
    requires fs.tree == tree(n) && trusted == Trusted(tree)
    requires InStep(server, writer, s, trusted, tree, m, n)
    modifies server, server.tracker, server.documents, server.documents.docs.Values, fs`log, writer
    ensures InStep(server, writer, after, trusted, tree, source, n + 1)
    ensures forall d :: d in server.documents.docs.Values ==> d in old(server.documents.docs.Values) || fresh(d)
    ensures outcome(after, n + 1, rest, writer.bodies) == outcome(s, n, [r] + rest, old(writer.bodies))
  {
    after := step(s, n, r).0;
    server.TellingStampsKeepSound(tree(m), tree(n), trusted);
    ServeOne(server, r, writer, fs, s, step(s, n, r), trusted);
    OutcomeStep(outcome, server.env, step, s, n, r, rest, old(writer.bodies));
    source := if server.documents.CachedFrom(tree(m)) then m else n;
  }

  /** One turn of the loop: wait for a message and handle it, if there is one. */
  method ServeNext(
    server: Server, reader: FrameReader, body: Buffer, parse: seq<byte> -> Option<Request>,
    writer: FrameWriter, fs: FileSystem, tree: nat -> Tree, n: nat,
    ghost step: Step, ghost inbox: seq<byte> -> seq<Request>, ghost outcome: Outcome, ghost trusted: iset<Path>,
    ghost s: State, ghost m: nat)
    returns (goesOn: bool, ghost after: State, ghost source: nat)
    requires IsReference(step, server.env, tree) && IsInbox(inbox, parse) && IsOutcome(outcome, server.env, step)
    requires trusted == Trusted(tree) && InStep(server, writer, s, trusted, tree, m, n)
    modifies server, server.tracker, server.documents, server.documents.docs.Values, reader, body, writer, fs
    ensures InStep(server, writer, after, trusted, tree, source, n + 1)
    ensures forall d :: d in server.documents.docs.Values ==> d in old(server.documents.docs.Values) || fresh(d)
    ensures outcome(s, n, inbox(old(reader.inner)), old(writer.bodies))
         == if goesOn then outcome(after, n + 1, inbox(reader.inner), writer.bodies) else (after, writer.bodies)
    ensures goesOn ==> |reader.inner| < |old(reader.inner)|
  {
    var r := NextRequest(reader, body, parse, fs, tree(n));
    goesOn, after, source := r.Some?, s, m;
    if goesOn {
      after, source := ServeNth(
        server, r.value, writer, fs, tree, n, step, outcome, trusted, s, m, inbox(reader.inner));
    } else {
      OutcomeReached(outcome, server.env, step, s, n, writer.bodies);
    }
  }

  /** The loop of a session. */
  method ServeLoop(
    server: Server, reader: FrameReader, body: Buffer, parse: seq<byte> -> Option<Request>,
    writer: FrameWriter, fs: FileSystem, tree: nat -> Tree,
    ghost step: Step, ghost inbox: seq<byte> -> seq<Request>, ghost outcome: Outcome, ghost trusted: iset<Path>)
    requires IsReference(step, server.env, tree) && IsInbox(inbox, parse) && IsOutcome(outcome, server.env, step)
    requires trusted == Trusted(tree) && InStep(server, writer, INITIAL, trusted, tree, 0, 0)
    requires server.documents.docs == map[]
    modifies server, server.tracker, server.documents, reader, body, writer, fs
    ensures server.Valid() && writer.Valid()
    ensures var (end, written) := outcome(INITIAL, 0, inbox(old(reader.inner)), old(writer.bodies));
            writer.bodies == written && server.Reports(end, trusted)
  {
    ghost var all := outcome(INITIAL, 0, inbox(reader.inner), writer.bodies);
    ghost var s := INITIAL;
    ghost var m: nat := 0;
    var n: nat := 0;
    var goesOn := true;
    while goesOn
      invariant all == if goesOn then outcome(s, n, inbox(reader.inner), writer.bodies) else (s, writer.bodies)
      invariant InStep(server, writer, s, trusted, tree, m, n)
      invariant fresh(server.documents.docs.Values)
      decreases goesOn, |reader.inner|
    {
      goesOn, s, m := ServeNext(
        server, reader, body, parse, writer, fs, tree, n, step, inbox, outcome, trusted, s, m);
      n := n + 1;
    }
  }

  /** From the start, a session ends where the reference server does, with all its answers written. */
  lemma OutcomeOfAll(
    outcome: Outcome, env: Surroundings, step: Step, messages: seq<Request>, tree: nat -> Tree, written: seq<Json>)
    requires IsOutcome(outcome, env, step) && IsReference(step, env, tree)
    ensures var (end, bodies) := outcome(INITIAL, 0, messages, written);
            && end == StateAt(env, messages, tree, |messages|)
            && bodies == written + AllRendered(env, Answers(env, messages, tree, |messages|))
  {
    SessionOfAll(step, env, messages, tree);
    var (end, answers) := Session(step, INITIAL, 0, messages);
    assert AtTheEnd(env, step, INITIAL, 0, messages, written) == (end, written + AllRendered(env, answers));
  }

  /**
    * Serve a stream until it ends, breaks or says `exit`. The answers written are those of
    * the reference server to the messages of the stream. So are the selections reported;
    * only a text read from a file of which a change of lines went unnoticed may differ.
    */
  method ServeStream(
    env: Surroundings, input: seq<byte>, parse: seq<byte> -> Option<Request>,
    writer: FrameWriter, tracker: SelectionTracker, fs: FileSystem, tree: nat -> Tree)
    requires tracker.Valid() && tracker.reported == [] && writer.Valid()
    modifies writer, tracker, fs
    ensures tracker.Valid() && writer.Valid()
    ensures var messages := Remaining(input, parse);
            && writer.bodies == old(writer.bodies) + AllRendered(env, Answers(env, messages, tree, |messages|))
            && Alike(tracker.reported, StateAt(env, messages, tree, |messages|), Trusted(tree))
  {
    var server := new Server(env, tracker);
    var reader := new FrameReader(input);
    var body := new Buffer();
    ghost var step: Step := (s, n: nat, r) => Handle(s, env, tree(n), r);
    ghost var inbox: seq<byte> -> seq<Request> := rest => Remaining(rest, parse);
    ghost var outcome: Outcome := (s, n: nat, left, written) => AtTheEnd(env, step, s, n, left, written);
    ServeLoop(server, reader, body, parse, writer, fs, tree, step, inbox, outcome, Trusted(tree));
    OutcomeOfAll(outcome, env, step, inbox(input), tree, old(writer.bodies));
  }

  /** Everything written back in answer to a stream of messages. */
  function AnswersOnTheWire(env: Surroundings, messages: seq<Request>, tree: nat -> Tree): seq<Json> {
    AllRendered(env, Answers(env, messages, tree, |messages|))
  }

  /**
    * The whole session, from bytes to bytes: whoever reads the output finds the reference
    * server's answers in it, in order and nothing else, unless one is too long to be read.
    * Every selection it reports is the reference server's, and so is its text if no file was
    * needed for it, or one whose stamp tells of every change of lines.
    */
  method ServeLsp(
    env: Surroundings, input: seq<byte>, parse: seq<byte> -> Option<Request>,
    tracker: SelectionTracker, fs: FileSystem, tree: nat -> Tree) returns (output: seq<byte>)
    requires tracker.Valid() && tracker.reported == []
    modifies tracker, fs
    ensures tracker.Valid()
    ensures var messages := Remaining(input, parse);
            var answers := AnswersOnTheWire(env, messages, tree);
            && output == Written(answers)
            && ((forall i :: 0 <= i < |answers| ==> |answers[i]| <= MAX_FRAME_BYTES)
                ==> ReadAll(output) == (answers, true))
            && var end := StateAt(env, messages, tree, |messages|);
            && Alike(tracker.reported, end, Trusted(tree))
            && (FilesTell(tree, end) ==> tracker.reported == end.reported)
  {
    var writer := new FrameWriter();
    ServeStream(env, input, parse, writer, tracker, fs, tree);
    ghost var answers := AnswersOnTheWire(env, Remaining(input, parse), tree);
    assert [] + answers == answers;
    writer.OutputIsWritten();
    ghost var end := StateAt(env, Remaining(input, parse), tree, |Remaining(input, parse)|);
    TellingFilesAreReported(tracker.reported, end, tree);
    if forall i :: 0 <= i < |answers| ==> |answers[i]| <= MAX_FRAME_BYTES {
      writer.OutputReadsBack();
    }
    output := writer.output;
  }
}
