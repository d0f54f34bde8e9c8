/**
  * What holds over every LSP session, told in terms of the messages alone.
  */
module LspRuns {
  import opened Prelude
  import opened Positions
  import opened Files
  import opened Documents
  import opened JsonRpc
  import opened Selections
  import opened LspServer

  /** The message has an id to answer to: any but null. */
  predicate HasId(m: Request) {
    m.rawId.Some? && m.rawId.value != NULL
  }

  // ---- lifecycle ----

  /** An `initialize` came before message `n`. */
  predicate Started(messages: seq<Request>, n: nat)
    requires n <= |messages|
  {
    0 < n && (Started(messages, n - 1) || messages[n - 1].verb.Initialize?)
  }

  /** A `shutdown` came before message `n`, and an `initialize` before it. */
  predicate Stopped(messages: seq<Request>, n: nat)
    requires n <= |messages|
  {
    0 < n && (Stopped(messages, n - 1) || (messages[n - 1].verb.Shutdown? && Started(messages, n - 1)))
  }

  /** Message `i` reaches the handlers. */
  predicate Served(messages: seq<Request>, i: nat)
    requires i < |messages|
  {
    && !messages[i].verb.Initialize?
    && Started(messages, i)
    && (Stopped(messages, i) ==> !HasId(messages[i]))
  }

  lemma {:induction false} StartedMeans(messages: seq<Request>, n: nat)
    requires n <= |messages|
    ensures Started(messages, n) <==> exists i :: 0 <= i < n && messages[i].verb.Initialize?
  {
    if 0 < n {
      StartedMeans(messages, n - 1);
    }
  }

  lemma {:induction false} StoppedMeans(messages: seq<Request>, n: nat)
    requires n <= |messages|
    ensures Stopped(messages, n)
       <==> exists i, j :: 0 <= i < j < n && messages[i].verb.Initialize? && messages[j].verb.Shutdown?
  {
    if 0 < n {
      StoppedMeans(messages, n - 1);
      StartedMeans(messages, n - 1);
      if messages[n - 1].verb.Shutdown? && Started(messages, n - 1) {
        var i :| 0 <= i < n - 1 && messages[i].verb.Initialize?;
        assert 0 <= i < n - 1 < n && messages[i].verb.Initialize? && messages[n - 1].verb.Shutdown?;
      }
    }
  }

  lemma {:induction false} StartedStays(messages: seq<Request>, m: nat, n: nat)
    requires m <= n <= |messages|
    ensures Started(messages, m) ==> Started(messages, n)
    ensures Stopped(messages, m) ==> Stopped(messages, n)
    ensures Stopped(messages, n) ==> Started(messages, n)
  {
    if m < n {
      StartedStays(messages, m, n - 1);
    } else if 0 < n {
      StartedStays(messages, n - 1, n - 1);
    }
  }

  /** The flags say exactly which messages came before. */
  lemma {:induction false} FlagsTellHistory(env: Surroundings, messages: seq<Request>, tree: nat -> Tree, n: nat)
    requires n <= |messages|
    ensures StateAt(env, messages, tree, n).initialized <==> Started(messages, n)
    ensures StateAt(env, messages, tree, n).shutDown <==> Stopped(messages, n)
  {
    if 0 < n {
      FlagsTellHistory(env, messages, tree, n - 1);
    }
  }

  /** Before `initialize` nothing is mirrored and nothing reported. */
  lemma {:induction false} UntouchedBeforeInitialize(
    env: Surroundings, messages: seq<Request>, tree: nat -> Tree, n: nat)
    requires n <= |messages| && !Started(messages, n)
    ensures StateAt(env, messages, tree, n).mirror == map[]
    ensures StateAt(env, messages, tree, n).reported == []
  {
    if 0 < n {
      FlagsTellHistory(env, messages, tree, n - 1);
      UntouchedBeforeInitialize(env, messages, tree, n - 1);
    }
  }

  /** Both flags only ever go up, and the second never without the first. */
  lemma FlagsAreMonotone(env: Surroundings, messages: seq<Request>, tree: nat -> Tree, m: nat, n: nat)
    requires m <= n <= |messages|
    ensures StateAt(env, messages, tree, m).initialized ==> StateAt(env, messages, tree, n).initialized
    ensures StateAt(env, messages, tree, m).shutDown ==> StateAt(env, messages, tree, n).shutDown
    ensures StateAt(env, messages, tree, n).shutDown ==> StateAt(env, messages, tree, n).initialized
  {
    FlagsTellHistory(env, messages, tree, m);
    FlagsTellHistory(env, messages, tree, n);
    StartedStays(messages, m, n);
  }

  /** The first `initialize` succeeds, and no other. */
  lemma OnlyFirstInitializeSucceeds(env: Surroundings, messages: seq<Request>, tree: nat -> Tree, i: nat)
    requires i < |messages| && messages[i].verb.Initialize?
    ensures ReplyTo(env, messages, tree, i)
         == if forall k :: 0 <= k < i ==> !messages[k].verb.Initialize? then Result(env.capabilities)
            else REFUSAL
  {
    FlagsTellHistory(env, messages, tree, i);
    StartedMeans(messages, i);
  }

  /** A request after `shutdown` is refused, whatever it asks. */
  lemma RequestsRefusedAfterShutdown(env: Surroundings, messages: seq<Request>, tree: nat -> Tree, i: nat)
    requires i < |messages| && Stopped(messages, i) && HasId(messages[i])
    ensures ReplyTo(env, messages, tree, i) == REFUSAL
    ensures StateAt(env, messages, tree, i + 1) == StateAt(env, messages, tree, i)
  {
    FlagsTellHistory(env, messages, tree, i);
    StartedStays(messages, i, i);
  }

  // ---- replies ----

  /** The methods that are only ever notifications. */
  predicate NotificationOnly(verb: Method) {
    verb.Initialized? || verb.DidOpen? || verb.DidChange? || verb.DidClose? || verb.DidSave?
  }

  /** Message `i` is answered: it has an id, and is not a notification-only method that was served. */
  predicate Answered(messages: seq<Request>, i: nat)
    requires i < |messages|
  {
    HasId(messages[i]) && !(Served(messages, i) && NotificationOnly(messages[i].verb))
  }

  /** The ids of the answered messages among the first `n`, in arrival order. */
  function AnsweredIds(messages: seq<Request>, n: nat): seq<Json>
    requires n <= |messages|
  {
    if n == 0 then []
    else AnsweredIds(messages, n - 1) + if Answered(messages, n - 1) then [messages[n - 1].rawId.value] else []
  }

  function Ids(answers: seq<Answer>): seq<Json> {
    seq(|answers|, i requires 0 <= i < |answers| => answers[i].id)
  }

  lemma SilenceIsExact(env: Surroundings, messages: seq<Request>, tree: nat -> Tree, i: nat)
    requires i < |messages| && HasId(messages[i])
    ensures ReplyTo(env, messages, tree, i).Silent? <==> Served(messages, i) && NotificationOnly(messages[i].verb)
  {
    FlagsTellHistory(env, messages, tree, i);
  }

  predicate IsError(reply: Reply, code: int) {
    reply.Error? && reply.code == code
  }

  /** The reply to a message with an id, told by the messages before it. */
  lemma RepliesAreExact(env: Surroundings, messages: seq<Request>, tree: nat -> Tree, i: nat)
    requires i < |messages| && HasId(messages[i])
    ensures var m, reply, served := messages[i], ReplyTo(env, messages, tree, i), Served(messages, i);
            && (IsError(reply, -32002) <==> !m.verb.Initialize? && !Started(messages, i))
            && (IsError(reply, -32600) <==>
                || (m.verb.Initialize? && Started(messages, i))
                || (!m.verb.Initialize? && Started(messages, i) && Stopped(messages, i))
                || (served && m.verb.CodeAction? && m.params.codeAction.None?))
            && (IsError(reply, -32601) <==> served && (m.verb.Exit? || m.verb.Other?))
            && (m.verb.Other? && IsError(reply, -32601) ==> reply.data == Some(m.verb.name))
            && (reply.Error? ==> (reply.data.Some? ==> m.verb.Other?)
                                 && (IsError(reply, -32002) || IsError(reply, -32600) || IsError(reply, -32601)))
            && (m.verb.Initialize? && !Started(messages, i) ==> reply == Result(env.capabilities))
            && (served && (m.verb.Shutdown? || m.verb.SelectionRange?) ==> reply == Result(Ascii("null")))
            && (served && m.verb.CodeAction? && m.params.codeAction.Some? ==> reply == Result(Ascii("[]")))
            && (reply.Silent? <==> served && NotificationOnly(m.verb))
  {
    NullInBytes();
    EmptyActionsInBytes();
    FlagsTellHistory(env, messages, tree, i);
    StartedStays(messages, i, i);
  }

  /** Answers carry the ids of the answered messages, in order, one each. */
  lemma {:induction false} RepliesCorrespond(env: Surroundings, messages: seq<Request>, tree: nat -> Tree, n: nat)
    requires n <= |messages|
    ensures Ids(Answers(env, messages, tree, n)) == AnsweredIds(messages, n)
    ensures forall k :: 0 <= k < |Answers(env, messages, tree, n)| ==> !Answers(env, messages, tree, n)[k].reply.Silent?
  {
    if 0 < n {
      RepliesCorrespond(env, messages, tree, n - 1);
      var before := Answers(env, messages, tree, n - 1);
      var more := AnswersTo(messages[n - 1], ReplyTo(env, messages, tree, n - 1));
      assert Ids(before + more) == Ids(before) + Ids(more);
      if HasId(messages[n - 1]) {
        SilenceIsExact(env, messages, tree, n - 1);
      }
      assert Ids(more) == if Answered(messages, n - 1) then [messages[n - 1].rawId.value] else [];
    }
  }

  // ---- the mirror ----

  predicate Opens(messages: seq<Request>, i: nat, uri: Url)
    requires i < |messages|
  {
    var m := messages[i];
    Served(messages, i) && m.verb.DidOpen? && m.params.didOpen.Some? && m.params.didOpen.value.0 == uri
  }

  predicate Closes(messages: seq<Request>, i: nat, uri: Url)
    requires i < |messages|
  {
    var m := messages[i];
    Served(messages, i) && m.verb.DidClose? && m.params.didClose.Some? && m.params.didClose.value == uri
  }

  function ChangesTo(messages: seq<Request>, i: nat, uri: Url): seq<Change>
    requires i < |messages|
  {
    var m := messages[i];
    if Served(messages, i) && m.verb.DidChange? && m.params.didChange.Some? && m.params.didChange.value.0 == uri
    then m.params.didChange.value.1
    else []
  }

  /** How the changes of a batch are replayed on a text. */
  type Replay = (Text, seq<Change>) -> Text

  /** `replay` is the plain replacement of one range after another. */
  ghost predicate IsReplay(replay: Replay) {
    forall text, changes {:trigger Replayed(text, changes)} :: replay(text, changes) == Replayed(text, changes)
  }

  /** The text of a document opened at message `k`, with every change since replayed on it. */
  function EditorText(replay: Replay, messages: seq<Request>, k: nat, n: nat, uri: Url): Text
    requires k < n <= |messages| && Opens(messages, k, uri)
    decreases n
  {
    if n == k + 1 then messages[k].params.didOpen.value.1
    else replay(EditorText(replay, messages, k, n - 1, uri), ChangesTo(messages, n - 1, uri))
  }

  /**
    * `uri` was last opened at message `k`, has not been closed since, and its text was
    * within the cap then and after every message since.
    */
  predicate MirroredSince(replay: Replay, messages: seq<Request>, k: nat, n: nat, uri: Url)
    requires n <= |messages|
    decreases n
  {
    && k < n && Opens(messages, k, uri)
    && |EditorText(replay, messages, k, n, uri)| <= MAX_CACHED_BYTES
    && (k + 1 < n ==> && MirroredSince(replay, messages, k, n - 1, uri)
                      && !Opens(messages, n - 1, uri) && !Closes(messages, n - 1, uri))
  }

  /** What holds of a mirrored document now held after every message since it was opened. */
  lemma {:induction false} MirroredThroughout(replay: Replay, messages: seq<Request>, k: nat, j: nat, n: nat, uri: Url)
    requires k < j <= n <= |messages| && MirroredSince(replay, messages, k, n, uri)
    ensures MirroredSince(replay, messages, k, j, uri)
    ensures Opens(messages, k, uri) && |EditorText(replay, messages, k, j, uri)| <= 4 * 1024 * 1024
    ensures k + 1 < j ==> !Opens(messages, j - 1, uri) && !Closes(messages, j - 1, uri)
    decreases n
  {
    if j < n {
      MirroredThroughout(replay, messages, k, j, n - 1, uri);
    }
  }

  /** And that is all it says. */
  lemma {:induction false} MirroredIfThroughout(replay: Replay, messages: seq<Request>, k: nat, n: nat, uri: Url)
    requires k < n <= |messages| && Opens(messages, k, uri)
    requires forall j :: k < j < n ==> !Opens(messages, j, uri) && !Closes(messages, j, uri)
    requires forall j :: k < j <= n ==> |EditorText(replay, messages, k, j, uri)| <= 4 * 1024 * 1024
    ensures MirroredSince(replay, messages, k, n, uri)
    decreases n
  {
    if k + 1 < n {
      MirroredIfThroughout(replay, messages, k, n - 1, uri);
    }
  }

  ghost predicate Mirrored(replay: Replay, messages: seq<Request>, n: nat, uri: Url)
    requires n <= |messages|
  {
    exists k :: MirroredSince(replay, messages, k, n, uri)
  }

  /** What one message does to the mirror, seen from one document. */
  ghost predicate IsMirrorStep(
    replay: Replay, messages: seq<Request>, i: nat, before: Mirror, after: Mirror, uri: Url)
    requires i < |messages|
  {
    if Opens(messages, i, uri) then
      var text := messages[i].params.didOpen.value.1;
      (uri in after <==> |text| <= MAX_CACHED_BYTES) && (uri in after ==> after[uri] == text)
    else if Closes(messages, i, uri) then uri !in after
    else if uri !in before then uri !in after
    else
      var text := replay(before[uri], ChangesTo(messages, i, uri));
      && (|text| <= MAX_CACHED_BYTES ==> uri in after && after[uri] == text)
      && (MAX_CACHED_BYTES < |text| ==> uri !in after || (after[uri] == text == before[uri]))
  }

  /** Only the three served document notifications touch the mirror. */
  lemma MirrorAfter(env: Surroundings, messages: seq<Request>, tree: nat -> Tree, i: nat)
    requires i < |messages|
    ensures var before, after := StateAt(env, messages, tree, i).mirror, StateAt(env, messages, tree, i + 1).mirror;
            var m := messages[i];
            if !Served(messages, i) then after == before
            else if m.verb.DidOpen? && m.params.didOpen.Some? then
              after == Opened(before, m.params.didOpen.value.0, m.params.didOpen.value.1)
            else if m.verb.DidChange? && m.params.didChange.Some? then
              after == Changed(before, m.params.didChange.value.0, m.params.didChange.value.1)
            else if m.verb.DidClose? && m.params.didClose.Some? then
              after == Closed(before, m.params.didClose.value)
            else after == before
  {
    FlagsTellHistory(env, messages, tree, i);
  }

  lemma MirrorStep(
    replay: Replay, env: Surroundings, messages: seq<Request>, tree: nat -> Tree, i: nat, uri: Url)
    requires i < |messages| && IsReplay(replay)
    ensures IsMirrorStep(replay, messages, i, StateAt(env, messages, tree, i).mirror,
                         StateAt(env, messages, tree, i + 1).mirror, uri)
  {
    MirrorAfter(env, messages, tree, i);
    var before := StateAt(env, messages, tree, i).mirror;
    if uri in before {
      var changes := ChangesTo(messages, i, uri);
      assert replay(before[uri], changes) == Replayed(before[uri], changes);
    }
  }

  /** `mirror` goes through the messages one step at a time, from nothing. */
  ghost predicate IsMirrorRun(replay: Replay, messages: seq<Request>, mirror: nat -> Mirror, uri: Url) {
    && uri !in mirror(0)
    && forall i, n {:trigger mirror(i), mirror(n)} ::
         0 <= i < |messages| && n == i + 1 ==> IsMirrorStep(replay, messages, i, mirror(i), mirror(n), uri)
  }

  lemma SinceForward(replay: Replay, messages: seq<Request>, k: nat, n: nat, uri: Url)
    requires 0 < n <= |messages| && MirroredSince(replay, messages, k, n - 1, uri)
    requires !Opens(messages, n - 1, uri) && !Closes(messages, n - 1, uri)
    requires |replay(EditorText(replay, messages, k, n - 1, uri), ChangesTo(messages, n - 1, uri))| <= MAX_CACHED_BYTES
    ensures MirroredSince(replay, messages, k, n, uri)
  {
  }

  lemma SinceBackward(replay: Replay, messages: seq<Request>, k: nat, n: nat, uri: Url)
    requires 0 < n <= |messages| && MirroredSince(replay, messages, k, n, uri)
    ensures k == n - 1 ==>
              && Opens(messages, n - 1, uri)
              && EditorText(replay, messages, k, n, uri) == messages[n - 1].params.didOpen.value.1
    ensures k < n - 1 ==>
              && MirroredSince(replay, messages, k, n - 1, uri)
              && !Opens(messages, n - 1, uri) && !Closes(messages, n - 1, uri)
              && EditorText(replay, messages, k, n, uri)
                 == replay(EditorText(replay, messages, k, n - 1, uri), ChangesTo(messages, n - 1, uri))
    ensures k <= n - 1 && |EditorText(replay, messages, k, n, uri)| <= MAX_CACHED_BYTES
  {
  }

  lemma {:induction false} RunIsEditor(
    replay: Replay, messages: seq<Request>, mirror: nat -> Mirror, n: nat, uri: Url)
    requires n <= |messages| && IsMirrorRun(replay, messages, mirror, uri)
    ensures uri in mirror(n) ==> |mirror(n)[uri]| <= MAX_CACHED_BYTES
    ensures uri in mirror(n) <==> Mirrored(replay, messages, n, uri)
    ensures forall k :: MirroredSince(replay, messages, k, n, uri)
                        ==> uri in mirror(n) && mirror(n)[uri] == EditorText(replay, messages, k, n, uri)
  {
    if 0 < n {
      RunIsEditor(replay, messages, mirror, n - 1, uri);
      assert IsMirrorStep(replay, messages, n - 1, mirror(n - 1), mirror(n), uri);
      forall k: nat | MirroredSince(replay, messages, k, n, uri)
        ensures uri in mirror(n) && mirror(n)[uri] == EditorText(replay, messages, k, n, uri)
      {
        SinceBackward(replay, messages, k, n, uri);
      }
      if uri in mirror(n) {
        if Opens(messages, n - 1, uri) {
          assert MirroredSince(replay, messages, n - 1, n, uri);
        } else {
          var k: nat :| MirroredSince(replay, messages, k, n - 1, uri);
          SinceForward(replay, messages, k, n, uri);
        }
      }
    }
  }

  /**
    * A document is mirrored exactly when it was opened, not closed since, and never
    * over the cap since it was last opened; and then its text is the plain replay of
    * the edits since.
    */
  lemma MirrorIsEditor(
    replay: Replay, env: Surroundings, messages: seq<Request>, tree: nat -> Tree, n: nat, uri: Url)
    requires n <= |messages| && IsReplay(replay)
    ensures uri in StateAt(env, messages, tree, n).mirror <==> Mirrored(replay, messages, n, uri)
    ensures forall k :: MirroredSince(replay, messages, k, n, uri)
                        ==> && uri in StateAt(env, messages, tree, n).mirror
                            && StateAt(env, messages, tree, n).mirror[uri] == EditorText(replay, messages, k, n, uri)
    ensures uri in StateAt(env, messages, tree, n).mirror
            ==> |StateAt(env, messages, tree, n).mirror[uri]| <= MAX_CACHED_BYTES
  {
    var mirror := (i: nat) => if i <= |messages| then StateAt(env, messages, tree, i).mirror else map[];
    forall i | 0 <= i < |messages|
      ensures IsMirrorStep(replay, messages, i, mirror(i), mirror(i + 1), uri)
    {
      MirrorStep(replay, env, messages, tree, i, uri);
    }
    assert IsMirrorRun(replay, messages, mirror, uri);
    RunIsEditor(replay, messages, mirror, n, uri);
    assert mirror(n) == StateAt(env, messages, tree, n).mirror;
  }

  // ---- what is reported ----

  /** Message `i` makes the server report a selection. */
  predicate Reports(messages: seq<Request>, i: nat)
    requires i < |messages|
  {
    Served(messages, i) && messages[i].verb.CodeAction? && messages[i].params.codeAction.Some?
  }

  /** How many of the first `n` messages do. */
  function ReportCount(messages: seq<Request>, n: nat): nat
    requires n <= |messages|
  {
    if n == 0 then 0 else ReportCount(messages, n - 1) + if Reports(messages, n - 1) then 1 else 0
  }

  /**
    * A served code action reports one selection, with the text its range selects in
    * the editor's document, or in the file when the document is not mirrored.
    */
  lemma ReportedTextIsEditorText(
    replay: Replay, env: Surroundings, messages: seq<Request>, tree: nat -> Tree, i: nat, uri: Url, range: Range)
    requires i < |messages| && Served(messages, i) && IsReplay(replay)
    requires messages[i].verb.CodeAction? && messages[i].params.codeAction == Some((uri, range))
    ensures var before, after := StateAt(env, messages, tree, i), StateAt(env, messages, tree, i + 1);
            && |after.reported| == |before.reported| + 1 && before.reported <= after.reported
            && var s := after.reported[|before.reported|];
            && s.uri == uri && s.range == range && s.path == env.pathOf(uri)
            && (!Mirrored(replay, messages, i, uri) ==> s.text == ColdRead(tree(i), s.path, range))
            && (forall k :: MirroredSince(replay, messages, k, i, uri)
                            ==> s.text == Selected(EditorText(replay, messages, k, i, uri), range))
            && after.fromFile
               == before.fromFile + [!Mirrored(replay, messages, i, uri) && range.start != range.end]
  {
    FlagsTellHistory(env, messages, tree, i);
    MirrorIsEditor(replay, env, messages, tree, i, uri);
  }

  /** Nothing else reports. */
  lemma OnlyCodeActionsReport(env: Surroundings, messages: seq<Request>, tree: nat -> Tree, i: nat)
    requires i < |messages| && !Reports(messages, i)
    ensures SameReports(StateAt(env, messages, tree, i), StateAt(env, messages, tree, i + 1))
  {
    FlagsTellHistory(env, messages, tree, i);
  }

  /** At most `more` was reported in between, and nothing forgotten. */
  predicate Grows(s: State, t: State, more: nat) {
    && s.reported <= t.reported && |t.reported| == |s.reported| + more
    && s.fromFile <= t.fromFile && |t.fromFile| == |s.fromFile| + more
  }

  function ReportsOf(messages: seq<Request>, i: nat): nat
    requires i < |messages|
  {
    if Reports(messages, i) then 1 else 0
  }

  lemma ReportIsAdded(env: Surroundings, messages: seq<Request>, tree: nat -> Tree, i: nat)
    requires i < |messages|
    ensures Grows(StateAt(env, messages, tree, i), StateAt(env, messages, tree, i + 1), ReportsOf(messages, i))
  {
    if Reports(messages, i) {
      FlagsTellHistory(env, messages, tree, i);
    } else {
      OnlyCodeActionsReport(env, messages, tree, i);
    }
  }

  lemma {:induction false} GrowsAlong(messages: seq<Request>, state: nat -> State, m: nat, n: nat)
    requires m <= n <= |messages|
    requires forall i, j {:trigger state(i), state(j)} ::
               0 <= i < |messages| && j == i + 1 ==> Grows(state(i), state(j), ReportsOf(messages, i))
    ensures ReportCount(messages, m) <= ReportCount(messages, n)
    ensures Grows(state(m), state(n), ReportCount(messages, n) - ReportCount(messages, m))
  {
    if m < n {
      var i: nat := n - 1;
      GrowsAlong(messages, state, m, i);
      assert Grows(state(i), state(n), ReportsOf(messages, i));
    }
  }

  /** There is one report for each message that makes one, and what was reported stays so. */
  lemma ReportsAreCounted(env: Surroundings, messages: seq<Request>, tree: nat -> Tree, m: nat, n: nat)
    requires m <= n <= |messages|
    ensures ReportCount(messages, m) <= ReportCount(messages, n)
    ensures Grows(StateAt(env, messages, tree, m), StateAt(env, messages, tree, n),
                  ReportCount(messages, n) - ReportCount(messages, m))
    ensures |StateAt(env, messages, tree, m).reported| == ReportCount(messages, m)
    ensures |StateAt(env, messages, tree, m).fromFile| == ReportCount(messages, m)
  {
    var state := (i: nat) => if i <= |messages| then StateAt(env, messages, tree, i) else INITIAL;
    forall i | 0 <= i < |messages|
      ensures Grows(state(i), state(i + 1), ReportsOf(messages, i))
    {
      ReportIsAdded(env, messages, tree, i);
    }
    GrowsAlong(messages, state, m, n);
    GrowsAlong(messages, state, 0, m);
    assert state(0) == INITIAL && state(m) == StateAt(env, messages, tree, m);
    assert state(n) == StateAt(env, messages, tree, n);
  }

  lemma CodeActionReports(
    env: Surroundings, messages: seq<Request>, tree: nat -> Tree, i: nat, uri: Url, range: Range)
    requires i < |messages| && Reports(messages, i) && messages[i].params.codeAction == Some((uri, range))
    ensures var before := StateAt(env, messages, tree, i);
            SameReports(before.Reporting(SelectionAt(before, env, tree(i), uri, range)),
                        StateAt(env, messages, tree, i + 1))
  {
    FlagsTellHistory(env, messages, tree, i);
  }

  /** The report of a code action is where it should be, and what had to be read for it. */
  lemma ReportAt(
    replay: Replay, env: Surroundings, messages: seq<Request>, tree: nat -> Tree, n: nat, i: nat,
    uri: Url, range: Range)
    requires i < n <= |messages| && IsReplay(replay)
    requires Reports(messages, i) && messages[i].params.codeAction == Some((uri, range))
    ensures var k, s := ReportCount(messages, i), StateAt(env, messages, tree, n);
            && k < |s.reported| == |s.fromFile|
            && s.reported[k] == SelectionAt(StateAt(env, messages, tree, i), env, tree(i), uri, range)
            && (s.fromFile[k] <==> !Mirrored(replay, messages, i, uri) && range.start != range.end)
  {
    ReportsAreCounted(env, messages, tree, i, n);
    ReportsAreCounted(env, messages, tree, i + 1, n);
    CodeActionReports(env, messages, tree, i, uri, range);
    MirrorIsEditor(replay, env, messages, tree, i, uri);
  }

  /**
    * What any server reports that is like the reference server but for files it may not trust.
    * There is one selection for each code action served, with its uri, range and path. Its
    * text is empty for a bare cursor, and what the range selects in the editor's document for
    * one that is mirrored, whatever has become of the files. For any other it is what the
    * file holds, if that one can be trusted.
    */
  lemma EveryReport(
    replay: Replay, env: Surroundings, messages: seq<Request>, tree: nat -> Tree, n: nat,
    got: seq<Selection>, trusted: iset<Path>, i: nat, uri: Url, range: Range)
    requires i < n <= |messages| && IsReplay(replay) && Alike(got, StateAt(env, messages, tree, n), trusted)
    requires Reports(messages, i) && messages[i].params.codeAction == Some((uri, range))
    ensures |got| == ReportCount(messages, n) && ReportCount(messages, i) < |got|
    ensures var s := got[ReportCount(messages, i)];
            && s.uri == uri && s.range == range && s.path == env.pathOf(uri)
            && (range.start == range.end ==> s.text == [])
            && (forall k :: MirroredSince(replay, messages, k, i, uri)
                            ==> s.text == Selected(EditorText(replay, messages, k, i, uri), range))
            && (!Mirrored(replay, messages, i, uri) && s.path in trusted ==> s.text == ColdRead(tree(i), s.path, range))
  {
    ReportsAreCounted(env, messages, tree, n, n);
    ReportAt(replay, env, messages, tree, n, i, uri, range);
    MirrorIsEditor(replay, env, messages, tree, i, uri);
    if range.start == range.end {
      BareCursorSelectsNothing(StateAt(env, messages, tree, i).mirror, tree(i), uri, env.pathOf(uri), range);
    }
  }

  // ---- the same, with nothing left open ----

  /** One range replaced after another. */
  const PLAIN: Replay := (text, changes) => Replayed(text, changes)

  /** `MirrorIsEditor`, for plain replacement. */
  lemma MirrorIsPlainReplay(env: Surroundings, messages: seq<Request>, tree: nat -> Tree, n: nat, uri: Url)
    requires n <= |messages|
    ensures uri in StateAt(env, messages, tree, n).mirror <==> Mirrored(PLAIN, messages, n, uri)
    ensures forall k :: MirroredSince(PLAIN, messages, k, n, uri)
                        ==> && uri in StateAt(env, messages, tree, n).mirror
                            && StateAt(env, messages, tree, n).mirror[uri] == EditorText(PLAIN, messages, k, n, uri)
  {
    MirrorIsEditor(PLAIN, env, messages, tree, n, uri);
  }

  /** What there should be reported when message `i` selected this range. */
  ghost predicate IsEditorSelection(
    env: Surroundings, messages: seq<Request>, tree: nat -> Tree, i: nat, uri: Url, range: Range, s: Selection)
    requires i < |messages|
  {
    && s.uri == uri && s.range == range && s.path == env.pathOf(uri)
    && (range.start == range.end ==> s.text == [])
    && (forall k :: MirroredSince(PLAIN, messages, k, i, uri)
                    ==> s.text == Selected(EditorText(PLAIN, messages, k, i, uri), range))
    && (!Mirrored(PLAIN, messages, i, uri) && StampAlwaysTells(tree, s.path)
        ==> s.text == ColdRead(tree(i), s.path, range))
  }

  /** `EveryReport`, for plain replacement and a whole session. */
  lemma EveryReportOfASession(
    env: Surroundings, messages: seq<Request>, tree: nat -> Tree, got: seq<Selection>, i: nat, uri: Url, range: Range)
    requires i < |messages| && Alike(got, StateAt(env, messages, tree, |messages|), Trusted(tree))
    requires Reports(messages, i) && messages[i].params.codeAction == Some((uri, range))
    ensures |got| == ReportCount(messages, |messages|) && ReportCount(messages, i) < |got|
    ensures IsEditorSelection(env, messages, tree, i, uri, range, got[ReportCount(messages, i)])
  {
    EveryReport(PLAIN, env, messages, tree, |messages|, got, Trusted(tree), i, uri, range);
  }
}
