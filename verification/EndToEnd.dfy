/**
  * From the bytes the editor sends to what a client on the other side is sent.
  */
module EndToEnd {
  import opened Prelude
  import opened Utf8
  import opened Positions
  import opened Files
  import opened Documents
  import opened Selections
  import opened Events
  import opened Pipeline
  import opened Delivery
  import L = LspServer
  import R = LspRuns

  // ---- the session and the pipeline as one system ----

  /** All that stays the same: the surroundings, how frames decode, the files over time, the pipeline's setup. */
  datatype Scene = Scene(
    env: L.Surroundings, parse: seq<byte> -> Option<L.Request>, tree: nat -> Tree, setup: Setup)

  /**
    * Something happens: the server gets a frame, or somebody in the pipeline has a turn. `found`
    * is what the server's remembered index would find in the file, should it need one.
    */
  datatype Happening =
    | Arrival(body: seq<byte>, found: seq<byte>)
    | Turn(step: Step)

  /** `over` tells that the editor said `exit`. */
  datatype World = World(server: L.State, served: nat, over: bool, pipeline: System) {
    /** The session goes on. */
    predicate Listens() {
      !over && !pipeline.closed
    }
  }

  /** What the server reports for `want`: a text from a file that may not be trusted can be any. */
  ghost function Told(scene: Scene, s: L.State, want: Selection, found: seq<byte>): Selection {
    if NeedsFile(s.mirror, want.uri, want.range) && want.path !in L.Trusted(scene.tree) then want.(text := found)
    else want
  }

  /** A message is served, and what it makes the server report goes into the pipeline. */
  ghost function Serves(scene: Scene, w: World, message: L.Request, found: seq<byte>): World {
    var after := L.Handle(w.server, scene.env, scene.tree(w.served), message).0;
    World(after, w.served + 1, w.over,
          if |after.reported| <= |w.server.reported| then w.pipeline
          else Next(scene.setup, w.pipeline,
                    Report(Told(scene, w.server, after.reported[|after.reported| - 1], found))))
  }

  /**
    * A frame that does not decode is passed over, and `exit` ends the session; so does
    * dropping the trackers. Nobody but the server reports.
    */
  ghost function Happens(scene: Scene, w: World, h: Happening): World {
    match h
    case Arrival(body, found) =>
      if !w.Listens() then w
      else
        (match scene.parse(body)
         case None => w
         case Some(message) => if message.verb.Exit? then w.(over := true) else Serves(scene, w, message, found))
    case Turn(step) =>
      if step.Report? then w else w.(pipeline := Next(scene.setup, w.pipeline, step))
  }

  ghost function WorldAfter(scene: Scene, run: seq<Happening>): World {
    if run == [] then World(L.INITIAL, 0, false, Initial(scene.setup))
    else
      var n := |run| - 1;
      Happens(scene, WorldAfter(scene, run[..n]), run[n])
  }

  /** The frame read now, if there was one. */
  function FrameRead(w: World, h: Happening): seq<seq<byte>> {
    if h.Arrival? && w.Listens() then [h.body] else []
  }

  /** The frames read, in order. */
  ghost function Arrived(scene: Scene, run: seq<Happening>): seq<seq<byte>> {
    if run == [] then []
    else
      var n := |run| - 1;
      Arrived(scene, run[..n]) + FrameRead(WorldAfter(scene, run[..n]), run[n])
  }

  /** The messages served are those of the session that reads these frames. */
  ghost function Messages(scene: Scene, run: seq<Happening>): seq<L.Request> {
    L.Inbox(Arrived(scene, run), scene.parse)
  }

  ghost predicate NoExit(bodies: seq<seq<byte>>, parse: seq<byte> -> Option<L.Request>) {
    forall k :: 0 <= k < |bodies| && parse(bodies[k]).Some? ==> !parse(bodies[k]).value.verb.Exit?
  }

  /** What an arrival adds to the messages. */
  function MessageIn(body: seq<byte>, parse: seq<byte> -> Option<L.Request>): seq<L.Request> {
    match parse(body)
    case None => []
    case Some(r) => if r.verb.Exit? then [] else [r]
  }

  /** Until `exit`, one more frame is at most one more message. */
  lemma {:induction false} InboxOneMore(
    bodies: seq<seq<byte>>, body: seq<byte>, parse: seq<byte> -> Option<L.Request>)
    requires NoExit(bodies, parse)
    ensures L.Inbox(bodies + [body], parse) == L.Inbox(bodies, parse) + MessageIn(body, parse)
  {
    if bodies == [] {
      assert ([body])[1..] == [];
    } else {
      InboxOneMore(bodies[1..], body, parse);
      assert (bodies + [body])[1..] == bodies[1..] + [body];
      assert (bodies + [body])[0] == bodies[0];
    }
  }

  /** `after` tells where a message takes the server. */
  ghost predicate IsHandled(after: (L.State, nat, L.Request) -> L.State, env: L.Surroundings, tree: nat -> Tree) {
    forall s: L.State, n: nat, r: L.Request {:trigger L.Handle(s, env, tree(n), r)} ::
      after(s, n, r) == L.Handle(s, env, tree(n), r).0
  }

  lemma StateStep(
    after: (L.State, nat, L.Request) -> L.State, env: L.Surroundings, messages: seq<L.Request>, tree: nat -> Tree,
    i: nat, n: nat)
    requires i + 1 == n <= |messages| && IsHandled(after, env, tree)
    ensures L.StateAt(env, messages, tree, n) == after(L.StateAt(env, messages, tree, i), i, messages[i])
  {
  }

  /** The session so far does not depend on the messages to come. */
  lemma {:induction false} StateAtPrefix(
    after: (L.State, nat, L.Request) -> L.State, env: L.Surroundings, messages: seq<L.Request>, message: L.Request,
    tree: nat -> Tree, n: nat)
    requires n <= |messages| && IsHandled(after, env, tree)
    ensures L.StateAt(env, messages + [message], tree, n) == L.StateAt(env, messages, tree, n)
  {
    if 0 < n {
      var i := n - 1;
      StateAtPrefix(after, env, messages, message, tree, i);
      StateStep(after, env, messages, tree, i, n);
      StateStep(after, env, messages + [message], tree, i, n);
    }
  }

  /** A message makes the server report one selection, or none. */
  lemma ReportsAtMostOne(s: L.State, env: L.Surroundings, tree: Tree, message: L.Request)
    ensures var after := L.Handle(s, env, tree, message).0;
            (|after.reported| == |s.reported| && L.SameReports(s, after))
            || (|after.reported| == |s.reported| + 1
                && L.SameReports(s.Reporting(after.reported[|after.reported| - 1]), after))
  {
  }

  lemma ReportedOneMore(updates: seq<Update>, u: Update)
    ensures Reported(updates + [u]) == Reported(updates) + [u.selection]
  {
  }

  /** Some steps bring the pipeline where it is. */
  ghost predicate IsReached(setup: Setup, s: System) {
    exists steps :: After(setup, steps) == s
  }

  lemma OneStepFurther(setup: Setup, s: System, step: Step)
    requires IsReached(setup, s)
    ensures IsReached(setup, Next(setup, s, step))
  {
    var steps :| After(setup, steps) == s;
    AfterOne(setup, steps, step);
    assert After(setup, steps + [step]) == Next(setup, s, step);
  }

  /** Only the editor's server reports into the pipeline. */
  lemma OthersReportNothing(setup: Setup, s: System, step: Step)
    requires !step.Report?
    ensures Next(setup, s, step).updates == s.updates
  {
  }

  /**
    * The world is a session that has served these messages, and a pipeline that some run of
    * its own leads to, told what the session reports.
    */
  ghost predicate IsBoth(scene: Scene, w: World, messages: seq<L.Request>) {
    && w.served == |messages| && w.server == L.StateAt(scene.env, messages, scene.tree, |messages|)
    && IsReached(scene.setup, w.pipeline)
    && L.Alike(Reported(w.pipeline.updates), w.server, L.Trusted(scene.tree))
  }

  /** The server goes on as the session does. */
  lemma {:induction false} SessionGoesOn(scene: Scene, messages: seq<L.Request>, message: L.Request)
    ensures L.StateAt(scene.env, messages + [message], scene.tree, |messages| + 1)
         == L.Handle(L.StateAt(scene.env, messages, scene.tree, |messages|), scene.env, scene.tree(|messages|),
                     message).0
  {
    var n, next := |messages|, |messages| + 1;
    var after := (s, n: nat, r) => L.Handle(s, scene.env, scene.tree(n), r).0;
    StateAtPrefix(after, scene.env, messages, message, scene.tree, n);
    StateStep(after, scene.env, messages + [message], scene.tree, n, next);
  }

  /** And the pipeline is told what that reports. */
  lemma {:induction false} PipelineGoesOn(scene: Scene, w: World, message: L.Request, found: seq<byte>)
    requires !w.pipeline.closed && IsReached(scene.setup, w.pipeline)
    requires L.Alike(Reported(w.pipeline.updates), w.server, L.Trusted(scene.tree))
    ensures var after := Serves(scene, w, message, found);
            && IsReached(scene.setup, after.pipeline)
            && L.Alike(Reported(after.pipeline.updates), after.server, L.Trusted(scene.tree))
  {
    ReportsAtMostOne(w.server, scene.env, scene.tree(w.served), message);
    var reported := L.Handle(w.server, scene.env, scene.tree(w.served), message).0.reported;
    if |w.server.reported| < |reported| {
      var want := reported[|reported| - 1];
      var told := Told(scene, w.server, want, found);
      OneStepFurther(scene.setup, w.pipeline, Report(told));
      ReportedOneMore(w.pipeline.updates, Update(told, w.pipeline.now));
      L.AlikeOneMore(Reported(w.pipeline.updates), w.server, L.Trusted(scene.tree), [told], want);
    }
  }

  lemma {:induction false} ServesKeeps(
    scene: Scene, w: World, messages: seq<L.Request>, message: L.Request, found: seq<byte>)
    requires IsBoth(scene, w, messages) && !w.pipeline.closed
    ensures IsBoth(scene, Serves(scene, w, message, found), messages + [message])
  {
    SessionGoesOn(scene, messages, message);
    PipelineGoesOn(scene, w, message, found);
  }

  lemma {:induction false} ArrivalKeeps(
    scene: Scene, w: World, messages: seq<L.Request>, body: seq<byte>, found: seq<byte>)
    requires IsBoth(scene, w, messages) && w.Listens()
    ensures IsBoth(scene, Happens(scene, w, Arrival(body, found)), messages + MessageIn(body, scene.parse))
  {
    var more := MessageIn(body, scene.parse);
    if more == [] {
      assert messages + more == messages;
    } else {
      ServesKeeps(scene, w, messages, more[0], found);
    }
  }

  lemma {:induction false} TurnKeeps(scene: Scene, w: World, messages: seq<L.Request>, step: Step)
    requires IsBoth(scene, w, messages)
    ensures IsBoth(scene, Happens(scene, w, Turn(step)), messages)
  {
    if !step.Report? {
      OneStepFurther(scene.setup, w.pipeline, step);
      OthersReportNothing(scene.setup, w.pipeline, step);
    }
  }

  /**
    * So it is in every run. With the frames of a whole stream read, the messages are those
    * that `ServeLsp` serves, and what the pipeline was told is what it may report.
    */
  lemma {:induction false} WorldIsBoth(scene: Scene, run: seq<Happening>)
    ensures IsBoth(scene, WorldAfter(scene, run), Messages(scene, run))
    ensures !WorldAfter(scene, run).over ==> NoExit(Arrived(scene, run), scene.parse)
  {
    if run == [] {
      assert After(scene.setup, []) == Initial(scene.setup);
    } else {
      var n := |run| - 1;
      var w, bodies := WorldAfter(scene, run[..n]), Arrived(scene, run[..n]);
      WorldIsBoth(scene, run[..n]);
      match run[n]
      case Arrival(body, found) =>
        if w.Listens() {
          ArrivalKeeps(scene, w, Messages(scene, run[..n]), body, found);
          InboxOneMore(bodies, body, scene.parse);
          assert Arrived(scene, run) == bodies + [body];
        } else {
          assert Arrived(scene, run) == bodies;
        }
      case Turn(step) =>
        TurnKeeps(scene, w, Messages(scene, run[..n]), step);
        assert Arrived(scene, run) == bodies;
    }
  }

  // ---- from the editor to the client ----

  /** Message `i` is the last of the first `n` to make the server report a selection. */
  ghost predicate LastReport(messages: seq<L.Request>, i: nat, n: nat) {
    i < n <= |messages| && R.Reports(messages, i) && forall j :: i < j < n ==> !R.Reports(messages, j)
  }

  lemma {:induction false} LastIsCountedLast(messages: seq<L.Request>, i: nat, n: nat)
    requires LastReport(messages, i, n)
    ensures R.ReportCount(messages, n) == R.ReportCount(messages, i) + 1
  {
    if i + 1 < n {
      LastIsCountedLast(messages, i, n - 1);
    }
  }

  /** At rest, a client that received the newest selection was last sent what was reported last. */
  lemma ClientKnowsTheLast(setup: Setup, s: System, id: nat)
    requires IsReached(setup, s) && AtRest(s) && s.Serves(id) && HasNewest(s.clients[id], s.events.log)
    ensures var reported := Reported(s.updates);
            reported != [] && Newest(s.clients[id].sent) == Some(reported[|reported| - 1])
  {
    var steps :| After(setup, steps) == s;
    IdleIsCurrent(setup, steps);
    HasNewestIsCurrent(setup, steps, id);
  }

  /**
    * The last selection reported is that of message `i`, the pipeline is at rest, and client
    * `id` is connected and has received the newest selection sent since it subscribed, if any.
    */
  ghost predicate HasSettled(s: System, messages: seq<L.Request>, i: nat, id: nat) {
    LastReport(messages, i, |messages|) && AtRest(s) && s.Serves(id) && HasNewest(s.clients[id], s.events.log)
  }

  /** Then what it was last sent is the report of message `i`. */
  lemma {:induction false} SettledIsTold(setup: Setup, s: System, messages: seq<L.Request>, i: nat, id: nat)
    requires IsReached(setup, s) && |s.updates| == R.ReportCount(messages, |messages|)
    requires HasSettled(s, messages, i, id)
    ensures R.ReportCount(messages, i) < |s.updates|
    ensures Newest(s.clients[id].sent) == Some(Reported(s.updates)[R.ReportCount(messages, i)])
  {
    LastIsCountedLast(messages, i, |messages|);
    ClientKnowsTheLast(setup, s, id);
  }

  /**
    * In every run of both sides together: once it has settled, a client was last sent the
    * selection of the last code action, with the text its range selects in the editor's own
    * version of the document; or, for one that is not mirrored, in the file, if its stamp
    * tells of every change of lines.
    */
  lemma {:induction false} WhatIsSelectedReachesTheClient(
    scene: Scene, run: seq<Happening>, i: nat, uri: Url, range: Range, id: nat)
    ensures var s, messages := WorldAfter(scene, run).pipeline, Messages(scene, run);
            HasSettled(s, messages, i, id) && messages[i].params.codeAction == Some((uri, range))
            ==> var told := Newest(s.clients[id].sent);
                told.Some? && R.IsEditorSelection(scene.env, messages, scene.tree, i, uri, range, told.value)
  {
    var w, messages := WorldAfter(scene, run), Messages(scene, run);
    if HasSettled(w.pipeline, messages, i, id) && messages[i].params.codeAction == Some((uri, range)) {
      WorldIsBoth(scene, run);
      R.EveryReportOfASession(scene.env, messages, scene.tree, Reported(w.pipeline.updates), i, uri, range);
      SettledIsTold(scene.setup, w.pipeline, messages, i, id);
    }
  }
}
