/**
  * The two views of a client agree: what a client of the pipeline sees is a conversation
  * of a connection with a bus on which others publish.
  */
module Refinement {
  import opened Prelude
  import opened Selections
  import opened Events
  import opened Pipeline
  import opened Delivery
  import opened McpConnection

  /** A conversation at its first turn: subscribed some time ago, and just greeted. */
  ghost predicate HasBegun(t: Talk) {
    && t.goesOn && t.events.receivers != {} && t.heard == []
    && McpConnection.Forwards(t) && Answers(t) && Consistent(t.client, t.events)
    && t.client.replay.Read? && t.client.replay.latest == t.latest && t.client.next == t.client.from
  }

  /**
    * The connection stands where client `id` of the pipeline does, and the bus carried the same
    * for both. Between the two halves of a publication the cell of the pipeline is ahead.
    */
  ghost predicate Sees(t: Talk, s: System, id: nat) {
    && s.Serves(id) && t.goesOn && t.events.receivers != {}
    && t.client == s.clients[id]
    && t.events.log == s.events.log && t.events.capacity == s.events.capacity
    && (!s.stage.Sending? ==> t.latest == s.latest)
  }

  /** Some conversation gets this far. */
  ghost predicate IsReached(t: Talk) {
    exists start, arms :: HasBegun(start) && t == AfterTurns(start, arms, |arms|)
  }

  ghost predicate IsTalk(s: System, id: nat) {
    exists t :: IsReached(t) && Sees(t, s, id)
  }

  lemma {:induction false} TurnsOfPrefix(t: Talk, arms: seq<Arm>, arm: Arm, n: nat)
    requires n <= |arms|
    ensures AfterTurns(t, arms + [arm], n) == AfterTurns(t, arms, n)
  {
    if 0 < n {
      TurnsOfPrefix(t, arms, arm, n - 1);
    }
  }

  lemma LastTurn(t: Talk, arms: seq<Arm>, i: nat, n: nat)
    requires i + 1 == n == |arms|
    ensures AfterTurns(t, arms, n) == AfterTurn(AfterTurns(t, arms, i), arms[i])
  {
  }

  /** One more turn. */
  lemma {:induction false} OneMoreTurn(start: Talk, arms: seq<Arm>, arm: Arm, more: seq<Arm>)
    requires HasBegun(start) && more == arms + [arm]
    ensures IsReached(AfterTurn(AfterTurns(start, arms, |arms|), arm))
  {
    TurnsOfPrefix(start, arms, arm, |arms|);
    LastTurn(start, more, |arms|, |more|);
  }

  lemma ConversationGoesOn(t: Talk, arm: Arm)
    requires IsReached(t)
    ensures IsReached(AfterTurn(t, arm))
  {
    var start, arms :| HasBegun(start) && t == AfterTurns(start, arms, |arms|);
    OneMoreTurn(start, arms, arm, arms + [arm]);
  }

  /** What the client has a turn for, seen from its connection. */
  function ArmOf(s: System, step: Step, id: nat): Option<Arm> {
    match step
    case Forward(client) => if client == id && s.IsFree(id) then Some(EventReady) else None
    case Send => if s.stage.Sending? then Some(Elsewhere(SelectionChanged(s.stage.selection))) else None
    case SendMention(client) =>
      if client in s.asking then Some(Elsewhere(AtMentioned(s.asking[client]))) else None
    case _ => None
  }

  lemma SeesForward(t: Talk, s: System, id: nat)
    requires Sees(t, s, id) && s.IsFree(id)
    ensures Sees(AfterTurn(t, EventReady), Pushed(s, id), id)
  {
    assert t.events.Poll(t.client.next) == s.events.Poll(t.client.next);
  }

  /** Whatever anybody does, the connection can follow, in one turn or none. */
  lemma SeesStep(setup: Setup, t: Talk, s: System, step: Step, id: nat)
    requires CellMatches(s) && Sees(t, s, id) && Next(setup, s, step).Serves(id)
    ensures var arm := ArmOf(s, step, id);
            Sees(if arm.Some? then AfterTurn(t, arm.value) else t, Next(setup, s, step), id)
  {
    match step
    case Forward(client) =>
      if client == id && s.IsFree(id) {
        SeesForward(t, s, id);
      }
    case _ =>
  }

  lemma GreetedForwards(latest: Option<Selection>) returns (frames: seq<Frame>)
    ensures EventsOf(frames) == Greeting(latest) && ResponsesOf(frames) == []
  {
    frames := [];
    if latest.Some? {
      OneMore([], Notification(SelectionChanged(latest.value)));
      frames := [] + [Notification(SelectionChanged(latest.value))];
    }
  }

  /** A client that is greeted begins a conversation. */
  lemma GreetBegins(s: System, u: System, id: nat)
    requires s.IsLive(id) && s.clients[id].replay.NotRead? && u == Welcomed(s, id)
    requires Consistent(s.clients[id], s.events) && Consistent(u.clients[id], u.events)
    ensures IsTalk(u, id)
  {
    var frames := GreetedForwards(s.latest);
    var t := Talk(u.clients[id], frames, u.events, s.latest, [], true);
    assert HasBegun(t);
    var arms: seq<Arm> := [];
    assert t == AfterTurns(t, arms, |arms|);
    assert IsReached(t) && Sees(t, u, id);
  }

  lemma ClientsAreConsistent(s: System, id: nat)
    requires ClientsKeep(s) && id < |s.clients|
    ensures Consistent(s.clients[id], s.events)
  {
  }

  lemma TalkFollows(setup: Setup, s: System, step: Step, id: nat)
    requires CellMatches(s) && IsTalk(s, id) && Next(setup, s, step).Serves(id)
    ensures IsTalk(Next(setup, s, step), id)
  {
    var t :| IsReached(t) && Sees(t, s, id);
    SeesStep(setup, t, s, step, id);
    var arm := ArmOf(s, step, id);
    if arm.Some? {
      ConversationGoesOn(t, arm.value);
    }
  }

  lemma TalkStep(setup: Setup, s: System, step: Step, id: nat)
    requires CellMatches(s) && ClientsKeep(s) && ClientsKeep(Next(setup, s, step))
    requires (s.Serves(id) ==> IsTalk(s, id)) && Next(setup, s, step).Serves(id)
    ensures IsTalk(Next(setup, s, step), id)
  {
    if s.Serves(id) {
      TalkFollows(setup, s, step, id);
    } else {
      OnlyGreetingServes(setup, s, step, id);
      ClientsAreConsistent(s, id);
      ClientsAreConsistent(Welcomed(s, id), id);
      GreetBegins(s, Welcomed(s, id), id);
    }
  }

  lemma OnlyGreetingServes(setup: Setup, s: System, step: Step, id: nat)
    requires !s.Serves(id) && Next(setup, s, step).Serves(id)
    ensures step == Greet(id) && s.IsLive(id) && s.clients[id].replay.NotRead?
  {
  }

  /** Every client that is served is in a conversation. */
  ghost predicate AllTalk(s: System) {
    forall id: nat :: s.Serves(id) ==> IsTalk(s, id)
  }

  lemma ClientsTalk(setup: Setup, steps: seq<Step>)
    ensures AllTalk(After(setup, steps))
  {
    var keeps := (s: System) => ClientsKeep(s) && AllTalk(s);
    forall s: System, step: Step | CellMatches(s) && keeps(s)
      ensures keeps(Next(setup, s, step))
    {
      ClientsStep(setup, s, step);
      forall id: nat | Next(setup, s, step).Serves(id)
        ensures IsTalk(Next(setup, s, step), id)
      {
        TalkStep(setup, s, step, id);
      }
    }
    EveryRunWithTask(keeps, setup, steps);
  }

  /** This conversation ends where the client stands, and put on its socket what the client was sent. */
  ghost predicate IsServedBy(s: System, id: nat, t: Talk, arms: seq<Arm>) {
    && HasBegun(t) && Sees(AfterTurns(t, arms, |arms|), s, id)
    && EventsOf(AfterTurns(t, arms, |arms|).frames) == s.clients[id].sent
  }

  /** After every run, each client that is served is so by some conversation, begun when it was greeted. */
  lemma ClientsAreConnections(setup: Setup, steps: seq<Step>, id: nat)
    requires After(setup, steps).Serves(id)
    ensures exists t, arms :: IsServedBy(After(setup, steps), id, t, arms)
  {
    ClientsTalk(setup, steps);
    var now :| IsReached(now) && Sees(now, After(setup, steps), id);
    var t, arms :| HasBegun(t) && now == AfterTurns(t, arms, |arms|);
    ConversationsForward(t, arms, |arms|);
    assert IsServedBy(After(setup, steps), id, t, arms);
  }
}
