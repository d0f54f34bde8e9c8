/**
  * One connected client: its requests are answered and the events of the bus are
  * pushed to it, over the same socket.
  */
module McpConnection {
  import opened Prelude
  import opened JsonRpc
  import opened Selections
  import opened Events
  import opened McpProtocol

  /** What goes out on the socket. */
  datatype Frame =
    | Notification(event: Event)
    | Reply(response: Response)
    /** close code 1001, going away */
    | GoingAway

  /** What the connection loop is woken by; or, meanwhile, what somebody else publishes on the bus. */
  datatype Arm =
    | Cancelled
    | Incoming(message: Message)
    | Hangup
    | EventReady
    | Elsewhere(event: Event)

  function Replies(responses: seq<Response>): seq<Frame> {
    seq(|responses|, i requires 0 <= i < |responses| => Reply(responses[i]))
  }

  // ---- the reference connection ----

  /** How far a connection has come; `heard` are the messages handled. */
  datatype Talk = Talk(
    client: Client, frames: seq<Frame>, events: Channel, latest: Option<Selection>, heard: seq<Message>, goesOn: bool)

  /** The latest selection, once this was published too. */
  function Later(latest: Option<Selection>, event: Event): Option<Selection> {
    match event
    case SelectionChanged(selection) => Some(selection)
    case AtMentioned(_) => latest
  }

  /** What this arm makes the bus carry. */
  function Said(latest: Option<Selection>, arm: Arm): seq<Event> {
    match arm
    case Elsewhere(event) => [event]
    case Incoming(m) => if AsksForMention(m) && latest.Some? then [AtMentioned(MentionOf(latest.value))] else []
    case _ => []
  }

  function Asking(events: Channel, m: Message, latest: Option<Selection>): Channel {
    if AsksForMention(m) && latest.Some? then events.Send(AtMentioned(MentionOf(latest.value))) else events
  }

  function AfterMessage(t: Talk, m: Message): Talk {
    t.(frames := t.frames + Replies(Responses(m)), events := Asking(t.events, m, t.latest),
       heard := t.heard + [m], goesOn := !m.Broken?)
  }

  function AfterEvent(t: Talk): Talk {
    var pushed := t.(client := t.client.Forwarded(t.events));
    match t.events.Poll(t.client.next)
    case Received(event) => pushed.(frames := t.frames + [Notification(event)])
    case _ => pushed
  }

  /** One turn of the loop, as long as it goes on. */
  function AfterTurn(t: Talk, arm: Arm): Talk {
    if !t.goesOn then t
    else
      match arm
      case Cancelled => t.(frames := t.frames + [GoingAway], goesOn := false)
      case Incoming(m) => AfterMessage(t, m)
      case Hangup => t.(goesOn := false)
      case EventReady => AfterEvent(t)
      case Elsewhere(event) => t.(events := t.events.Send(event), latest := Later(t.latest, event))
  }

  /** The first `n` turns. */
  function AfterTurns(t: Talk, arms: seq<Arm>, n: nat): Talk
    requires n <= |arms|
  {
    if n == 0 then t else AfterTurn(AfterTurns(t, arms, n - 1), arms[n - 1])
  }

  lemma {:induction false} NothingOnceStopped(t: Talk, arms: seq<Arm>, i: nat, n: nat)
    requires i <= n <= |arms| && !AfterTurns(t, arms, i).goesOn
    ensures AfterTurns(t, arms, n) == AfterTurns(t, arms, i)
  {
    if i < n {
      NothingOnceStopped(t, arms, i, n - 1);
    }
  }

  /** What holds at first, and which every turn keeps, holds all along. */
  lemma {:induction false} AllAlong(keeps: Talk -> bool, t: Talk, arms: seq<Arm>, n: nat)
    requires n <= |arms| && keeps(t)
    requires forall u: Talk, arm: Arm {:trigger AfterTurn(u, arm)} :: keeps(u) ==> keeps(AfterTurn(u, arm))
    ensures keeps(AfterTurns(t, arms, n))
  {
    if 0 < n {
      AllAlong(keeps, t, arms, n - 1);
    }
  }

  // ---- what the client is sent ----

  /** The events among some frames. */
  function EventsOf(frames: seq<Frame>): seq<Event> {
    if frames == [] then []
    else
      var n := |frames| - 1;
      EventsOf(frames[..n]) + if frames[n].Notification? then [frames[n].event] else []
  }

  /** The responses among some frames. */
  function ResponsesOf(frames: seq<Frame>): seq<Response> {
    if frames == [] then []
    else
      var n := |frames| - 1;
      ResponsesOf(frames[..n]) + if frames[n].Reply? then [frames[n].response] else []
  }

  lemma OneMore(frames: seq<Frame>, frame: Frame)
    ensures EventsOf(frames + [frame]) == EventsOf(frames) + if frame.Notification? then [frame.event] else []
    ensures ResponsesOf(frames + [frame]) == ResponsesOf(frames) + if frame.Reply? then [frame.response] else []
  {
    assert (frames + [frame])[..|frames|] == frames;
  }

  /** The events among the frames are those the client was sent, in order. */
  predicate Forwards(t: Talk) {
    EventsOf(t.frames) == t.client.sent
  }

  /** The responses among the frames are those to the messages handled, in order. */
  predicate Answers(t: Talk) {
    ResponsesOf(t.frames) == AllResponses(t.heard)
  }

  lemma MessageFrames(frames: seq<Frame>, m: Message)
    ensures EventsOf(frames + Replies(Responses(m))) == EventsOf(frames)
    ensures ResponsesOf(frames + Replies(Responses(m))) == ResponsesOf(frames) + Responses(m)
  {
    var responses := Responses(m);
    if responses == [] {
      assert frames + Replies(responses) == frames;
    } else {
      assert Replies(responses) == [Reply(responses[0])];
      OneMore(frames, Reply(responses[0]));
    }
  }

  lemma TurnForwards(t: Talk, arm: Arm)
    requires Forwards(t)
    ensures Forwards(AfterTurn(t, arm))
  {
    OneMore(t.frames, GoingAway);
    if arm.Incoming? {
      MessageFrames(t.frames, arm.message);
    } else if arm.EventReady? && t.events.Poll(t.client.next).Received? {
      OneMore(t.frames, Notification(t.events.Poll(t.client.next).event));
    }
  }

  lemma TurnAnswers(t: Talk, arm: Arm)
    requires Answers(t)
    ensures Answers(AfterTurn(t, arm))
  {
    OneMore(t.frames, GoingAway);
    if arm.Incoming? {
      MessageFrames(t.frames, arm.message);
      assert (t.heard + [arm.message])[..|t.heard|] == t.heard;
    } else if arm.EventReady? && t.events.Poll(t.client.next).Received? {
      OneMore(t.frames, Notification(t.events.Poll(t.client.next).event));
    }
  }

  /** Over any conversation, the events that are sent reach the socket in order, whatever is answered in between. */
  lemma ConversationsForward(t: Talk, arms: seq<Arm>, n: nat)
    requires n <= |arms| && Forwards(t)
    ensures Forwards(AfterTurns(t, arms, n))
  {
    var keeps := (u: Talk) => Forwards(u);
    forall u: Talk, arm: Arm | keeps(u)
      ensures keeps(AfterTurn(u, arm))
    {
      TurnForwards(u, arm);
    }
    AllAlong(keeps, t, arms, n);
  }

  /** And so do the answers, whatever is pushed in between. */
  lemma ConversationsAnswer(t: Talk, arms: seq<Arm>, n: nat)
    requires n <= |arms| && Answers(t)
    ensures Answers(AfterTurns(t, arms, n))
  {
    var keeps := (u: Talk) => Answers(u);
    forall u: Talk, arm: Arm | keeps(u)
      ensures keeps(AfterTurn(u, arm))
    {
      TurnAnswers(u, arm);
    }
    AllAlong(keeps, t, arms, n);
  }

  lemma TurnIsConsistent(t: Talk, arm: Arm)
    requires Consistent(t.client, t.events) && t.client.replay.Read?
    ensures var after := AfterTurn(t, arm);
            Consistent(after.client, after.events) && after.client.replay.Read?
  {
    if t.goesOn && arm.EventReady? {
      ForwardedConsistent(t.client, t.events);
    } else if t.goesOn && arm.Incoming? && t.latest.Some? {
      SentConsistent(t.client, t.events, AtMentioned(MentionOf(t.latest.value)));
    } else if t.goesOn && arm.Elsewhere? {
      SentConsistent(t.client, t.events, arm.event);
    }
  }

  /** And the client only misses what newer events pushed out of the channel. */
  lemma ConversationsAreConsistent(t: Talk, arms: seq<Arm>, n: nat)
    requires n <= |arms| && Consistent(t.client, t.events) && t.client.replay.Read?
    ensures var after := AfterTurns(t, arms, n);
            Consistent(after.client, after.events) && after.client.replay.Read?
  {
    var keeps := (u: Talk) => Consistent(u.client, u.events) && u.client.replay.Read?;
    forall u: Talk, arm: Arm | keeps(u)
      ensures keeps(AfterTurn(u, arm))
    {
      TurnIsConsistent(u, arm);
    }
    AllAlong(keeps, t, arms, n);
  }

  /** In any conversation, what wants an answer gets one, in order, and nothing else does. */
  lemma ConversationsCorrespond(t: Talk, arms: seq<Arm>, n: nat)
    requires n <= |arms| && Answers(t)
    ensures IdsOf(ResponsesOf(AfterTurns(t, arms, n).frames))
         == Present(IdsToAnswer(AfterTurns(t, arms, n).heard))
  {
    ConversationsAnswer(t, arms, n);
    ResponsesCorrespond(AfterTurns(t, arms, n).heard);
  }

  /**
    * Over every conversation, the k-th response on the socket is to the k-th message that
    * wants one, and a tool result without the error flag is to a call of `getDiagnostics`.
    */
  lemma ConversationsNeverClaimSuccess(t: Talk, arms: seq<Arm>, n: nat, k: nat)
    requires n <= |arms| && Answers(t)
    requires k < |ResponsesOf(AfterTurns(t, arms, n).frames)|
    requires var outcome := ResponsesOf(AfterTurns(t, arms, n).frames)[k].outcome;
             outcome.Success? && outcome.payload.ToolResult?
    ensures var after := AfterTurns(t, arms, n);
            var response, calls := ResponsesOf(after.frames)[k], Wanting(after.heard);
            && k < |calls| && calls[k].WellFormed? && calls[k].request.id == response.id
            && (!response.outcome.payload.isError <==> Calls(calls[k], "getDiagnostics"))
  {
    ConversationsAnswer(t, arms, n);
    OnlyDiagnosticsSucceed(AfterTurns(t, arms, n).heard, k);
  }

  // ---- what the bus carries meanwhile ----

  predicate GoesOn(arm: Arm) {
    arm.EventReady? || arm.Elsewhere? || (arm.Incoming? && !arm.message.Broken?)
  }

  /** The loop survived the first `n` arms. */
  predicate Running(arms: seq<Arm>, n: nat)
    requires n <= |arms|
  {
    n == 0 || (Running(arms, n - 1) && GoesOn(arms[n - 1]))
  }

  /** The latest selection after `n` arms: the last published among them, or what it was. */
  function LatestAt(latest: Option<Selection>, arms: seq<Arm>, n: nat): Option<Selection>
    requires n <= |arms|
  {
    if n == 0 then latest
    else if Running(arms, n - 1) && arms[n - 1].Elsewhere? then Later(LatestAt(latest, arms, n - 1), arms[n - 1].event)
    else LatestAt(latest, arms, n - 1)
  }

  /** What was said, and then all the bus is made to carry during the first `n` arms. */
  function Spoken(said: seq<Event>, latest: Option<Selection>, arms: seq<Arm>, n: nat): seq<Event>
    requires n <= |arms|
  {
    if n == 0 then said
    else if Running(arms, n - 1) then
      Spoken(said, latest, arms, n - 1) + Said(LatestAt(latest, arms, n - 1), arms[n - 1])
    else Spoken(said, latest, arms, n - 1)
  }

  lemma {:induction false} SpokenAfter(
    before: seq<Event>, said: seq<Event>, latest: Option<Selection>, arms: seq<Arm>, n: nat)
    requires n <= |arms|
    ensures Spoken(before + said, latest, arms, n) == before + Spoken(said, latest, arms, n)
  {
    if 0 < n {
      SpokenAfter(before, said, latest, arms, n - 1);
      if Running(arms, n - 1) {
        Associative(before, Spoken(said, latest, arms, n - 1), Said(LatestAt(latest, arms, n - 1), arms[n - 1]));
      }
    }
  }

  /** One turn makes the bus carry what its arm says, and nothing else. */
  lemma TurnSpeaks(t: Talk, arm: Arm)
    requires t.goesOn && t.events.receivers != {}
    ensures var after := AfterTurn(t, arm);
            && after.events == t.events.(log := t.events.log + Said(t.latest, arm))
            && after.latest == (if arm.Elsewhere? then Later(t.latest, arm.event) else t.latest)
            && after.goesOn == GoesOn(arm)
  {
  }

  /**
    * A conversation makes the bus carry a mention of the selection latest at that moment
    * for each message asking for one, and nothing else; in between, the bus carries what
    * others publish.
    */
  lemma {:induction false} OnlyMentionsAreAdded(t: Talk, arms: seq<Arm>, n: nat)
    requires n <= |arms| && t.goesOn && t.events.receivers != {}
    ensures var after := AfterTurns(t, arms, n);
            && after.events == t.events.(log := Spoken(t.events.log, t.latest, arms, n))
            && after.latest == LatestAt(t.latest, arms, n)
            && after.goesOn == Running(arms, n)
  {
    if 0 < n {
      OnlyMentionsAreAdded(t, arms, n - 1);
      var before := AfterTurns(t, arms, n - 1);
      if before.goesOn {
        TurnSpeaks(before, arms[n - 1]);
      }
    }
  }

  /** Somebody cancelled the loop during the first `n` arms. */
  predicate WasCancelled(arms: seq<Arm>, n: nat)
    requires n <= |arms|
  {
    0 < n && (WasCancelled(arms, n - 1) || (Running(arms, n - 1) && arms[n - 1].Cancelled?))
  }

  lemma {:induction false} GoesOnWhileRunning(t: Talk, arms: seq<Arm>, n: nat)
    requires n <= |arms| && t.goesOn
    ensures AfterTurns(t, arms, n).goesOn == Running(arms, n)
    ensures WasCancelled(arms, n) ==> !Running(arms, n)
  {
    if 0 < n {
      GoesOnWhileRunning(t, arms, n - 1);
    }
  }

  /** If the loop was cancelled, its last frame says so, and none before it; otherwise none does. */
  predicate SaysGoodbye(frames: seq<Frame>, cancelled: bool) {
    if cancelled then frames != [] && frames[|frames| - 1] == GoingAway && GoingAway !in frames[..|frames| - 1]
    else GoingAway !in frames
  }

  lemma TurnGoodbye(t: Talk, arm: Arm, cancelled: bool)
    requires SaysGoodbye(t.frames, cancelled) && (cancelled ==> !t.goesOn)
    ensures SaysGoodbye(AfterTurn(t, arm).frames, cancelled || (t.goesOn && arm.Cancelled?))
  {
    if t.goesOn && arm.Cancelled? {
      assert (t.frames + [GoingAway])[..|t.frames|] == t.frames;
    }
  }

  /** A close frame is sent when the loop is cancelled, as the last of all, and at no other time. */
  lemma {:induction false} GoodbyeIsSaidLast(t: Talk, arms: seq<Arm>, n: nat)
    requires n <= |arms| && t.goesOn && GoingAway !in t.frames
    ensures SaysGoodbye(AfterTurns(t, arms, n).frames, WasCancelled(arms, n))
  {
    if 0 < n {
      GoodbyeIsSaidLast(t, arms, n - 1);
      GoesOnWhileRunning(t, arms, n - 1);
      TurnGoodbye(AfterTurns(t, arms, n - 1), arms[n - 1], WasCancelled(arms, n - 1));
    }
  }

  lemma NewestGreeting(latest: Option<Selection>)
    ensures Newest(Greeting(latest)) == latest
  {
    assert latest.Some? ==> Greeting(latest)[..0] == [];
  }

  /** One more arm, in terms of what was said and what was latest. */
  lemma SpokenStep(said: seq<Event>, latest: Option<Selection>, arms: seq<Arm>, i: nat, n: nat)
    requires i + 1 == n <= |arms|
    ensures Spoken(said, latest, arms, n)
         == if Running(arms, i) then Spoken(said, latest, arms, i) + Said(LatestAt(latest, arms, i), arms[i])
            else Spoken(said, latest, arms, i)
    ensures LatestAt(latest, arms, n)
         == if Running(arms, i) && arms[i].Elsewhere? then Later(LatestAt(latest, arms, i), arms[i].event)
            else LatestAt(latest, arms, i)
  {
  }

  /** `newest` tells the newest selection of any events. */
  ghost predicate IsNewest(newest: seq<Event> -> Option<Selection>) {
    forall events {:trigger Newest(events)} :: newest(events) == Newest(events)
  }

  /** The newest selection spoken of, after a greeting with the latest one, is the latest. */
  lemma {:induction false} NewestSpoken(
    newest: seq<Event> -> Option<Selection>, latest: Option<Selection>, arms: seq<Arm>, n: nat)
    requires n <= |arms| && IsNewest(newest)
    ensures newest(Spoken(Greeting(latest), latest, arms, n)) == LatestAt(latest, arms, n)
  {
    if n == 0 {
      NewestGreeting(latest);
    } else {
      var i := n - 1;
      NewestSpoken(newest, latest, arms, i);
      SpokenStep(Greeting(latest), latest, arms, i, n);
      if Running(arms, i) {
        NewestOnceSaid(newest, Spoken(Greeting(latest), latest, arms, i), LatestAt(latest, arms, i), arms[i]);
      }
    }
  }

  lemma NewestOnceSaid(
    newest: seq<Event> -> Option<Selection>, said: seq<Event>, latest: Option<Selection>, arm: Arm)
    requires IsNewest(newest) && newest(said) == latest
    ensures newest(said + Said(latest, arm)) == if arm.Elsewhere? then Later(latest, arm.event) else latest
  {
    var more := Said(latest, arm);
    if more == [] {
      assert said + more == said;
    } else {
      assert (said + more)[..|said|] == said;
      assert Newest(said) == latest;
      assert newest(said + more) == Newest(said + more);
    }
  }

  /** A connection at its first turn: subscribed where the log now ends, and greeted. */
  ghost predicate IsFresh(t: Talk) {
    && t.goesOn && t.events.receivers != {}
    && Forwards(t) && Consistent(t.client, t.events)
    && t.client.replay.Read? && t.client.replay.latest == t.latest && t.client.from == |t.events.log|
  }

  /**
    * A client that never fell behind and has taken all there is was sent the selection that
    * was latest when it connected, and then everything published since, by others and at
    * its own request, each once and in order; so it knows the latest selection.
    */
  lemma EverythingIsPushed(t: Talk, arms: seq<Arm>, n: nat)
    requires n <= |arms| && IsFresh(t)
    requires var after := AfterTurns(t, arms, n);
             after.client.skipped == 0 && after.client.next == |after.events.log|
    ensures var after := AfterTurns(t, arms, n);
            && EventsOf(after.frames) == Spoken(Greeting(t.latest), t.latest, arms, n)
            && Newest(EventsOf(after.frames)) == after.latest
  {
    var after := AfterTurns(t, arms, n);
    ConversationsForward(t, arms, n);
    ConversationsAreConsistent(t, arms, n);
    ClientStays(t, arms, n);
    SentAll(after.client, after.events);
    OnlyMentionsAreAdded(t, arms, n);
    SpokenSince(t.events.log, Greeting(t.latest), t.latest, arms, n);
    var newest := (events: seq<Event>) => Newest(events);
    NewestSpoken(newest, t.latest, arms, n);
    assert newest(EventsOf(after.frames)) == Newest(EventsOf(after.frames));
  }

  lemma SentAll(c: Client, events: Channel)
    requires Consistent(c, events) && c.replay.Read? && c.skipped == 0 && c.next == |events.log|
    ensures c.sent == Greeting(c.replay.latest) + events.log[c.from..]
  {
    ReceivedAll(c, events);
    assert events.log[c.from..c.next] == events.log[c.from..];
  }

  /** What comes after the log as it was is the same as what comes after the greeting. */
  lemma SpokenSince(log: seq<Event>, greeting: seq<Event>, latest: Option<Selection>, arms: seq<Arm>, n: nat)
    requires n <= |arms|
    ensures |log| <= |Spoken(log, latest, arms, n)|
    ensures greeting + Spoken(log, latest, arms, n)[|log|..] == Spoken(greeting, latest, arms, n)
  {
    SpokenAfter(log, [], latest, arms, n);
    SpokenAfter(greeting, [], latest, arms, n);
    assert log + [] == log && greeting + [] == greeting;
  }

  /** Where it subscribed and what it was greeted with never change. */
  lemma ClientStays(t: Talk, arms: seq<Arm>, n: nat)
    requires n <= |arms|
    ensures AfterTurns(t, arms, n).client.from == t.client.from
    ensures AfterTurns(t, arms, n).client.replay == t.client.replay
  {
    var keeps := (u: Talk) => u.client.from == t.client.from && u.client.replay == t.client.replay;
    AllAlong(keeps, t, arms, n);
  }

  // ---- the connection ----

  class Connection {
    const bus: EventBus
    const id: nat
    var client: Client
    var frames: seq<Frame>
    /** Every message handled, oldest first. */
    ghost var heard: seq<Message>

    ghost predicate Valid()
      reads this, bus
    {
      bus.Valid() && id in bus.events.receivers && client.replay.Read?
    }

    ghost function State(goesOn: bool): Talk
      reads this, bus
    {
      Talk(client, frames, bus.events, bus.latest.value, heard, goesOn)
    }

    /** Subscribes first, then reads the latest selection and sends it. */
    constructor (bus: EventBus)
      requires bus.Valid()
      modifies bus
      ensures Valid() && this.bus == bus && heard == []
      ensures bus.published == old(bus.published) && bus.latest == old(bus.latest)
      ensures bus.events.log == old(bus.events.log) && bus.events.receivers == old(bus.events.receivers) + {id}
      ensures client.from == |bus.events.log| && client.replay.latest == bus.latest.value
      ensures IsFresh(State(true)) && Answers(State(true))
    {
      this.bus := bus;
      var receiver := bus.Subscribe();
      id := receiver.id;
      var latest := bus.Latest();
      client := Client(receiver.next, bus.latest.version, receiver.next, NotRead, [], [], 0, false)
                .Greeted(latest, bus.latest.version);
      frames := if latest.Some? then [Notification(SelectionChanged(latest.value))] else [];
      heard := [];
      new;
      GreetedConsistent(bus.events, bus.latest.version, latest);
      if latest.Some? {
        OneMore([], Notification(SelectionChanged(latest.value)));
        assert [] + frames == frames;
      }
    }

    /** Forwards one event, or notes having fallen behind. */
    method Forward()
      requires Valid()
      modifies this`client, this`frames
      ensures Valid() && State(true) == AfterEvent(old(State(true)))
    {
      match bus.events.Poll(client.next) {
        case Empty =>
        case Lagged(skipped) =>
          client := client.(next := client.next + skipped, skipped := client.skipped + skipped, laggedBefore := true);
        case Received(event) =>
          frames := frames + [Notification(event)];
          client := client.(next := client.next + 1, got := client.got + [client.next], sent := client.sent + [event]);
      }
    }

    /** Publishes a mention of the current selection, if there is one. */
    method HandleAtMentionRequest()
      requires bus.Valid()
      modifies bus`events
      ensures bus.Valid()
      ensures bus.events == if bus.latest.value.None? then old(bus.events)
                            else old(bus.events).Send(AtMentioned(MentionOf(bus.latest.value.value)))
      ensures bus.latest.value.Some? ==>
                exists mention :: IsMentionOf(mention, bus.latest.value.value)
                                  && bus.events == old(bus.events).Send(AtMentioned(mention))
    {
      var selection := bus.Latest();
      match selection {
        case None =>
        case Some(s) => bus.PublishMention(MentionOf(s));
      }
    }

    /** Handles one message; the connection goes on if `ok`. */
    method HandleMessage(m: Message) returns (ok: bool)
      requires Valid()
      modifies this`frames, this`heard, bus`events
      ensures Valid() && State(ok) == AfterMessage(old(State(true)), m)
    {
      ok := true;
      match m {
        case NotJson =>
          frames := frames + [Reply(Response(Some(NULL), Failure(PARSE_ERROR, "Parse error", None)))];
        case Malformed(recoveredId) =>
          if recoveredId.Some? && recoveredId.value != NULL {
            frames := frames + [Reply(Response(recoveredId, Failure(INVALID_REQUEST, "Invalid Request", None)))];
          }
        case WellFormed(r) =>
          if IsNotification(r) {
            if r.verb.AtMention? {
              HandleAtMentionRequest();
            }
          } else {
            match HandleRequest(r) {
              case Ok(response) =>
                frames := frames + [Reply(response)];
              case Err(BadArguments(what)) =>
                frames := frames + [Reply(Response(r.id, Failure(INVALID_PARAMS, "Invalid params", Some(what))))];
              case Err(OtherTrouble(what)) =>
                frames := frames + [Reply(Response(r.id, Failure(INTERNAL_ERROR, "Internal error", Some(what))))];
            }
          }
        case NotText =>
        case Broken =>
          ok := false;
      }
      heard := heard + [m];
    }

    /** Somebody else publishes. */
    method Meanwhile(event: Event)
      requires Valid()
      modifies bus`events, bus`latest, bus`published
      ensures Valid() && State(true) == AfterTurn(old(State(true)), Elsewhere(event))
    {
      match event {
        case SelectionChanged(selection) => bus.PublishSelection(selection);
        case AtMentioned(mention) => bus.PublishMention(mention);
      }
    }

    /** One turn of the loop. */
    method Turn(arm: Arm) returns (goesOn: bool)
      requires Valid()
      modifies this`client, this`frames, this`heard, bus`events, bus`latest, bus`published
      ensures Valid() && State(goesOn) == AfterTurn(old(State(true)), arm)
    {
      match arm {
        case Cancelled =>
          frames := frames + [GoingAway];
          goesOn := false;
        case Incoming(m) =>
          goesOn := HandleMessage(m);
        case Hangup =>
          goesOn := false;
        case EventReady =>
          Forward();
          goesOn := true;
        case Elsewhere(event) =>
          Meanwhile(event);
          goesOn := true;
      }
    }

    /** The loop: woken by one thing after another until the client leaves, fails or is told to go. */
    method Serve(arms: seq<Arm>) returns (goesOn: bool)
      requires Valid()
      modifies this`client, this`frames, this`heard, bus`events, bus`latest, bus`published
      ensures Valid() && State(goesOn) == AfterTurns(old(State(true)), arms, |arms|)
    {
      var i := 0;
      goesOn := true;
      while goesOn && i < |arms|
        invariant 0 <= i <= |arms| && Valid()
        invariant State(goesOn) == AfterTurns(old(State(true)), arms, i)
        decreases |arms| - i
      {
        goesOn := Turn(arms[i]);
        i := i + 1;
      }
      if !goesOn {
        NothingOnceStopped(old(State(true)), arms, i, |arms|);
      }
    }
  }
}
