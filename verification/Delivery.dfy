/**
  * What the clients of the pipeline are sent, over every interleaving.
  */
module Delivery {
  import opened Prelude
  import opened Selections
  import opened Events
  import opened Pipeline

  function Values(published: seq<Publication>): seq<Selection> {
    seq(|published|, i requires 0 <= i < |published| => published[i].pick.selection)
  }

  /**
    * What holds of a client when `complete` publications have been sent. What it read on
    * connecting is the selection then latest, and that was after it subscribed. While
    * it is live, the log since it subscribed holds exactly the publications since.
    */
  ghost predicate ClientKeeps(
    c: Client, live: bool, events: Channel, published: seq<Publication>, complete: nat)
    requires complete <= |published|
  {
    && Consistent(c, events)
    && c.since <= complete
    && (c.replay.Read? ==> && c.since <= c.replay.writes <= |published|
                           && c.replay.latest == LastOf(published[..c.replay.writes]))
    && (live ==> SelectionsOf(events.log[c.from..]) == Values(published[c.since..complete]))
  }

  ghost predicate AllKeep(clients: seq<Client>, events: Channel, published: seq<Publication>, complete: nat)
    requires complete <= |published|
  {
    && (forall id :: id in events.receivers ==> id < |clients|)
    && (forall id :: 0 <= id < |clients| ==>
          ClientKeeps(clients[id], id in events.receivers, events, published, complete))
  }

  ghost predicate ClientsKeep(s: System) {
    AllKeep(s.clients, s.events, s.published, s.Complete())
  }

  /** Writing the cell alone changes nothing for a client. */
  lemma WriteKeepsClient(
    c: Client, live: bool, events: Channel, published: seq<Publication>, complete: nat, p: Publication)
    requires complete <= |published| && ClientKeeps(c, live, events, published, complete)
    ensures ClientKeeps(c, live, events, published + [p], complete)
  {
    assert (published + [p])[c.since..complete] == published[c.since..complete];
    if c.replay.Read? {
      assert (published + [p])[..c.replay.writes] == published[..c.replay.writes];
    }
  }

  /** One more event is at most one more selection since `from`. */
  lemma SelectionsMore(log: seq<Event>, from: nat, event: Event)
    requires from <= |log|
    ensures SelectionsOf((log + [event])[from..])
         == SelectionsOf(log[from..]) + if event.SelectionChanged? then [event.selection] else []
  {
    assert (log + [event])[from..] == log[from..] + [event];
    SelectionsOfConcat(log[from..], [event]);
    assert [event][..0] == [];
  }

  lemma ValuesMore(published: seq<Publication>, since: nat, complete: nat, next: nat)
    requires since <= complete < next <= |published| && next == complete + 1
    ensures Values(published[since..next]) == Values(published[since..complete]) + [published[complete].pick.selection]
  {
    assert published[since..next] == published[since..complete] + [published[complete]];
  }

  /** Sending the publication just written does. */
  lemma SendKeepsClient(c: Client, live: bool, events: Channel, published: seq<Publication>, complete: nat)
    requires complete < |published| && ClientKeeps(c, live, events, published, complete)
    requires live ==> events.receivers != {}
    ensures ClientKeeps(c, live, events.Send(SelectionChanged(published[complete].pick.selection)),
                        published, complete + 1)
  {
    var event := SelectionChanged(published[complete].pick.selection);
    SentConsistent(c, events, event);
    if live {
      SelectionsMore(events.log, c.from, event);
      ValuesMore(published, c.since, complete, complete + 1);
    }
  }

  /** A mention does not count as a selection. */
  lemma MentionKeepsClient(
    c: Client, live: bool, events: Channel, published: seq<Publication>, complete: nat, mention: Mention)
    requires complete <= |published| && ClientKeeps(c, live, events, published, complete)
    ensures ClientKeeps(c, live, events.Send(AtMentioned(mention)), published, complete)
  {
    var event := AtMentioned(mention);
    SentConsistent(c, events, event);
    SelectionsMore(events.log, c.from, event);
  }

  lemma ConnectKeepsClient(events: Channel, published: seq<Publication>, complete: nat)
    requires complete <= |published|
    ensures var place := |events.log|;
            ClientKeeps(Client(place, complete, place, NotRead, [], [], 0, false), true, events, published, complete)
  {
  }

  /** Everything a client depends on is as before; at most it is no longer live. */
  lemma SameForClient(
    c: Client, was: bool, live: bool, events: Channel, after: Channel, published: seq<Publication>, complete: nat)
    requires complete <= |published| && ClientKeeps(c, was, events, published, complete)
    requires (live ==> was) && after.log == events.log && after.capacity == events.capacity
    ensures ClientKeeps(c, live, after, published, complete)
  {
  }

  lemma GreetKeepsClient(
    c: Client, live: bool, events: Channel, published: seq<Publication>, complete: nat, latest: Option<Selection>)
    requires complete <= |published| && ClientKeeps(c, live, events, published, complete)
    requires c.replay.NotRead? && latest == LastOf(published)
    ensures ClientKeeps(c.Greeted(latest, |published|), live, events, published, complete)
  {
    assert published[..|published|] == published;
    assert Picked(events.log, c.got) == [];
  }

  lemma ForwardKeepsClient(c: Client, live: bool, events: Channel, published: seq<Publication>, complete: nat)
    requires complete <= |published| && ClientKeeps(c, live, events, published, complete) && c.replay.Read?
    ensures ClientKeeps(c.Forwarded(events), live, events, published, complete)
  {
    ForwardedConsistent(c, events);
  }

  // ---- every run ----

  /** The cell holds what was last published, and what is about to be sent is that. */
  predicate CellMatches(s: System) {
    && s.latest == LastOf(s.published)
    && (s.stage.Sending? ==> LastOf(s.published) == Some(s.stage.selection))
  }

  lemma WriteKeepsAll(
    clients: seq<Client>, events: Channel, published: seq<Publication>, complete: nat, p: Publication)
    requires complete <= |published| && AllKeep(clients, events, published, complete)
    ensures AllKeep(clients, events, published + [p], complete)
  {
    forall id | 0 <= id < |clients|
      ensures ClientKeeps(clients[id], id in events.receivers, events, published + [p], complete)
    {
      WriteKeepsClient(clients[id], id in events.receivers, events, published, complete, p);
    }
  }

  lemma SendKeepsAll(
    clients: seq<Client>, events: Channel, published: seq<Publication>, complete: nat, next: nat, selection: Selection)
    requires complete < next <= |published| && next == complete + 1 && AllKeep(clients, events, published, complete)
    requires published[complete].pick.selection == selection
    ensures AllKeep(clients, events.Send(SelectionChanged(selection)), published, next)
  {
    var after := events.Send(SelectionChanged(selection));
    forall id | 0 <= id < |clients|
      ensures ClientKeeps(clients[id], id in after.receivers, after, published, next)
    {
      SendKeepsClient(clients[id], id in events.receivers, events, published, complete);
    }
  }

  lemma MentionKeepsAll(
    clients: seq<Client>, events: Channel, published: seq<Publication>, complete: nat, mention: Mention)
    requires complete <= |published| && AllKeep(clients, events, published, complete)
    ensures AllKeep(clients, events.Send(AtMentioned(mention)), published, complete)
  {
    var after := events.Send(AtMentioned(mention));
    forall id | 0 <= id < |clients|
      ensures ClientKeeps(clients[id], id in after.receivers, after, published, complete)
    {
      MentionKeepsClient(clients[id], id in events.receivers, events, published, complete, mention);
    }
  }

  /** A receiver more, of a client that has just come, or one less. */
  lemma MembershipKeepsAll(
    clients: seq<Client>, events: Channel, receivers: set<nat>, published: seq<Publication>, complete: nat)
    requires complete <= |published| && AllKeep(clients, events, published, complete)
    requires forall id :: id in receivers && id < |clients| ==> id in events.receivers
    ensures forall id :: 0 <= id < |clients| ==>
              ClientKeeps(clients[id], id in receivers, events.(receivers := receivers), published, complete)
  {
    forall id | 0 <= id < |clients|
      ensures ClientKeeps(clients[id], id in receivers, events.(receivers := receivers), published, complete)
    {
      SameForClient(clients[id], id in events.receivers, id in receivers,
                    events, events.(receivers := receivers), published, complete);
    }
  }

  lemma OneKeepsAll(
    clients: seq<Client>, events: Channel, published: seq<Publication>, complete: nat, client: nat, c: Client)
    requires complete <= |published| && client < |clients| && AllKeep(clients, events, published, complete)
    requires ClientKeeps(c, client in events.receivers, events, published, complete)
    ensures AllKeep(clients[client := c], events, published, complete)
  {
  }

  lemma OneMoreKeepsAll(
    clients: seq<Client>, events: Channel, receivers: set<nat>, published: seq<Publication>, complete: nat, c: Client)
    requires complete <= |published| && AllKeep(clients, events, published, complete)
    requires receivers == events.receivers + {|clients|}
    requires ClientKeeps(c, true, events.(receivers := receivers), published, complete)
    ensures AllKeep(clients + [c], events.(receivers := receivers), published, complete)
  {
    MembershipKeepsAll(clients, events, receivers, published, complete);
  }

  lemma ConnectKeepsClients(s: System)
    requires ClientsKeep(s)
    ensures ClientsKeep(Connected(s))
  {
    var place := |s.events.log|;
    var c := Client(place, s.Complete(), place, NotRead, [], [], 0, false);
    var receivers := s.events.receivers + {|s.clients|};
    ConnectKeepsClient(s.events.(receivers := receivers), s.published, s.Complete());
    OneMoreKeepsAll(s.clients, s.events, receivers, s.published, s.Complete(), c);
  }

  lemma GreetKeepsClients(s: System, client: nat)
    requires CellMatches(s) && ClientsKeep(s)
    ensures ClientsKeep(Welcomed(s, client))
  {
    if s.IsLive(client) && s.clients[client].replay.NotRead? {
      var c := s.clients[client];
      GreetKeepsClient(c, true, s.events, s.published, s.Complete(), s.latest);
      OneKeepsAll(s.clients, s.events, s.published, s.Complete(), client, c.Greeted(s.latest, |s.published|));
    }
  }

  lemma ForwardKeepsClients(s: System, client: nat)
    requires ClientsKeep(s)
    ensures ClientsKeep(Pushed(s, client))
  {
    if s.IsFree(client) {
      var c := s.clients[client];
      ForwardKeepsClient(c, true, s.events, s.published, s.Complete());
      OneKeepsAll(s.clients, s.events, s.published, s.Complete(), client, c.Forwarded(s.events));
    }
  }

  /** Nothing a client can see has changed. */
  predicate SameForClients(s: System, t: System) {
    t.events == s.events && t.published == s.published && t.clients == s.clients && t.Complete() == s.Complete()
  }

  lemma ClientsStep(setup: Setup, s: System, step: Step)
    requires CellMatches(s) && ClientsKeep(s)
    ensures ClientsKeep(Next(setup, s, step))
  {
    var complete := s.Complete();
    match step
    case Write =>
      if s.stage.Writing? {
        WriteKeepsAll(s.clients, s.events, s.published, complete, Publication(s.stage.pick, s.now));
      }
    case Send =>
      if s.stage.Sending? {
        SendKeepsAll(s.clients, s.events, s.published, complete, |s.published|, s.stage.selection);
      }
    case SendMention(client) =>
      if client in s.asking {
        MentionKeepsAll(s.clients, s.events, s.published, complete, s.asking[client]);
      }
    case Connect => ConnectKeepsClients(s);
    case Greet(client) => GreetKeepsClients(s, client);
    case Forward(client) => ForwardKeepsClients(s, client);
    case Leave(client) =>
      MembershipKeepsAll(s.clients, s.events, s.events.receivers - {client}, s.published, complete);
    case _ =>
      assert SameForClients(s, Next(setup, s, step));
  }

  lemma TaskMatchesCell(setup: Setup, s: System)
    ensures TaskKeeps(setup, s) ==> CellMatches(s)
  {
  }

  /** What else holds at first and is kept, given what the debouncer keeps, holds after every run. */
  lemma EveryRunWithTask(keeps: System -> bool, setup: Setup, steps: seq<Step>)
    requires keeps(Initial(setup))
    requires forall s: System, step: Step {:trigger Next(setup, s, step)} ::
               CellMatches(s) && keeps(s) ==> keeps(Next(setup, s, step))
    ensures CellMatches(After(setup, steps)) && keeps(After(setup, steps))
  {
    var task := (s: System) => TaskKeeps(setup, s);
    var both := (s: System) => task(s) && keeps(s);
    forall s: System, step: Step | both(s)
      ensures both(Next(setup, s, step))
    {
      TaskStep(task, setup, s, step);
      TaskMatchesCell(setup, s);
    }
    TaskRun(setup, []);
    EveryRun(both, setup, steps);
    TaskMatchesCell(setup, After(setup, steps));
  }

  lemma ClientsRun(setup: Setup, steps: seq<Step>)
    ensures CellMatches(After(setup, steps)) && ClientsKeep(After(setup, steps))
  {
    var keeps := (s: System) => ClientsKeep(s);
    forall s: System, step: Step | CellMatches(s) && keeps(s)
      ensures keeps(Next(setup, s, step))
    {
      ClientsStep(setup, s, step);
    }
    EveryRunWithTask(keeps, setup, steps);
  }

  lemma CapacityStays(setup: Setup, steps: seq<Step>)
    ensures After(setup, steps).events.capacity == setup.capacity
  {
    var keeps := (s: System) => s.events.capacity == setup.capacity;
    EveryRun(keeps, setup, steps);
  }

  // ---- the guarantees ----

  lemma ClientAfter(setup: Setup, steps: seq<Step>, id: nat)
    requires id < |After(setup, steps).clients|
    ensures var s := After(setup, steps);
            && ClientKeeps(s.clients[id], id in s.events.receivers, s.events, s.published, s.Complete())
            && s.events.capacity == setup.capacity && CellMatches(s)
  {
    ClientsRun(setup, steps);
    CapacityStays(setup, steps);
  }

  /**
    * Whatever the channel drops, nothing is lost count of: what a client received, what
    * it skipped and what is still to come add up to what was sent since it
    * subscribed. What it received is in order, each once, and it was sent that after
    * the selection that was latest when it connected.
    */
  lemma LagConservation(setup: Setup, steps: seq<Step>, id: nat)
    requires id < |After(setup, steps).clients|
    ensures var s := After(setup, steps);
            var c := s.clients[id];
            && |c.got| + c.skipped + (|s.events.log| - c.next) == |s.events.log| - c.from
            && (forall i :: 0 <= i < |c.got| ==> c.from <= c.got[i] < c.next <= |s.events.log|)
            && (forall i, j :: 0 <= i < j < |c.got| ==> c.got[i] < c.got[j])
            && c.sent == (if c.replay.Read? then Greeting(c.replay.latest) else []) + Picked(s.events.log, c.got)
  {
    ClientAfter(setup, steps, id);
  }

  /** What is skipped was followed by `capacity` newer events. */
  lemma OnlyPushedOutIsSkipped(setup: Setup, steps: seq<Step>, id: nat, place: nat)
    requires var s := After(setup, steps);
             && id < |s.clients| && s.clients[id].from <= place < s.clients[id].next
             && |s.events.log| <= place + setup.capacity
    ensures place in After(setup, steps).clients[id].got
  {
    ClientAfter(setup, steps, id);
  }

  /** A live client that took all there is. */
  predicate CaughtUp(s: System, id: nat) {
    s.Serves(id) && s.clients[id].next == |s.events.log|
  }

  /**
    * A client that never fell behind was sent the selection it found on connecting, and
    * then every publication since it subscribed, in order. What it found was no older
    * than where those begin, so there is no gap; at worst it sees some twice.
    */
  lemma NoGap(setup: Setup, steps: seq<Step>, id: nat)
    requires CaughtUp(After(setup, steps), id) && After(setup, steps).clients[id].skipped == 0
    ensures var s := After(setup, steps);
            var c := s.clients[id];
            && c.since <= c.replay.writes <= |s.published| && c.since <= s.Complete()
            && SelectionsOf(c.sent) == SelectionsOf(Greeting(LastOf(s.published[..c.replay.writes])))
                                       + Values(s.published[c.since..s.Complete()])
  {
    ClientAfter(setup, steps, id);
    var s := After(setup, steps);
    var c := s.clients[id];
    ReceivedAll(c, s.events);
    assert s.events.log[c.from..c.next] == s.events.log[c.from..];
    SelectionsOfConcat(Greeting(c.replay.latest), s.events.log[c.from..]);
  }

  lemma GreetingSays(latest: Option<Selection>)
    ensures SelectionsOf(Greeting(latest)) == if latest.Some? then [latest.value] else []
  {
    if latest.Some? {
      assert Greeting(latest)[..0] == [];
    }
  }

  /** Events that hold the publications from some on end with the last, unless there is none. */
  lemma LastPublished(events: seq<Event>, published: seq<Publication>, since: nat)
    requires since <= |published| && SelectionsOf(events) == Values(published[since..])
    ensures Newest(events) == if since == |published| then None else LastOf(published)
  {
    assert |Values(published[since..])| == |published| - since;
    assert since < |published| ==> published[since..][|published| - since - 1] == published[|published| - 1];
  }

  /** With no selection sent since it subscribed, what a client was greeted with is still the latest. */
  lemma GreetingIsLatest(c: Client, events: Channel, published: seq<Publication>)
    requires ClientKeeps(c, true, events, published, |published|) && c.replay.Read?
    requires SelectionsOf(events.log[c.from..]) == []
    ensures c.replay.latest == LastOf(published)
  {
    assert published[c.since..|published|] == published[c.since..];
    LastPublished(events.log[c.from..], published, c.since);
    assert published[..|published|] == published;
  }

  /** A client that never fell behind and took all there is knows what was published last. */
  lemma ToldLatest(c: Client, events: Channel, published: seq<Publication>)
    requires ClientKeeps(c, true, events, published, |published|)
    requires c.replay.Read? && c.skipped == 0 && c.next == |events.log|
    ensures Newest(c.sent) == LastOf(published)
  {
    var since := events.log[c.from..];
    assert c.sent == Greeting(c.replay.latest) + since by {
      ReceivedAll(c, events);
      assert events.log[c.from..c.next] == since;
    }
    NewestOfConcat(Greeting(c.replay.latest), since);
    assert published[c.since..|published|] == published[c.since..];
    LastPublished(since, published, c.since);
    if c.since == |published| {
      assert SelectionsOf(since) == [];
      GreetingIsLatest(c, events, published);
      GreetingSays(c.replay.latest);
    }
  }

  /**
    * However publishing and connecting interleave, a client that never fell behind and
    * took all there is knows the latest selection, unless it is just being sent.
    */
  lemma NoMissedSelection(setup: Setup, steps: seq<Step>, id: nat)
    requires CaughtUp(After(setup, steps), id) && After(setup, steps).clients[id].skipped == 0
    requires !After(setup, steps).stage.Sending?
    ensures Newest(After(setup, steps).clients[id].sent) == After(setup, steps).latest
  {
    ClientAfter(setup, steps, id);
    var s := After(setup, steps);
    ToldLatest(s.clients[id], s.events, s.published);
  }

  /** When the pipeline is at rest, such a client knows what the user last selected. */
  lemma AtRestClientsAreCurrent(setup: Setup, steps: seq<Step>, id: nat)
    requires CaughtUp(After(setup, steps), id) && After(setup, steps).clients[id].skipped == 0
    requires AtRest(After(setup, steps))
    ensures var s := After(setup, steps);
            Newest(s.clients[id].sent) == Some(s.updates[|s.updates| - 1].selection)
  {
    NoMissedSelection(setup, steps, id);
    IdleIsCurrent(setup, steps);
  }

  /** The newest selection sent since `from` is at `place`. */
  predicate NewestAt(log: seq<Event>, from: nat, place: nat) {
    from <= place < |log| && log[place].SelectionChanged? && forall p :: place < p < |log| ==> log[p].AtMentioned?
  }

  /** A selection among some events is among its selections; the newest is the last. */
  lemma {:induction false} NewestIsLast(events: seq<Event>, place: nat)
    requires NewestAt(events, 0, place)
    ensures Newest(events) == Some(events[place].selection)
  {
    var n := |events| - 1;
    if place < n {
      assert events[n].AtMentioned?;
      NewestIsLast(events[..n], place);
    }
  }

  lemma ReceivedNewest(c: Client, events: Channel, published: seq<Publication>, place: nat)
    requires ClientKeeps(c, true, events, published, |published|)
    requires NewestAt(events.log, c.from, place) && place in c.got
    ensures Newest(c.sent) == LastOf(published)
  {
    var selection := events.log[place].selection;
    assert Newest(Picked(events.log, c.got)) == Some(selection) by {
      NewestPicked(events.log, c.got, place);
    }
    assert LastOf(published) == Some(selection) by {
      NewestSince(events.log, c.from, place);
      assert published[c.since..|published|] == published[c.since..];
      LastPublished(events.log[c.from..], published, c.since);
    }
    NewestOfConcat(if c.replay.Read? then Greeting(c.replay.latest) else [], Picked(events.log, c.got));
  }

  lemma NewestSince(log: seq<Event>, from: nat, place: nat)
    requires NewestAt(log, from, place)
    ensures Newest(log[from..]) == Some(log[place].selection)
  {
    NewestIsLast(log[from..], place - from);
  }

  /** Behind or not, a client that received the newest selection sent knows the latest one. */
  lemma ReceivedIsCurrent(setup: Setup, steps: seq<Step>, id: nat, place: nat)
    requires var s := After(setup, steps);
             && s.Serves(id) && !s.stage.Sending?
             && NewestAt(s.events.log, s.clients[id].from, place) && place in s.clients[id].got
    ensures Newest(After(setup, steps).clients[id].sent) == After(setup, steps).latest
  {
    ClientAfter(setup, steps, id);
    var s := After(setup, steps);
    ReceivedNewest(s.clients[id], s.events, s.published, place);
  }

  /** Where the newest selection since `from` is, if there is one. */
  lemma FindNewest(log: seq<Event>, from: nat) returns (place: Option<nat>)
    requires from <= |log|
    ensures place.Some? ==> NewestAt(log, from, place.value)
    ensures place.None? ==> forall p :: from <= p < |log| ==> log[p].AtMentioned?
  {
    var n := |log|;
    while from < n && log[n - 1].AtMentioned?
      invariant from <= n <= |log|
      invariant forall p :: n <= p < |log| ==> log[p].AtMentioned?
    {
      n := n - 1;
    }
    place := if n == from then None else Some(n - 1);
  }

  lemma {:induction false} OnlyMentions(events: seq<Event>)
    requires forall i :: 0 <= i < |events| ==> events[i].AtMentioned?
    ensures SelectionsOf(events) == []
  {
    if events != [] {
      OnlyMentions(events[..|events| - 1]);
    }
  }

  lemma GreetedIsCurrent(c: Client, events: Channel, published: seq<Publication>)
    requires ClientKeeps(c, true, events, published, |published|) && c.replay.Read?
    requires forall p :: c.from <= p < |events.log| ==> events.log[p].AtMentioned?
    ensures Newest(c.sent) == LastOf(published)
  {
    OnlyMentions(events.log[c.from..]);
    GreetingIsLatest(c, events, published);
    OnlyMentions(Picked(events.log, c.got));
    NewestOfConcat(Greeting(c.replay.latest), Picked(events.log, c.got));
    GreetingSays(c.replay.latest);
  }

  /** The newest selection sent since the client subscribed, if there is one, is among what it received. */
  ghost predicate HasNewest(c: Client, log: seq<Event>) {
    forall place: nat :: NewestAt(log, c.from, place) ==> place in c.got
  }

  /**
    * Such a client knows the latest selection, whatever it lost before, and whatever
    * mentions came after and whether it received those or not.
    */
  lemma HasNewestIsCurrent(setup: Setup, steps: seq<Step>, id: nat)
    requires var s := After(setup, steps);
             s.Serves(id) && !s.stage.Sending? && HasNewest(s.clients[id], s.events.log)
    ensures Newest(After(setup, steps).clients[id].sent) == After(setup, steps).latest
  {
    ClientAfter(setup, steps, id);
    var s := After(setup, steps);
    var place := FindNewest(s.events.log, s.clients[id].from);
    if place.Some? {
      ReceivedIsCurrent(setup, steps, id, place.value);
    } else {
      GreetedIsCurrent(s.clients[id], s.events, s.published);
    }
  }

  /** A client that never fell behind and took all there is has the newest. */
  lemma KeepingUpHasNewest(setup: Setup, steps: seq<Step>, id: nat)
    requires CaughtUp(After(setup, steps), id) && After(setup, steps).clients[id].skipped == 0
    ensures HasNewest(After(setup, steps).clients[id], After(setup, steps).events.log)
  {
    ClientAfter(setup, steps, id);
    var s := After(setup, steps);
    var c := s.clients[id];
    NothingSkipped(c, s.events, |c.got|);
    forall place: nat | NewestAt(s.events.log, c.from, place)
      ensures place in c.got
    {
      assert c.got[place - c.from] == place;
    }
  }

  /** Fewer than `capacity` mentions were sent after the newest selection, if one was sent at all. */
  ghost predicate StillThere(log: seq<Event>, from: nat, capacity: nat) {
    forall place: nat :: NewestAt(log, from, place) ==> |log| <= place + capacity
  }

  /** So has one that took all there is and was not pushed past it. */
  lemma StillThereHasNewest(setup: Setup, steps: seq<Step>, id: nat)
    requires var s := After(setup, steps);
             CaughtUp(s, id) && StillThere(s.events.log, s.clients[id].from, setup.capacity)
    ensures HasNewest(After(setup, steps).clients[id], After(setup, steps).events.log)
  {
    var s := After(setup, steps);
    forall place: nat | NewestAt(s.events.log, s.clients[id].from, place)
      ensures place in s.clients[id].got
    {
      OnlyPushedOutIsSkipped(setup, steps, id, place);
    }
  }

  /**
    * A client may fall behind as far as it likes: once it has taken all there is, it
    * knows the latest selection, unless `capacity` mentions were sent after it.
    */
  lemma NewestSurvivesLag(setup: Setup, steps: seq<Step>, id: nat)
    requires var s := After(setup, steps);
             && CaughtUp(s, id) && !s.stage.Sending?
             && StillThere(s.events.log, s.clients[id].from, setup.capacity)
    ensures Newest(After(setup, steps).clients[id].sent) == After(setup, steps).latest
  {
    StillThereHasNewest(setup, steps, id);
    HasNewestIsCurrent(setup, steps, id);
  }

  /**
    * That bound is exact: of what a client has not passed, taking all there is now gets
    * it precisely the places that fewer than `capacity` events follow.
    */
  lemma ExactlyTheNewestSurvive(setup: Setup, steps: seq<Step>, id: nat, place: nat)
    requires 0 < setup.capacity
    requires var s := After(setup, steps);
             s.Serves(id) && s.clients[id].next <= place < |s.events.log|
    ensures var s := After(setup, steps);
            place in Drained(s.clients[id], s.events).got <==> |s.events.log| <= place + setup.capacity
  {
    ClientAfter(setup, steps, id);
    var s := After(setup, steps);
    DrainDelivers(s.clients[id], s.events, place);
  }

  // ---- mentions ----

  predicate IsPublished(published: seq<Publication>, mention: Mention) {
    exists k :: 0 <= k < |published| && IsMentionOf(mention, published[k].pick.selection)
  }

  lemma StillPublished(published: seq<Publication>, more: seq<Publication>, mention: Mention)
    requires published <= more && IsPublished(published, mention)
    ensures IsPublished(more, mention)
  {
    var k :| 0 <= k < |published| && IsMentionOf(mention, published[k].pick.selection);
    assert more[k] == published[k];
  }

  /** Every mention, sent or about to be, is of a selection that was published. */
  ghost predicate MentionsKeep(s: System) {
    && (forall i :: 0 <= i < |s.events.log| && s.events.log[i].AtMentioned?
                    ==> IsPublished(s.published, s.events.log[i].mention))
    && (forall client :: client in s.asking ==> IsPublished(s.published, s.asking[client]))
  }

  /** Who asks for a mention is connected, and was greeted. */
  ghost predicate AskersServe(s: System) {
    forall client :: client in s.asking ==> s.Serves(client)
  }

  lemma AskersStep(setup: Setup, s: System, step: Step)
    requires AskersServe(s)
    ensures AskersServe(Next(setup, s, step))
  {
  }

  /** And until it is served, it takes no event, asks for nothing else and does not leave. */
  lemma AskersWait(setup: Setup, steps: seq<Step>, client: nat)
    requires client in After(setup, steps).asking
    ensures After(setup, steps).Serves(client)
    ensures forall step :: step in {Forward(client), AskMention(client), Leave(client), Greet(client)}
                           ==> After(setup, steps + [step]) == After(setup, steps)
  {
    var keeps := (s: System) => AskersServe(s);
    forall s: System, step: Step | keeps(s)
      ensures keeps(Next(setup, s, step))
    {
      AskersStep(setup, s, step);
    }
    EveryRun(keeps, setup, steps);
    forall step | step in {Forward(client), AskMention(client), Leave(client), Greet(client)}
      ensures After(setup, steps + [step]) == After(setup, steps)
    {
      AfterOne(setup, steps, step);
    }
  }

  lemma AskKeepsMentions(s: System, client: nat)
    requires CellMatches(s) && MentionsKeep(s)
    ensures MentionsKeep(Asked(s, client))
  {
    if s.latest.Some? {
      assert IsMentionOf(MentionOf(s.latest.value), s.published[|s.published| - 1].pick.selection);
    }
  }

  lemma WriteKeepsMentions(s: System)
    requires MentionsKeep(s)
    ensures MentionsKeep(Written(s))
  {
    forall mention | IsPublished(s.published, mention)
      ensures IsPublished(Written(s).published, mention)
    {
      StillPublished(s.published, Written(s).published, mention);
    }
  }

  lemma SendKeepsMentions(s: System, client: nat)
    requires MentionsKeep(s)
    ensures MentionsKeep(Mentioned(s, client)) && MentionsKeep(Dispatched(s))
  {
  }

  lemma MentionsStep(setup: Setup, s: System, step: Step)
    requires CellMatches(s) && MentionsKeep(s)
    ensures MentionsKeep(Next(setup, s, step))
  {
    match step
    case Write => WriteKeepsMentions(s);
    case Send => SendKeepsMentions(s, 0);
    case AskMention(client) => AskKeepsMentions(s, client);
    case SendMention(client) => SendKeepsMentions(s, client);
    case _ =>
  }

  lemma MentionsArePublished(setup: Setup, steps: seq<Step>)
    ensures MentionsKeep(After(setup, steps))
  {
    var keeps := (s: System) => MentionsKeep(s);
    forall s: System, step: Step | CellMatches(s) && keeps(s)
      ensures keeps(Next(setup, s, step))
    {
      MentionsStep(setup, s, step);
    }
    EveryRunWithTask(keeps, setup, steps);
  }

  // ---- where the newest is missed ----

  const CONNECTED := [] + [Connect] + [Greet(0)]

  /** A client connects, and then this is reported and noticed. */
  function Settle(selection: Selection): seq<Step> {
    CONNECTED + [Report(selection)] + [Notice]
  }

  /** The debounce passes, and it is published. */
  function Publish(setup: Setup, selection: Selection): seq<Step> {
    Settle(selection) + [Tick(setup.debounce)] + [Fire] + [Write] + [Send]
  }

  /** The client asks for `k` mentions. */
  function Mentions(k: nat): seq<Step> {
    if k == 0 then [] else Mentions(k - 1) + [AskMention(0)] + [SendMention(0)]
  }

  /** The client takes `k` times what is next. */
  function Forwards(k: nat): seq<Step> {
    if k == 0 then [] else [Forward(0)] + Forwards(k - 1)
  }

  const LISTENER := Client(0, 0, 0, Read(None, 0), [], [], 0, false)

  lemma SettledState(setup: Setup, selection: Selection)
    ensures var s := After(setup, Settle(selection));
            && s.stage == Settling(setup.debounce, 0) && s.now == 0 && s.seen == 1
            && s.updates == [Update(selection, 0)] && s.latest == s.lastSent == None
            && s.events == Channel([], setup.capacity, {0}) && s.clients == [LISTENER] && s.asking == map[]
  {
    AfterOne(setup, [], Connect);
    var s := After(setup, [] + [Connect]);
    assert s.events.receivers == {0};
    assert s.clients == [Client(0, 0, 0, NotRead, [], [], 0, false)];
    AfterOne(setup, [] + [Connect], Greet(0));
    AfterOne(setup, CONNECTED, Report(selection));
    AfterOne(setup, CONNECTED + [Report(selection)], Notice);
  }

  lemma PublishedState(setup: Setup, selection: Selection)
    ensures var s := After(setup, Publish(setup, selection));
            && s.stage == Waiting && s.latest == Some(selection)
            && s.events == Channel([SelectionChanged(selection)], setup.capacity, {0})
            && s.clients == [LISTENER] && s.asking == map[]
  {
    SettledState(setup, selection);
    var settled := Settle(selection);
    var ticked := settled + [Tick(setup.debounce)];
    AfterOne(setup, settled, Tick(setup.debounce));
    AfterOne(setup, ticked, Fire);
    assert Reported([Update(selection, 0)]) == [selection];
    assert After(setup, ticked + [Fire]).stage == Writing(Pick(selection, 0, 1, 1, setup.debounce));
    AfterOne(setup, ticked + [Fire], Write);
    AfterOne(setup, ticked + [Fire] + [Write], Send);
  }

  /** `log` is a selection, and then `k` mentions. */
  predicate MentionsFollow(log: seq<Event>, selection: Selection, k: nat) {
    |log| == k + 1 && log[0] == SelectionChanged(selection) && forall i :: 0 < i <= k ==> log[i].AtMentioned?
  }

  lemma OneMention(setup: Setup, steps: seq<Step>, selection: Selection)
    requires var s := After(setup, steps);
             s.IsFree(0) && s.asking == map[] && s.latest == Some(selection)
    ensures var s := After(setup, steps);
            After(setup, steps + [AskMention(0)] + [SendMention(0)])
            == s.(events := s.events.Send(AtMentioned(MentionOf(selection))))
  {
    AfterOne(setup, steps, AskMention(0));
    AfterOne(setup, steps + [AskMention(0)], SendMention(0));
  }

  lemma {:induction false} MentionedState(setup: Setup, selection: Selection, k: nat)
    ensures var s := After(setup, Publish(setup, selection) + Mentions(k));
            && s.stage == Waiting && s.latest == Some(selection) && s.clients == [LISTENER] && s.asking == map[]
            && s.events.receivers == {0} && s.events.capacity == setup.capacity
            && MentionsFollow(s.events.log, selection, k)
  {
    var published := Publish(setup, selection);
    if k == 0 {
      PublishedState(setup, selection);
      assert published + Mentions(k) == published;
    } else {
      MentionedState(setup, selection, k - 1);
      var before := published + Mentions(k - 1);
      OneMention(setup, before, selection);
      assert published + Mentions(k) == before + [AskMention(0)] + [SendMention(0)];
    }
  }

  /** What becomes of a client that takes `k` times what is next. */
  function Taken(c: Client, channel: Channel, k: nat): Client
    decreases k
  {
    if k == 0 then c else Taken(c.Forwarded(channel), channel, k - 1)
  }

  lemma PushedIsForwarded(setup: Setup, s: System)
    requires s.IsFree(0)
    ensures var t := Next(setup, s, Forward(0));
            t == s.(clients := s.clients[0 := s.clients[0].Forwarded(s.events)]) && t.IsFree(0)
  {
    assert s.clients[0].Forwarded(s.events).replay == s.clients[0].replay;
  }

  lemma OneForward(setup: Setup, steps: seq<Step>)
    requires After(setup, steps).IsFree(0)
    ensures var s := After(setup, steps);
            && After(setup, steps + [Forward(0)]) == s.(clients := s.clients[0 := s.clients[0].Forwarded(s.events)])
            && After(setup, steps + [Forward(0)]).IsFree(0)
  {
    AfterOne(setup, steps, Forward(0));
    PushedIsForwarded(setup, After(setup, steps));
  }

  lemma {:induction false} ForwardedState(setup: Setup, steps: seq<Step>, k: nat)
    requires After(setup, steps).IsFree(0)
    ensures var s := After(setup, steps);
            After(setup, steps + Forwards(k)) == s.(clients := s.clients[0 := Taken(s.clients[0], s.events, k)])
    decreases k
  {
    if k == 0 {
      assert steps + Forwards(k) == steps;
    } else {
      OneForward(setup, steps);
      ForwardedState(setup, steps + [Forward(0)], k - 1);
      assert steps + Forwards(k) == steps + [Forward(0)] + Forwards(k - 1);
    }
  }

  /** Often enough is until there is nothing left. */
  lemma {:induction false} TakenIsDrained(c: Client, channel: Channel, k: nat)
    requires Consistent(c, channel) && c.replay.Read? && 0 < channel.capacity && |channel.log| <= c.next + k
    ensures Taken(c, channel, k) == Drained(c, channel)
    decreases k
  {
    if 0 < k {
      ForwardedConsistent(c, channel);
      TakenIsDrained(c.Forwarded(channel), channel, k - 1);
    }
  }

  lemma MentionsPicked(c: Client, channel: Channel, selection: Selection)
    requires Consistent(c, channel) && c.replay == Read(None, 0) && 0 !in c.got
    requires 0 < |channel.log| && MentionsFollow(channel.log, selection, |channel.log| - 1)
    ensures Newest(c.sent) == None
  {
    PickedAreMentions(channel.log, c.got, selection);
    OnlyMentions(Picked(channel.log, c.got));
    assert c.sent == Picked(channel.log, c.got);
  }

  lemma PickedAreMentions(log: seq<Event>, got: seq<nat>, selection: Selection)
    requires 0 !in got && forall i :: 0 <= i < |got| ==> got[i] < |log|
    requires 0 < |log| && MentionsFollow(log, selection, |log| - 1)
    ensures forall i :: 0 <= i < |got| ==> Picked(log, got)[i].AtMentioned?
  {
    forall i | 0 <= i < |got|
      ensures log[got[i]].AtMentioned?
    {
      assert got[i] != 0;
    }
  }

  /** A client that comes to `capacity` mentions of a selection gets none but the mentions. */
  lemma OnlyMentionsAreLeft(channel: Channel, selection: Selection)
    requires 0 < channel.capacity && MentionsFollow(channel.log, selection, channel.capacity)
    ensures var c := Drained(LISTENER, channel);
            c.next == |channel.log| && c.replay.Read? && Newest(c.sent) == None
  {
    assert Picked(channel.log, LISTENER.got) == [];
    DrainDelivers(LISTENER, channel, 0);
    MentionsPicked(Drained(LISTENER, channel), channel, selection);
  }

  lemma ListenerDrains(setup: Setup, steps: seq<Step>, k: nat)
    requires var s := After(setup, steps);
             s.IsFree(0) && s.clients == [LISTENER] && |s.events.log| <= k && 0 < s.events.capacity
    ensures var s := After(setup, steps);
            After(setup, steps + Forwards(k)) == s.(clients := [Drained(LISTENER, s.events)])
  {
    var s := After(setup, steps);
    ForwardedState(setup, steps, k);
    assert Picked(s.events.log, LISTENER.got) == [];
    TakenIsDrained(LISTENER, s.events, k);
  }

  /**
    * Without that bound it fails, whatever the debounce and however much room there is: as
    * many mentions as there is room for push the selection out, and a client that took all
    * there is was never sent it.
    */
  lemma MentionsPushSelectionOut(setup: Setup, selection: Selection)
    requires 0 < setup.capacity
    ensures var steps := Publish(setup, selection) + Mentions(setup.capacity) + Forwards(setup.capacity + 1);
            var s := After(setup, steps);
            && CaughtUp(s, 0) && s.stage.Waiting? && s.latest == Some(selection)
            && Newest(s.clients[0].sent) == None
  {
    var steps := Publish(setup, selection) + Mentions(setup.capacity);
    var s := After(setup, steps);
    MentionedState(setup, selection, setup.capacity);
    OnlyMentionsAreLeft(s.events, selection);
    ListenerDrains(setup, steps, setup.capacity + 1);
  }
}
