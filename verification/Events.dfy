/**
  * The bus between the editor side and the connected clients: a cell holding the
  * latest selection, and a bounded broadcast channel.
  */
module Events {
  import opened Prelude
  import opened Selections

  /** Everything the clients are told about. */
  datatype Event =
    | SelectionChanged(selection: Selection)
    | AtMentioned(mention: Mention)

  /** What a receiver finds: nothing, its next event, or that it fell behind. */
  datatype Polled =
    | Empty
    | Received(event: Event)
    | Lagged(skipped: nat)

  /**
    * A broadcast channel. `log` is all that was ever sent to somebody; the channel
    * keeps the last `capacity` of it and drops what is older.
    */
  datatype Channel = Channel(log: seq<Event>, capacity: nat, receivers: set<nat>) {
    /** With nobody listening, what is sent is dropped. */
    function Send(event: Event): Channel {
      if receivers == {} then this else this.(log := log + [event])
    }

    /** The place of the oldest event still kept. */
    function Oldest(): nat {
      if |log| <= capacity then 0 else |log| - capacity
    }

    /** What a receiver that has come as far as `next` finds. */
    function Poll(next: nat): Polled {
      if |log| <= next then Empty
      else if next < Oldest() then Lagged(Oldest() - next)
      else Received(log[next])
    }
  }

  /** A place in a channel's log. */
  datatype Receiver = Receiver(id: nat, next: nat)

  class EventBus {
    var events: Channel
    var latest: Watch<Selection>
    /** Every selection published, oldest first. */
    ghost var published: seq<Selection>
    /** How many have ever subscribed. */
    var subscribed: nat

    ghost predicate Valid()
      reads this
    {
      && latest == CellOf(published) && 0 < events.capacity
      && forall id :: id in events.receivers ==> id < subscribed
    }

    constructor (capacity: nat)
      requires 0 < capacity
      ensures Valid() && published == []
      ensures events == Channel([], capacity, {})
    {
      events := Channel([], capacity, {});
      latest := Watch(None, 0);
      published := [];
      subscribed := 0;
    }

    /** A new receiver sees what is sent from now on, and nothing before. */
    method Subscribe() returns (receiver: Receiver)
      requires Valid()
      modifies this`events, this`subscribed
      ensures Valid() && receiver.id !in old(events.receivers) && receiver.next == |events.log|
      ensures events == old(events).(receivers := old(events.receivers) + {receiver.id})
      ensures events.Poll(receiver.next) == Empty
      ensures forall event :: events.Send(event).Poll(receiver.next) == Received(event)
    {
      receiver := Receiver(subscribed, |events.log|);
      events := events.(receivers := events.receivers + {receiver.id});
      subscribed := subscribed + 1;
    }

    /** The last element of `published`. */
    method Latest() returns (selection: Option<Selection>)
      requires Valid()
      ensures selection == if published == [] then None else Some(published[|published| - 1])
    {
      selection := latest.value;
    }

    /** The cell first, then whoever is listening. */
    method PublishSelection(selection: Selection)
      requires Valid()
      modifies this`events, this`latest, this`published
      ensures Valid() && published == old(published) + [selection]
      ensures events == old(events).Send(SelectionChanged(selection))
    {
      latest := latest.SendReplace(selection);
      published := published + [selection];
      events := events.Send(SelectionChanged(selection));
    }

    /** A mention goes to the subscribers and leaves no trace in the cell. */
    method PublishMention(mention: Mention)
      requires Valid()
      modifies this`events
      ensures Valid() && events == old(events).Send(AtMentioned(mention))
    {
      events := events.Send(AtMentioned(mention));
    }
  }

  // ---- one client ----

  /** What a client was told on connecting: nothing yet, or the latest selection when `writes` had been published. */
  datatype Replay = NotRead | Read(latest: Option<Selection>, writes: nat)

  /**
    * A connected client. It subscribed when the log held `from` events; `next` is how
    * far it has come; `sent` are the frames it was sent. The rest is history: `since`
    * selections had been sent when it subscribed, `got` are the places in the log it
    * received from, and `skipped` events it never saw.
    */
  datatype Client = Client(
    from: nat, since: nat, next: nat, replay: Replay, sent: seq<Event>,
    got: seq<nat>, skipped: nat, laggedBefore: bool)
  {
    /** It reads the cell, after having subscribed, and is sent what it holds. */
    function Greeted(latest: Option<Selection>, writes: nat): Client {
      this.(replay := Read(latest, writes), sent := Greeting(latest))
    }

    /** It takes what is next in the channel. */
    function Forwarded(channel: Channel): Client {
      match channel.Poll(next)
      case Empty => this
      case Lagged(n) => this.(next := next + n, skipped := skipped + n, laggedBefore := true)
      case Received(event) => this.(next := next + 1, got := got + [next], sent := sent + [event])
    }
  }

  function Greeting(latest: Option<Selection>): seq<Event> {
    match latest
    case None => []
    case Some(selection) => [SelectionChanged(selection)]
  }

  /** The selections among some events, in order. */
  function SelectionsOf(events: seq<Event>): seq<Selection> {
    if events == [] then []
    else
      var n := |events| - 1;
      SelectionsOf(events[..n]) + match events[n] { case SelectionChanged(s) => [s] case AtMentioned(_) => [] }
  }

  /** The last of them. */
  function Newest(events: seq<Event>): Option<Selection> {
    var all := SelectionsOf(events);
    if all == [] then None else Some(all[|all| - 1])
  }

  lemma {:induction false} SelectionsOfConcat(a: seq<Event>, b: seq<Event>)
    ensures SelectionsOf(a + b) == SelectionsOf(a) + SelectionsOf(b)
  {
    if b == [] {
      assert a + b == a;
    } else {
      var n := |b| - 1;
      SelectionsOfConcat(a, b[..n]);
      assert (a + b)[..|a + b| - 1] == a + b[..n];
    }
  }

  lemma NewestOfConcat(a: seq<Event>, b: seq<Event>)
    ensures Newest(a + b) == if Newest(b).Some? then Newest(b) else Newest(a)
  {
    SelectionsOfConcat(a, b);
  }

  // ---- what a client makes of the log ----

  /** The events at these places of a log. */
  function Picked(log: seq<Event>, places: seq<nat>): seq<Event>
    requires forall i :: 0 <= i < |places| ==> places[i] < |log|
  {
    seq(|places|, i requires 0 <= i < |places| => log[places[i]])
  }

  /**
    * What holds of a client at every moment: it received a strictly rising choice of
    * what was sent since it subscribed; received, skipped and still to come add up to
    * all of it; and it only skipped what `capacity` newer events had pushed out.
    */
  ghost predicate Consistent(c: Client, channel: Channel) {
    && c.from <= c.next <= |channel.log|
    && |c.got| + c.skipped == c.next - c.from
    && (forall i :: 0 <= i < |c.got| ==> c.from <= c.got[i] < c.next)
    && (forall i, j :: 0 <= i < j < |c.got| ==> c.got[i] < c.got[j])
    && (forall place {:trigger place in c.got} ::
          c.from <= place < c.next ==> place in c.got || place + channel.capacity < |channel.log|)
    && c.sent == (if c.replay.Read? then Greeting(c.replay.latest) else []) + Picked(channel.log, c.got)
    && (c.replay.NotRead? ==> c.next == c.from)
    && (c.laggedBefore <==> 0 < c.skipped)
  }

  /** So it is for a client that has just subscribed and been told what was latest. */
  lemma GreetedConsistent(channel: Channel, since: nat, latest: Option<Selection>)
    ensures var place := |channel.log|;
            var c := Client(place, since, place, NotRead, [], [], 0, false);
            Consistent(c, channel) && Consistent(c.Greeted(latest, since), channel)
  {
    assert Picked(channel.log, []) == [];
  }

  lemma ForwardedConsistent(c: Client, channel: Channel)
    requires Consistent(c, channel) && c.replay.Read?
    ensures Consistent(c.Forwarded(channel), channel)
  {
    var after := c.Forwarded(channel);
    if channel.Poll(c.next).Received? {
      assert forall place :: place in after.got <==> place in c.got || place == c.next;
      assert Picked(channel.log, after.got) == Picked(channel.log, c.got) + [channel.log[c.next]];
    }
  }

  lemma SentConsistent(c: Client, channel: Channel, event: Event)
    requires Consistent(c, channel)
    ensures Consistent(c, channel.Send(event))
  {
    assert Picked(channel.Send(event).log, c.got) == Picked(channel.log, c.got);
  }

  /** The client takes everything there is. */
  function Drained(c: Client, channel: Channel): Client
    decreases |channel.log| - c.next
  {
    if |channel.log| <= c.next then c else Drained(c.Forwarded(channel), channel)
  }

  /**
    * Draining, a client receives exactly what it has not passed and what fewer than
    * `capacity` events follow.
    */
  lemma {:induction false} DrainDelivers(c: Client, channel: Channel, place: nat)
    requires Consistent(c, channel) && c.replay.Read? && 0 < channel.capacity && place < |channel.log|
    ensures Consistent(Drained(c, channel), channel) && Drained(c, channel).next == |channel.log|
    ensures Drained(c, channel).replay == c.replay && Drained(c, channel).from == c.from
    ensures place in Drained(c, channel).got
       <==> place in c.got || (c.next <= place && |channel.log| <= place + channel.capacity)
    decreases |channel.log| - c.next
  {
    if c.next < |channel.log| {
      ForwardedConsistent(c, channel);
      DrainDelivers(c.Forwarded(channel), channel, place);
    }
  }

  /** A client that never fell behind received everything, in order. */
  lemma {:induction false} NothingSkipped(c: Client, channel: Channel, n: nat)
    requires Consistent(c, channel) && c.skipped == 0 && n <= |c.got|
    ensures forall i :: 0 <= i < n ==> c.got[i] == c.from + i
  {
    if 0 < n {
      NothingSkipped(c, channel, n - 1);
      TopsOut(c, channel, n - 1);
    }
  }

  lemma {:induction false} TopsOut(c: Client, channel: Channel, i: nat)
    requires Consistent(c, channel) && i < |c.got|
    ensures c.from + i <= c.got[i] <= c.next - (|c.got| - i)
    decreases |c.got| - i
  {
    if i + 1 < |c.got| {
      TopsOut(c, channel, i + 1);
    }
    var k := 0;
    while k < i
      invariant 0 <= k <= i && c.from + k <= c.got[k]
    {
      k := k + 1;
    }
  }

  lemma ReceivedAll(c: Client, channel: Channel)
    requires Consistent(c, channel) && c.skipped == 0
    ensures Picked(channel.log, c.got) == channel.log[c.from..c.next]
  {
    NothingSkipped(c, channel, |c.got|);
  }

  /** If the newest selection in the log was received, it is the newest received. */
  lemma {:induction false} NewestPicked(log: seq<Event>, got: seq<nat>, place: nat)
    requires forall i :: 0 <= i < |got| ==> got[i] < |log|
    requires forall i, j :: 0 <= i < j < |got| ==> got[i] < got[j]
    requires place in got && log[place].SelectionChanged?
    requires forall p :: place < p < |log| ==> log[p].AtMentioned?
    ensures Newest(Picked(log, got)) == Some(log[place].selection)
  {
    var n := |got| - 1;
    assert Picked(log, got)[..n] == Picked(log, got[..n]);
    if got[n] != place {
      assert place < got[n];
      NewestPicked(log, got[..n], place);
    }
  }
}
