/**
  * The selection pipeline as a step system: the editor reports selections into a
  * cell, one task debounces and publishes them, and clients come, listen and go, in
  * any interleaving.
  */
module Pipeline {
  import opened Prelude
  import opened Selections
  import opened Events

  datatype Setup = Setup(debounce: nat, capacity: nat)

  /** A selection the editor reported, and when. */
  datatype Update = Update(selection: Selection, at: nat)

  /**
    * A selection taken from the cell to be published at time `fired`: version `version`
    * of the cell. Update `first` ended the wait for it; the timer was last set when the
    * first `noticed` updates had been seen.
    */
  datatype Pick = Pick(selection: Selection, first: nat, noticed: nat, version: nat, fired: nat)

  datatype Publication = Publication(pick: Pick, written: nat)

  /** Where the debouncing task stands. */
  datatype Stage =
    /** for a first update */
    | Waiting
    /** for the timer, set to go off at `deadline`; every update restarts it */
    | Settling(deadline: nat, first: nat)
    /** about to write the cell of the bus */
    | Writing(pick: Pick)
    /** about to send to the subscribers */
    | Sending(selection: Selection)
    /** the trackers are gone; `settled` tells whether it had nothing left to publish */
    | Ended(settled: bool)

  /**
    * `seen` is the version of the cell the debouncer last saw. `asking` holds the mention of
    * each client whose request for one is being handled: made, but not yet sent. `published`
    * is history: every selection written to `latest`.
    */
  datatype System = System(
    now: nat, updates: seq<Update>, closed: bool,
    stage: Stage, seen: nat, lastSent: Option<Selection>,
    latest: Option<Selection>, events: Channel, published: seq<Publication>,
    clients: seq<Client>, asking: map<nat, Mention>)
  {
    /** The cell the editor reports into. */
    function Cell(): Watch<Selection> {
      CellOf(Reported(updates))
    }

    /** How many publications have been both written and sent. */
    function Complete(): nat {
      if stage.Sending? && 0 < |published| then |published| - 1 else |published|
    }

    predicate IsLive(client: nat) {
      client < |clients| && client in events.receivers
    }

    /** The client runs its loop: it is connected and was told what there was. */
    predicate Serves(client: nat) {
      IsLive(client) && clients[client].replay.Read?
    }

    /** And it is not in the middle of handling a message. */
    predicate IsFree(client: nat) {
      Serves(client) && client !in asking
    }
  }

  function Reported(updates: seq<Update>): seq<Selection> {
    seq(|updates|, i requires 0 <= i < |updates| => updates[i].selection)
  }

  function Initial(setup: Setup): System {
    System(0, [], false, Waiting, 0, None, None, Channel([], setup.capacity, {}), [], [], map[])
  }

  /** One step of somebody. */
  datatype Step =
    | Tick(duration: nat)
    | Report(selection: Selection)
    | DropTrackers
    | Notice
    | Fire
    | Write
    | Send
    | End
    | Connect
    | Greet(client: nat)
    | Forward(client: nat)
    | AskMention(client: nat)
    | SendMention(client: nat)
    | Leave(client: nat)

  // ---- the debouncer ----

  /** `changed()` returns: there is a version not seen yet. The timer starts over. */
  function Noticed(setup: Setup, s: System): System {
    if (s.stage.Waiting? || s.stage.Settling?) && s.seen < |s.updates| then
      var first := if s.stage.Settling? then s.stage.first else s.seen;
      s.(stage := Settling(s.now + setup.debounce, first), seen := |s.updates|)
    else s
  }

  /** The timer goes off; it may do so although a change is pending too. */
  function Fired(s: System): System {
    if s.stage.Settling? && s.stage.deadline <= s.now then
      var t := s.(seen := |s.updates|);
      match s.Cell().value
      case None => t.(stage := Waiting)
      case Some(selection) =>
        if s.lastSent == Some(selection) then t.(stage := Waiting)
        else
          t.(lastSent := Some(selection),
             stage := Writing(Pick(selection, s.stage.first, s.seen, |s.updates|, s.now)))
    else s
  }

  function Written(s: System): System {
    if s.stage.Writing? then
      var pick := s.stage.pick;
      s.(latest := Some(pick.selection), stage := Sending(pick.selection),
         published := s.published + [Publication(pick, s.now)])
    else s
  }

  function Dispatched(s: System): System {
    if s.stage.Sending? then
      s.(events := s.events.Send(SelectionChanged(s.stage.selection)), stage := Waiting)
    else s
  }

  /** `changed()` fails: the trackers are gone and there is nothing unseen. */
  function Finished(s: System): System {
    if (s.stage.Waiting? || s.stage.Settling?) && s.closed && |s.updates| <= s.seen then
      s.(stage := Ended(s.stage.Waiting?))
    else s
  }

  // ---- a client ----

  /** Subscribes. */
  function Connected(s: System): System {
    var place := |s.events.log|;
    var client := Client(place, s.Complete(), place, NotRead, [], [], 0, false);
    s.(clients := s.clients + [client],
       events := s.events.(receivers := s.events.receivers + {|s.clients|}))
  }

  /** Reads the latest selection and is sent it. */
  function Welcomed(s: System, client: nat): System {
    if s.IsLive(client) && s.clients[client].replay.NotRead? then
      s.(clients := s.clients[client := s.clients[client].Greeted(s.latest, |s.published|)])
    else s
  }

  /** Takes one event from the channel. */
  function Pushed(s: System, client: nat): System {
    if s.IsFree(client) then s.(clients := s.clients[client := s.clients[client].Forwarded(s.events)])
    else s
  }

  /** Asks for an at-mention: the mention is made of the selection that is latest now. */
  function Asked(s: System, client: nat): System {
    if s.IsFree(client) && s.latest.Some? then
      s.(asking := s.asking[client := MentionOf(s.latest.value)])
    else s
  }

  /** The mention is sent; others may have had their turn in between. */
  function Mentioned(s: System, client: nat): System {
    if client in s.asking then
      s.(events := s.events.Send(AtMentioned(s.asking[client])), asking := s.asking - {client})
    else s
  }

  /** Disconnects, for whatever reason. */
  function Departed(s: System, client: nat): System {
    if s.IsLive(client) && client !in s.asking then
      s.(events := s.events.(receivers := s.events.receivers - {client}))
    else s
  }

  // ---- runs ----

  /** A step that is not ready changes nothing. */
  function Next(setup: Setup, s: System, step: Step): System {
    match step
    case Tick(duration) => s.(now := s.now + duration)
    case Report(selection) =>
      if s.closed then s else s.(updates := s.updates + [Update(selection, s.now)])
    case DropTrackers => s.(closed := true)
    case Notice => Noticed(setup, s)
    case Fire => Fired(s)
    case Write => Written(s)
    case Send => Dispatched(s)
    case End => Finished(s)
    case Connect => Connected(s)
    case Greet(client) => Welcomed(s, client)
    case Forward(client) => Pushed(s, client)
    case AskMention(client) => Asked(s, client)
    case SendMention(client) => Mentioned(s, client)
    case Leave(client) => Departed(s, client)
  }

  /** The system after a run. */
  function After(setup: Setup, steps: seq<Step>): System {
    if steps == [] then Initial(setup)
    else
      var n := |steps| - 1;
      Next(setup, After(setup, steps[..n]), steps[n])
  }

  lemma AfterOne(setup: Setup, steps: seq<Step>, step: Step)
    ensures After(setup, steps + [step]) == Next(setup, After(setup, steps), step)
  {
    assert (steps + [step])[..|steps|] == steps;
  }

  // ---- what every run keeps, of the debouncer ----

  /** Publication `p` waited out the debounce, and took what was newest when it did. */
  predicate IsSettled(debounce: nat, updates: seq<Update>, p: Pick) {
    && p.first < p.noticed <= p.version <= |updates|
    && updates[p.first].at + debounce <= p.fired
    && updates[p.noticed - 1].at + debounce <= p.fired
    && p.selection == updates[p.version - 1].selection
    && updates[p.version - 1].at <= p.fired
    && (p.version < |updates| ==> p.fired <= updates[p.version].at)
  }

  /** Everything published concerns versions up to `first`, and came `debounce` before `time`. */
  ghost predicate AllBefore(debounce: nat, published: seq<Publication>, first: nat, time: nat) {
    forall i :: 0 <= i < |published|
                ==> published[i].pick.version <= first && published[i].written + debounce <= time
  }

  ghost predicate Timely(s: System) {
    && (forall i :: 0 <= i < |s.updates| ==> s.updates[i].at <= s.now)
    && (forall i :: 0 <= i < |s.published| ==> s.published[i].written <= s.now)
  }

  ghost predicate Paced(debounce: nat, updates: seq<Update>, published: seq<Publication>) {
    && (forall i :: 0 <= i < |published| ==>
          IsSettled(debounce, updates, published[i].pick) && published[i].pick.fired <= published[i].written)
    && (forall i, j :: 0 <= i < j < |published| ==> Apart(debounce, published[i], published[j]))
    && (forall i, j :: 0 <= i && i + 1 == j < |published| ==>
          published[i].pick.selection != published[j].pick.selection)
  }

  predicate Apart(debounce: nat, a: Publication, b: Publication) {
    a.pick.version <= b.pick.first && a.written + debounce <= b.pick.fired
  }

  /** The selection last published. */
  function LastOf(published: seq<Publication>): Option<Selection> {
    if published == [] then None else Some(published[|published| - 1].pick.selection)
  }

  ghost predicate StageFits(debounce: nat, s: System) {
    match s.stage
    case Waiting => AllBefore(debounce, s.published, s.seen, s.now + debounce)
    case Settling(deadline, first) =>
      && first < s.seen <= |s.updates|
      && s.updates[first].at + debounce <= deadline && s.updates[s.seen - 1].at + debounce <= deadline
      && AllBefore(debounce, s.published, first, deadline)
    case Writing(pick) =>
      && IsSettled(debounce, s.updates, pick) && pick.fired <= s.now && pick.version == s.seen
      && AllBefore(debounce, s.published, pick.first, pick.fired)
      && LastOf(s.published) != Some(pick.selection)
    case Sending(selection) =>
      && LastOf(s.published) == Some(selection)
      && AllBefore(debounce, s.published, s.seen, s.now + debounce)
    case Ended(settled) => s.closed && s.seen == |s.updates|
  }

  /** What the debouncer remembers, and when that is the newest it has seen. */
  ghost predicate Remembers(s: System) {
    && s.seen <= |s.updates|
    && s.latest == LastOf(s.published)
    && s.lastSent == (if s.stage.Writing? then Some(s.stage.pick.selection) else s.latest)
    && (!s.stage.Settling? && s.stage != Ended(false) ==>
          s.lastSent == if s.seen == 0 then None else Some(s.updates[s.seen - 1].selection))
  }

  ghost predicate TaskKeeps(setup: Setup, s: System) {
    Timely(s) && Paced(setup.debounce, s.updates, s.published) && StageFits(setup.debounce, s) && Remembers(s)
  }

  lemma NoticeKeeps(setup: Setup, s: System)
    ensures TaskKeeps(setup, s) ==> TaskKeeps(setup, Noticed(setup, s))
  {
  }

  /** When the timer goes off the cell is not empty, and holds the newest update. */
  lemma CellHoldsNewest(debounce: nat, s: System)
    requires s.stage.Settling? && StageFits(debounce, s)
    ensures s.updates != [] && s.Cell().value == Some(s.updates[|s.updates| - 1].selection)
  {
  }

  /** Going off, the timer finds the debouncer either with nothing new or with something to publish. */
  lemma FireMeans(debounce: nat, s: System)
    requires s.stage.Settling? && StageFits(debounce, s) && s.stage.deadline <= s.now
    ensures var newest := s.updates[|s.updates| - 1].selection;
            Fired(s) == if s.lastSent == Some(newest) then s.(seen := |s.updates|, stage := Waiting)
                       else s.(seen := |s.updates|, lastSent := Some(newest),
                               stage := Writing(Pick(newest, s.stage.first, s.seen, |s.updates|, s.now)))
  {
    CellHoldsNewest(debounce, s);
  }

  /** What it then has to publish waited out the debounce. */
  lemma FirePicksSettled(debounce: nat, s: System)
    requires s.stage.Settling? && StageFits(debounce, s) && s.stage.deadline <= s.now
    requires forall i :: 0 <= i < |s.updates| ==> s.updates[i].at <= s.now
    ensures var newest := s.updates[|s.updates| - 1].selection;
            IsSettled(debounce, s.updates, Pick(newest, s.stage.first, s.seen, |s.updates|, s.now))
  {
  }

  lemma FireKeeps(setup: Setup, s: System)
    ensures TaskKeeps(setup, s) ==> TaskKeeps(setup, Fired(s))
  {
    if TaskKeeps(setup, s) {
      if s.stage.Settling? && s.stage.deadline <= s.now {
        FireMeans(setup.debounce, s);
        FirePicksSettled(setup.debounce, s);
      }
    }
  }

  /** Nothing the debouncer can see has changed, except the time. */
  predicate SameTask(s: System, t: System) {
    && s.now <= t.now && t.updates == s.updates && (s.closed ==> t.closed) && t.stage == s.stage
    && t.seen == s.seen && t.lastSent == s.lastSent && t.latest == s.latest && t.published == s.published
  }

  lemma SameTaskKeeps(setup: Setup, s: System, t: System)
    ensures TaskKeeps(setup, s) && SameTask(s, t) ==> TaskKeeps(setup, t)
  {
  }

  lemma WritePaced(debounce: nat, updates: seq<Update>, published: seq<Publication>, pick: Pick, now: nat)
    requires Paced(debounce, updates, published) && IsSettled(debounce, updates, pick) && pick.fired <= now
    requires AllBefore(debounce, published, pick.first, pick.fired) && LastOf(published) != Some(pick.selection)
    ensures Paced(debounce, updates, published + [Publication(pick, now)])
  {
  }

  lemma WriteKeeps(setup: Setup, s: System)
    ensures TaskKeeps(setup, s) ==> TaskKeeps(setup, Written(s))
  {
    if TaskKeeps(setup, s) {
      if s.stage.Writing? {
        WritePaced(setup.debounce, s.updates, s.published, s.stage.pick, s.now);
      }
    }
  }

  lemma SendKeeps(setup: Setup, s: System)
    ensures TaskKeeps(setup, s) ==> TaskKeeps(setup, Dispatched(s))
  {
  }

  lemma EndKeeps(setup: Setup, s: System)
    ensures TaskKeeps(setup, s) ==> TaskKeeps(setup, Finished(s))
  {
  }

  lemma ReportPaced(debounce: nat, updates: seq<Update>, published: seq<Publication>, u: Update)
    requires Paced(debounce, updates, published)
    requires forall i :: 0 <= i < |published| ==> published[i].written <= u.at
    ensures Paced(debounce, updates + [u], published)
  {
  }

  lemma ReportKeeps(setup: Setup, s: System, selection: Selection)
    ensures TaskKeeps(setup, s) ==> TaskKeeps(setup, Next(setup, s, Report(selection)))
  {
    if TaskKeeps(setup, s) {
      ReportPaced(setup.debounce, s.updates, s.published, Update(selection, s.now));
    }
  }

  /** `keeps` is what every run keeps of the debouncer. */
  ghost predicate IsTaskKeeps(keeps: System -> bool, setup: Setup) {
    forall s {:trigger TaskKeeps(setup, s)} :: keeps(s) == TaskKeeps(setup, s)
  }

  /** A step of the debouncer itself. */
  lemma OwnStep(keeps: System -> bool, setup: Setup, s: System, step: Step)
    requires IsTaskKeeps(keeps, setup) && keeps(s)
    requires step.Notice? || step.Fire? || step.Write? || step.Send? || step.End?
    ensures keeps(Next(setup, s, step))
  {
    match step
    case Notice => NoticeKeeps(setup, s);
    case Fire => FireKeeps(setup, s);
    case Write => WriteKeeps(setup, s);
    case Send => SendKeeps(setup, s);
    case End => EndKeeps(setup, s);
  }

  /** A step of the clock, the editor or a client. */
  lemma OtherStep(keeps: System -> bool, setup: Setup, s: System, step: Step)
    requires IsTaskKeeps(keeps, setup) && keeps(s)
    requires !step.Notice? && !step.Fire? && !step.Write? && !step.Send? && !step.End?
    ensures keeps(Next(setup, s, step))
  {
    if step.Report? {
      ReportKeeps(setup, s, step.selection);
    } else {
      SameTaskKeeps(setup, s, Next(setup, s, step));
    }
  }

  lemma TaskStep(keeps: System -> bool, setup: Setup, s: System, step: Step)
    requires IsTaskKeeps(keeps, setup)
    ensures keeps(s) ==> keeps(Next(setup, s, step))
  {
    if keeps(s) {
      if step.Notice? || step.Fire? || step.Write? || step.Send? || step.End? {
        OwnStep(keeps, setup, s, step);
      } else {
        OtherStep(keeps, setup, s, step);
      }
    }
  }

  /** What holds at first, and which every step keeps, holds after every run. */
  lemma {:induction false} EveryRun(keeps: System -> bool, setup: Setup, steps: seq<Step>)
    requires keeps(Initial(setup))
    requires forall s: System, step: Step {:trigger Next(setup, s, step)} :: keeps(s) ==> keeps(Next(setup, s, step))
    ensures keeps(After(setup, steps))
  {
    if steps != [] {
      EveryRun(keeps, setup, steps[..|steps| - 1]);
    }
  }

  lemma TaskRun(setup: Setup, steps: seq<Step>)
    ensures TaskKeeps(setup, After(setup, steps))
  {
    var keeps := (s: System) => TaskKeeps(setup, s);
    forall s: System, step: Step
      ensures keeps(s) ==> keeps(Next(setup, s, step))
    {
      TaskStep(keeps, setup, s, step);
    }
    EveryRun(keeps, setup, steps);
  }

  // ---- the guarantees of the debouncer ----

  /**
    * What is published is an ordered choice of what was reported: each publication took
    * the newest report there was when it was picked, and that was at least `debounce`
    * after the first report it covers, and after the last that had restarted the timer.
    */
  lemma PublicationsAreSettled(setup: Setup, steps: seq<Step>, i: nat)
    requires i < |After(setup, steps).published|
    ensures var s := After(setup, steps);
            && IsSettled(setup.debounce, s.updates, s.published[i].pick)
            && s.published[i].pick.fired <= s.published[i].written <= s.now
  {
    TaskRun(setup, steps);
  }

  /** Versions rise, no two in a row are equal, and they come `debounce` apart at least. */
  lemma PublicationsAreOrdered(setup: Setup, steps: seq<Step>, i: nat, j: nat)
    requires i < j < |After(setup, steps).published|
    ensures var a, b := After(setup, steps).published[i], After(setup, steps).published[j];
            && a.pick.version <= b.pick.first < b.pick.version
            && a.written + setup.debounce <= b.pick.fired <= b.written
            && (j == i + 1 ==> a.pick.selection != b.pick.selection)
  {
    TaskRun(setup, steps);
    PublicationsAreSettled(setup, steps, j);
  }

  lemma {:induction false} ApartByCount(setup: Setup, steps: seq<Step>, i: nat, j: nat)
    requires i <= j < |After(setup, steps).published|
    ensures var p := After(setup, steps).published;
            p[i].written + (j - i) * setup.debounce <= p[j].written
    decreases j
  {
    if i < j {
      ApartByCount(setup, steps, i, j - 1);
      PublicationsAreOrdered(setup, steps, j - 1, j);
      assert (j - i) * setup.debounce == (j - 1 - i) * setup.debounce + setup.debounce;
    }
  }

  /** Any stretch of time of length `span` sees at most `span / debounce + 1` publications. */
  lemma RateBound(setup: Setup, steps: seq<Step>, i: nat, j: nat, start: nat, span: nat)
    requires 0 < setup.debounce && i <= j < |After(setup, steps).published|
    requires start <= After(setup, steps).published[i].written
    requires After(setup, steps).published[j].written <= start + span
    ensures j - i + 1 <= span / setup.debounce + 1
  {
    ApartByCount(setup, steps, i, j);
    Quotient(j - i, setup.debounce, span);
  }

  lemma Quotient(n: nat, d: nat, total: nat)
    requires 0 < d && n * d <= total
    ensures n <= total / d
  {
    var q := total / d;
    assert total < (q + 1) * d;
    assert q + 1 <= n ==> (q + 1) * d <= n * d;
  }

  /** The debouncer waits, or has ended waiting, and has seen everything there is. */
  predicate AtRest(s: System) {
    (s.stage.Waiting? || s.stage == Ended(true)) && 0 < |s.updates| == s.seen
  }

  lemma RestIsCurrent(s: System)
    ensures Remembers(s) && AtRest(s) ==>
              s.latest == s.lastSent == LastOf(s.published) == Some(s.updates[|s.updates| - 1].selection)
  {
  }

  lemma TaskRemembers(setup: Setup, steps: seq<Step>)
    ensures Remembers(After(setup, steps))
  {
    TaskRun(setup, steps);
  }

  /** Then the newest report is what was last published. */
  lemma IdleIsCurrent(setup: Setup, steps: seq<Step>)
    requires AtRest(After(setup, steps))
    ensures var s := After(setup, steps);
            s.latest == s.lastSent == LastOf(s.published) == Some(s.updates[|s.updates| - 1].selection)
  {
    TaskRemembers(setup, steps);
    RestIsCurrent(After(setup, steps));
  }

  /** The timer never goes off on an empty cell. */
  lemma TimerFindsAValue(setup: Setup, steps: seq<Step>)
    requires After(setup, steps).stage.Settling?
    ensures After(setup, steps).Cell().value.Some?
  {
    TaskRun(setup, steps);
  }

  /** The timer is never set for longer than the debounce. */
  predicate TimerFits(setup: Setup, s: System) {
    s.stage.Settling? ==> s.stage.deadline <= s.now + setup.debounce
  }

  lemma TimerStep(setup: Setup, s: System, step: Step)
    requires TimerFits(setup, s)
    ensures TimerFits(setup, Next(setup, s, step))
  {
    if step.Notice? {
      assert Next(setup, s, step) == Noticed(setup, s);
    } else if step.Fire? {
      assert !Fired(s).stage.Settling? || Fired(s) == s;
    }
  }

  lemma TimerIsShort(setup: Setup, steps: seq<Step>)
    ensures TimerFits(setup, After(setup, steps))
  {
    var keeps := (s: System) => TimerFits(setup, s);
    forall s: System, step: Step | keeps(s)
      ensures keeps(Next(setup, s, step))
    {
      TimerStep(setup, s, step);
    }
    EveryRun(keeps, setup, steps);
  }

  // ---- a pause in the reports ----

  /**
    * How many of the debouncer's turns are still to come, at most, before it waits with
    * nothing left to publish: to write and send an older report, to notice the newest,
    * and then to let the timer go off, write and send.
    */
  function Distance(s: System): nat {
    var unseen := s.seen < |s.updates|;
    match s.stage
    case Waiting => if unseen then 4 else 0
    case Settling(_, _) => if unseen then 4 else 3
    case Writing(_) => if unseen then 6 else 2
    case Sending(_) => if unseen then 5 else 1
    case Ended(_) => 7
  }

  /** How many of these turns some steps have given it, and the time since the third. */
  datatype Progress = Progress(turns: nat, elapsed: nat)

  /** Write, send, notice, then the debounce and the timer, write, send; whatever comes in between. */
  function Further(p: Progress, debounce: nat, step: Step): Progress {
    match step
    case Write => if p.turns == 0 || p.turns == 4 then p.(turns := p.turns + 1) else p
    case Send => if p.turns == 1 || p.turns == 5 then p.(turns := p.turns + 1) else p
    case Notice => if p.turns == 2 then Progress(3, 0) else p
    case Tick(duration) => if p.turns == 3 then p.(elapsed := p.elapsed + duration) else p
    case Fire => if p.turns == 3 && debounce <= p.elapsed then p.(turns := 4) else p
    case _ => p
  }

  function Given(debounce: nat, rest: seq<Step>): Progress {
    if rest == [] then Progress(0, 0)
    else Further(Given(debounce, rest[..|rest| - 1]), debounce, rest[|rest| - 1])
  }

  lemma GivenOneMore(debounce: nat, rest: seq<Step>, step: Step)
    ensures Given(debounce, rest + [step]) == Further(Given(debounce, rest), debounce, step)
  {
    assert (rest + [step])[..|rest|] == rest;
  }

  /** Seven steps can be enough. */
  lemma ShortestPause(debounce: nat)
    ensures Given(debounce, [] + [Write] + [Send] + [Notice] + [Tick(debounce)] + [Fire] + [Write] + [Send]).turns == 6
  {
    var r := [] + [Write] + [Send] + [Notice];
    GivenOneMore(debounce, [], Write);
    GivenOneMore(debounce, [] + [Write], Send);
    GivenOneMore(debounce, [] + [Write] + [Send], Notice);
    GivenOneMore(debounce, r, Tick(debounce));
    GivenOneMore(debounce, r + [Tick(debounce)], Fire);
    GivenOneMore(debounce, r + [Tick(debounce)] + [Fire], Write);
    GivenOneMore(debounce, r + [Tick(debounce)] + [Fire] + [Write], Send);
  }

  /** Nobody reports or drops a tracker; with the trackers gone already, the debouncer does not end either. */
  predicate IsPause(step: Step, closed: bool) {
    !step.Report? && !step.DropTrackers? && (closed ==> !step.End?)
  }

  /** The turns given so far have brought the debouncer as far as they should. */
  predicate OnItsWay(setup: Setup, s: System, p: Progress) {
    && Distance(s) + p.turns <= 6
    && (p.turns == 3 && s.stage.Settling? ==> s.stage.deadline + p.elapsed <= s.now + setup.debounce)
  }

  /** What a pause relies on. */
  ghost predicate IsPaused(setup: Setup, s: System, updates: seq<Update>, closed: bool) {
    && s.updates == updates != [] && s.closed == closed && !s.stage.Ended?
    && s.seen <= |updates| && TimerFits(setup, s)
  }

  lemma PauseStep(setup: Setup, s: System, step: Step, p: Progress, updates: seq<Update>, closed: bool)
    requires IsPaused(setup, s, updates, closed) && OnItsWay(setup, s, p) && IsPause(step, closed)
    ensures IsPaused(setup, Next(setup, s, step), updates, closed)
    ensures OnItsWay(setup, Next(setup, s, step), Further(p, setup.debounce, step))
  {
    TimerStep(setup, s, step);
    if step.Fire? {
      assert s.Cell().value.Some?;
    }
  }

  lemma {:induction false} PauseRun(setup: Setup, steps: seq<Step>, rest: seq<Step>)
    requires After(setup, steps).updates != [] && !After(setup, steps).stage.Ended?
    requires forall step :: step in rest ==> IsPause(step, After(setup, steps).closed)
    ensures var s := After(setup, steps);
            && IsPaused(setup, After(setup, steps + rest), s.updates, s.closed)
            && OnItsWay(setup, After(setup, steps + rest), Given(setup.debounce, rest))
  {
    var s := After(setup, steps);
    if rest == [] {
      assert steps + rest == steps;
      TaskRun(setup, steps);
      TimerIsShort(setup, steps);
    } else {
      var front, step := rest[..|rest| - 1], rest[|rest| - 1];
      PauseRun(setup, steps, front);
      assert steps + rest == steps + front + [step];
      AfterOne(setup, steps + front, step);
      PauseStep(setup, After(setup, steps + front), step, Given(setup.debounce, front), s.updates, s.closed);
    }
  }

  lemma ArrivedIsAtRest(setup: Setup, s: System, p: Progress, updates: seq<Update>, closed: bool)
    ensures IsPaused(setup, s, updates, closed) && OnItsWay(setup, s, p) && p.turns == 6 ==>
              s.stage.Waiting? && AtRest(s) && s.updates == updates
  {
  }

  /**
    * From wherever the system has got to, a pause in the reports is enough for the newest
    * to be published, if it lasts as long as the debounce and the debouncer gets its turns;
    * the clients may do in the meantime whatever they like.
    */
  lemma QuietPublishes(setup: Setup, steps: seq<Step>, rest: seq<Step>)
    requires After(setup, steps).updates != [] && !After(setup, steps).stage.Ended?
    requires forall step :: step in rest ==> IsPause(step, After(setup, steps).closed)
    requires Given(setup.debounce, rest).turns == 6
    ensures var updates, t := After(setup, steps).updates, After(setup, steps + rest);
            t.stage.Waiting? && t.latest == t.lastSent == Some(updates[|updates| - 1].selection)
  {
    var s, t := After(setup, steps), After(setup, steps + rest);
    PauseRun(setup, steps, rest);
    ArrivedIsAtRest(setup, t, Given(setup.debounce, rest), s.updates, s.closed);
    TaskRemembers(setup, steps + rest);
    RestIsCurrent(t);
  }

  // ---- the end of the debouncer ----

  /** Once over, the debouncer publishes nothing more. */
  lemma EndedPublishesNothing(setup: Setup, steps: seq<Step>, step: Step)
    requires After(setup, steps).stage.Ended?
    ensures var s, t := After(setup, steps), After(setup, steps + [step]);
            t.stage == s.stage && t.published == s.published && t.latest == s.latest && t.updates == s.updates
  {
    TaskRun(setup, steps);
    AfterOne(setup, steps, step);
  }

  /** The trackers are gone, and the newest report is sent or about to be. */
  predicate IsSent(s: System, newest: Update) {
    && s.closed && s.updates != [] && s.updates[|s.updates| - 1] == newest
    && s.lastSent == Some(newest.selection)
  }

  /** It stays so. */
  lemma {:induction false} SentStaysSent(setup: Setup, steps: seq<Step>, rest: seq<Step>, newest: Update)
    requires IsSent(After(setup, steps), newest)
    ensures IsSent(After(setup, steps + rest), newest)
  {
    if rest == [] {
      assert steps + rest == steps;
    } else {
      var front, step := rest[..|rest| - 1], rest[|rest| - 1];
      SentStaysSent(setup, steps, front, newest);
      assert steps + rest == steps + front + [step];
      AfterOne(setup, steps + front, step);
      SentStep(setup, After(setup, steps + front), step, newest);
    }
  }

  lemma SentStep(setup: Setup, s: System, step: Step, newest: Update)
    ensures IsSent(s, newest) ==> IsSent(Next(setup, s, step), newest)
  {
    if IsSent(s, newest) && step.Fire? {
      assert s.Cell().value == Some(newest.selection);
    }
  }

  /** The shortest way to its end, once the trackers are gone. */
  function ToItsEnd(setup: Setup, s: System): System {
    Finished(Noticed(setup, Dispatched(Written(s.(closed := true)))))
  }

  lemma EndsWithWhatWasSent(setup: Setup, s: System)
    requires s.seen <= |s.updates| && !s.stage.Ended?
    requires s.lastSent == if s.stage.Writing? then Some(s.stage.pick.selection) else s.latest
    ensures ToItsEnd(setup, s).stage.Ended? && ToItsEnd(setup, s).latest == s.lastSent
  {
  }

  const LAST_TURNS := [] + [Write] + [Send] + [Notice] + [End]

  lemma LastTurnsFollow(r: seq<Step>)
    ensures r + LAST_TURNS == r + [Write] + [Send] + [Notice] + [End]
  {
  }

  lemma AfterTwo(setup: Setup, steps: seq<Step>, first: Step, second: Step)
    ensures After(setup, steps + [first] + [second]) == Next(setup, Next(setup, After(setup, steps), first), second)
  {
    AfterOne(setup, steps, first);
    AfterOne(setup, steps + [first], second);
  }

  lemma LastTurnsAreToItsEnd(setup: Setup, steps: seq<Step>)
    ensures After(setup, steps + [DropTrackers] + LAST_TURNS) == ToItsEnd(setup, After(setup, steps))
  {
    var r := steps + [DropTrackers];
    LastTurnsFollow(r);
    AfterOne(setup, steps, DropTrackers);
    AfterTwo(setup, r, Write, Send);
    AfterTwo(setup, r + [Write] + [Send], Notice, End);
  }

  lemma NotEndedBeforeDrop(setup: Setup, steps: seq<Step>)
    ensures var s := After(setup, steps); Remembers(s) && (s.stage.Ended? ==> s.closed)
  {
    TaskRun(setup, steps);
  }

  /** However a run goes on from here, when the debouncer has ended the newest report is the latest. */
  ghost predicate NeverLost(setup: Setup, steps: seq<Step>, newest: Selection) {
    forall rest :: After(setup, steps + rest).stage.Ended? ==> After(setup, steps + rest).latest == Some(newest)
  }

  /**
    * The debouncer does not wait for its timer once the trackers are dropped. So the newest
    * report is safe, however things go on from the drop, if and only if it is what the
    * debouncer has last taken to be sent: a report still settling, or not yet noticed,
    * is lost in some run unless it equals that.
    */
  lemma DropLosesWhatIsNotSent(setup: Setup, steps: seq<Step>)
    requires After(setup, steps).updates != [] && !After(setup, steps).closed
    ensures var s := After(setup, steps);
            var newest := s.updates[|s.updates| - 1].selection;
            NeverLost(setup, steps + [DropTrackers], newest) <==> s.lastSent == Some(newest)
  {
    var s := After(setup, steps);
    var newest := s.updates[|s.updates| - 1];
    var dropped := steps + [DropTrackers];
    NotEndedBeforeDrop(setup, steps);
    AfterOne(setup, steps, DropTrackers);
    if s.lastSent == Some(newest.selection) {
      forall rest | After(setup, dropped + rest).stage.Ended?
        ensures After(setup, dropped + rest).latest == Some(newest.selection)
      {
        SentStaysSent(setup, dropped, rest, newest);
        TaskRemembers(setup, dropped + rest);
      }
    } else {
      EndsWithWhatWasSent(setup, s);
      LastTurnsAreToItsEnd(setup, steps);
      assert After(setup, dropped + LAST_TURNS).stage.Ended?;
    }
  }

  /** So a report can be lost: one made just before the trackers are dropped. */
  lemma LastReportCanBeLost(setup: Setup, selection: Selection)
    ensures var t := After(setup, [] + [Report(selection)] + [Notice] + [DropTrackers] + [End]);
            t.stage.Ended? && t.updates == [Update(selection, 0)] && t.published == [] && t.latest == None
  {
    AfterOne(setup, [], Report(selection));
    AfterOne(setup, [] + [Report(selection)], Notice);
    AfterOne(setup, [] + [Report(selection)] + [Notice], DropTrackers);
    AfterOne(setup, [] + [Report(selection)] + [Notice] + [DropTrackers], End);
  }
}
