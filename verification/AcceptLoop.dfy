/**
  * The accept loop of the companion's socket, and how many failures it puts up with.
  */
module AcceptLoop {
  import opened Prelude

  datatype ErrorKind =
    | ConnectionAborted
    | ConnectionReset
    | Interrupted
    | WouldBlock
    | InvalidInput
    | NotConnected
    | OtherKind

  datatype Errno = EMFILE | ENFILE | ENOBUFS | ENOMEM | EBADF | EINVAL | ENOTSOCK | OtherErrno(code: int)

  datatype IoError = IoError(kind: ErrorKind, errno: Option<Errno>)

  /** How the loop reacts to an error; delays are in milliseconds. */
  datatype Policy = Retry | Backoff(delay: nat) | Fatal

  const MAX_CONSECUTIVE_ACCEPT_FAILURES := 20
  const RESOURCE_BACKOFF := 250
  const UNKNOWN_BACKOFF := 100

  function PolicyFor(e: IoError): Policy {
    match e.kind
    case ConnectionAborted | ConnectionReset | Interrupted | WouldBlock => Retry
    case InvalidInput | NotConnected => Fatal
    case OtherKind =>
      match e.errno
      case Some(EMFILE) | Some(ENFILE) | Some(ENOBUFS) | Some(ENOMEM) => Backoff(RESOURCE_BACKOFF)
      case Some(EBADF) | Some(EINVAL) | Some(ENOTSOCK) => Fatal
      case _ => Backoff(UNKNOWN_BACKOFF)
  }

  predicate IsTransient(e: IoError) {
    e.kind in {ConnectionAborted, ConnectionReset, Interrupted, WouldBlock}
  }

  predicate IsUnusable(e: IoError) {
    || e.kind in {InvalidInput, NotConnected}
    || (e.kind.OtherKind? && e.errno in {Some(EBADF), Some(EINVAL), Some(ENOTSOCK)})
  }

  predicate IsExhausted(e: IoError) {
    e.kind.OtherKind? && e.errno in {Some(EMFILE), Some(ENFILE), Some(ENOBUFS), Some(ENOMEM)}
  }

  /**
    * A client that went away is no reason to wait, a listener that is unusable none to go on;
    * anything else is waited out, longer if a resource is exhausted.
    */
  lemma PolicyIsExact(e: IoError)
    ensures PolicyFor(e).Retry? <==> IsTransient(e)
    ensures PolicyFor(e).Fatal? <==> IsUnusable(e)
    ensures PolicyFor(e) == Backoff(250) <==> IsExhausted(e)
    ensures PolicyFor(e) == Backoff(100) <==> !IsTransient(e) && !IsUnusable(e) && !IsExhausted(e)
  {
  }

  type Peer = nat

  /** What a turn of the loop meets. `interrupted` tells whether the token is cancelled during the backoff. */
  datatype Turn =
    | Accepted(peer: Peer)
    | Failed(error: IoError, interrupted: bool)
    | Cancelled

  /** Whether the loop goes on; whether somebody stopped it, or it gave up. */
  datatype Condition = Accepting | Stopped | GaveUp

  class CancellationToken {
    var cancelled: bool

    constructor ()
      ensures !cancelled
    {
      cancelled := false;
    }

    method Cancel()
      modifies this
      ensures cancelled
    {
      cancelled := true;
    }
  }

  // ---- counting ----

  predicate IsBackoff(turn: Turn) {
    turn.Failed? && PolicyFor(turn.error).Backoff?
  }

  predicate IsRetry(turn: Turn) {
    turn.Failed? && PolicyFor(turn.error).Retry?
  }

  predicate IsFatal(turn: Turn) {
    turn.Failed? && PolicyFor(turn.error).Fatal?
  }

  /** The turn after the last success among the first `n`, or the first. */
  function SinceSuccess(turns: seq<Turn>, n: nat): (m: nat)
    requires n <= |turns|
    ensures m <= n
    ensures m == 0 || turns[m - 1].Accepted?
    ensures forall i :: m <= i < n ==> !turns[i].Accepted?
  {
    if n == 0 then 0 else if turns[n - 1].Accepted? then n else SinceSuccess(turns, n - 1)
  }

  /** The backoffs among turns `m` to `n`. */
  function Backoffs(turns: seq<Turn>, m: nat, n: nat): nat
    requires m <= n <= |turns|
  {
    if m == n then 0 else Backoffs(turns, m, n - 1) + if IsBackoff(turns[n - 1]) then 1 else 0
  }

  /** The backoffs since the last success among the first `n` turns. */
  function Streak(turns: seq<Turn>, n: nat): nat
    requires n <= |turns|
  {
    Backoffs(turns, SinceSuccess(turns, n), n)
  }

  lemma {:induction false} StreakStep(turns: seq<Turn>, n: nat)
    requires 0 < n <= |turns|
    ensures Streak(turns, n) == if turns[n - 1].Accepted? then 0
                                else Streak(turns, n - 1) + if IsBackoff(turns[n - 1]) then 1 else 0
  {
  }

  /** The turn ends the loop for good: a fatal error, or one backoff too many. */
  predicate Exhausts(turns: seq<Turn>, i: nat)
    requires i < |turns|
  {
    IsFatal(turns[i]) || (IsBackoff(turns[i]) && MAX_CONSECUTIVE_ACCEPT_FAILURES <= Streak(turns, i + 1))
  }

  /** Somebody cancels the token while the loop waits, for a client or for a backoff to pass. */
  predicate Stops(turns: seq<Turn>, i: nat)
    requires i < |turns|
  {
    turns[i].Cancelled? || (IsBackoff(turns[i]) && turns[i].interrupted && !Exhausts(turns, i))
  }

  /** The loop survived the first `n` turns. */
  ghost predicate Survives(turns: seq<Turn>, n: nat)
    requires n <= |turns|
  {
    forall i :: 0 <= i < n ==> !Exhausts(turns, i) && !Stops(turns, i)
  }

  /** How long the loop slept over the backoffs among turns `m` to `n`. */
  function Slept(turns: seq<Turn>, m: nat, n: nat): nat
    requires m <= n <= |turns|
  {
    if m == n then 0
    else Slept(turns, m, n - 1) + if IsBackoff(turns[n - 1]) then PolicyFor(turns[n - 1].error).delay else 0
  }

  /** The clients accepted in the first `n` turns. */
  function Peers(turns: seq<Turn>, n: nat): seq<Peer>
    requires n <= |turns|
  {
    if n == 0 then [] else Peers(turns, n - 1) + if turns[n - 1].Accepted? then [turns[n - 1].peer] else []
  }

  // ---- the loop ----

  /**
    * Accepts clients, turn by turn, until it is cancelled or gives up. It gives up, and
    * cancels the token, exactly at a fatal error or at the twentieth backoff since
    * the last success; `turn` is where it ended.
    */
  method Serve(turns: seq<Turn>, token: CancellationToken)
    returns (end: Condition, turn: nat, failures: nat, served: seq<Peer>, slept: nat)
    modifies token
    ensures turn <= |turns| && Survives(turns, turn) && served == Peers(turns, turn)
    ensures end.Accepting? <==> turn == |turns|
    ensures end.GaveUp? <==> turn < |turns| && Exhausts(turns, turn)
    ensures end.Stopped? <==> turn < |turns| && Stops(turns, turn)
    ensures end.GaveUp? ==> token.cancelled
    ensures !end.GaveUp? ==> token.cancelled == old(token.cancelled)
    ensures slept == Slept(turns, 0, turn)
    ensures end.Accepting? ==> failures == Streak(turns, turn) < MAX_CONSECUTIVE_ACCEPT_FAILURES
  {
    failures, slept := 0, 0;
    served := [];
    end := Accepting;
    turn := 0;
    while turn < |turns|
      invariant turn <= |turns| && Survives(turns, turn) && served == Peers(turns, turn)
      invariant failures == Streak(turns, turn) < MAX_CONSECUTIVE_ACCEPT_FAILURES
      invariant slept == Slept(turns, 0, turn)
      invariant token.cancelled == old(token.cancelled)
    {
      StreakStep(turns, turn + 1);
      match turns[turn] {
        case Cancelled =>
          end := Stopped;
          return;
        case Accepted(peer) =>
          failures := 0;
          served := served + [peer];
        case Failed(error, interrupted) =>
          match PolicyFor(error) {
            case Retry =>
            case Backoff(delay) =>
              failures := failures + 1;
              if MAX_CONSECUTIVE_ACCEPT_FAILURES <= failures {
                token.Cancel();
                end := GaveUp;
                return;
              }
              if interrupted {
                end := Stopped;
                return;
              }
              slept := slept + delay;
            case Fatal =>
              token.Cancel();
              end := GaveUp;
              return;
          }
      }
      turn := turn + 1;
    }
  }

  // ---- what that means ----

  /** While the loop goes on, the failures counted stay below the limit. */
  lemma {:induction false} SurvivorsAreBelowTheLimit(turns: seq<Turn>, n: nat)
    requires n <= |turns| && Survives(turns, n)
    ensures Streak(turns, n) < 20
  {
    if 0 < n {
      SurvivorsAreBelowTheLimit(turns, n - 1);
      StreakStep(turns, n);
      assert !Exhausts(turns, n - 1);
    }
  }

  lemma {:induction false} SleptByCount(turns: seq<Turn>, m: nat, n: nat)
    requires m <= n <= |turns|
    ensures UNKNOWN_BACKOFF * Backoffs(turns, m, n) <= Slept(turns, m, n) <= RESOURCE_BACKOFF * Backoffs(turns, m, n)
  {
    if m < n {
      SleptByCount(turns, m, n - 1);
    }
  }

  /**
    * A listener that keeps failing neither spins nor lingers: since the last success the
    * loop slept at least 100 milliseconds for each failure counted, and less than
    * five seconds in all.
    */
  lemma FailuresAreSleptOver(turns: seq<Turn>, n: nat)
    requires n <= |turns| && Survives(turns, n)
    ensures var slept := Slept(turns, SinceSuccess(turns, n), n);
            100 * Streak(turns, n) <= slept < 5000
  {
    SurvivorsAreBelowTheLimit(turns, n);
    SleptByCount(turns, SinceSuccess(turns, n), n);
  }

  /** The backoff that exhausts the loop is exactly the twentieth since the last success. */
  lemma ExhaustedAtTheTwentieth(turns: seq<Turn>, i: nat)
    requires i < |turns| && Survives(turns, i) && Exhausts(turns, i)
    ensures IsFatal(turns[i]) || Streak(turns, i + 1) == 20
  {
    SurvivorsAreBelowTheLimit(turns, i);
    StreakStep(turns, i + 1);
  }

  /** The turns that are not retried at once. */
  function WithoutRetries(turns: seq<Turn>): seq<Turn> {
    if turns == [] then []
    else
      var n := |turns| - 1;
      WithoutRetries(turns[..n]) + if IsRetry(turns[n]) then [] else [turns[n]]
  }

  lemma {:induction false} StreakOfPrefix(turns: seq<Turn>, more: seq<Turn>, n: nat)
    requires n <= |turns| <= |more| && turns <= more
    ensures Streak(more, n) == Streak(turns, n) && Peers(more, n) == Peers(turns, n)
  {
    if 0 < n {
      StreakOfPrefix(turns, more, n - 1);
      StreakStep(turns, n);
      StreakStep(more, n);
      assert more[n - 1] == turns[n - 1];
    }
  }

  /** Retries leave no trace: without them the count and the clients served are the same. */
  lemma {:induction false} RetriesDoNotCount(turns: seq<Turn>)
    ensures var kept := WithoutRetries(turns);
            Streak(kept, |kept|) == Streak(turns, |turns|) && Peers(kept, |kept|) == Peers(turns, |turns|)
  {
    if turns != [] {
      var n := |turns| - 1;
      var earlier, kept := WithoutRetries(turns[..n]), WithoutRetries(turns);
      RetriesDoNotCount(turns[..n]);
      StreakOfPrefix(turns[..n], turns, n);
      StreakOfPrefix(earlier, kept, |earlier|);
      StreakStep(turns, |turns|);
      if !IsRetry(turns[n]) {
        StreakStep(kept, |kept|);
      }
    }
  }
}
