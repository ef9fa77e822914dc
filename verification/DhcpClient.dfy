/**
 The DHCP client as it works through its states (src/services/dhcp_client/worker.rs):
 each method does what the run of `ClientRun` says.
 */
module DhcpClient {
  import opened Naturals
  import opened Options
  import opened LeaseRenewal
  import opened ClientRun
  import opened ClientExpiry

  class Client {
    const env: seq<Wait>
    var pos: nat
    var now: nat
    var trace: seq<Sent>

    ghost function Now(): State
      reads this
    {
      State(pos, now, trace)
    }

    ghost predicate Valid()
      reads this
    {
      pos <= |env| && Fine(env, Now())
    }

    constructor (env: seq<Wait>)
      ensures Valid() && this.env == env && Now() == START
    {
      this.env, pos, now, trace := env, 0, 0, [];
    }

    method Emit(msg: Msg)
      modifies this`trace
      ensures Now() == Say(old(Now()), msg)
    {
      trace := trace + [Sent(msg, now)];
    }

    /** Waits for `ms` milliseconds or until one of the interruptions `ends` picks. */
    method WaitFor(ms: nat, ends: Interruption -> bool) returns (what: Interruption)
      requires pos < |env|
      modifies this`now, this`pos
      ensures (Now(), what) == Waited(env, old(Now()), ms, ends)
      ensures old(now) <= now <= old(now) + ms && pos == old(pos) + 1
      ensures (what == Quiet && now == old(now) + ms) || (what == env[old(pos)].what && ends(what))
    {
      var w := env[pos];
      pos := pos + 1;
      if w.after < ms && ends(w.what) {
        now := now + w.after;
        what := w.what;
      } else {
        now := now + ms;
        what := Quiet;
      }
    }

    method DiscoverPhase() returns (r: Outcome)
      requires Valid() && Applied(trace).None?
      modifies this
      ensures Turn(Now(), r) == Discover(env, old(Now()))
      ensures Valid() && Applied(trace).None?
    {
      hide Fine, Applied, NextDelay, Waited;
      RetryFine(env, Now(), INITIAL_RETRY_DELAY_SECS, SendDiscover, EndsOfferWait);
      var retryDelay := INITIAL_RETRY_DELAY_SECS;
      while pos < |env|
        invariant pos <= |env|
        invariant Retry(env, Now(), retryDelay, SendDiscover, EndsOfferWait)
                  == Retry(env, old(Now()), INITIAL_RETRY_DELAY_SECS, SendDiscover, EndsOfferWait)
        decreases |env| - pos
      {
        Emit(SendDiscover);
        var what := WaitFor(Jittered(retryDelay, env[pos].jitter), EndsOfferWait);
        match what {
          case Offer => return Offered;
          case Closed => return Failed(ParentClosed);
          case IpcError => return Failed(Ipc);
          case _ =>
        }
        retryDelay := NextDelay(retryDelay);
      }
      r := EndOfEnv;
    }

    method RequestPhase() returns (r: Outcome)
      requires Valid() && Applied(trace).None?
      modifies this
      ensures Turn(Now(), r) == Selected(env, old(Now()))
      ensures Valid() && Applied(trace).None?
    {
      hide Fine, Applied, NextDelay, Waited;
      RetryFine(env, Now(), INITIAL_RETRY_DELAY_SECS, SendRequest(Selecting), EndsAckWait);
      var retryDelay := INITIAL_RETRY_DELAY_SECS;
      while pos < |env|
        invariant pos <= |env|
        invariant Retry(env, Now(), retryDelay, SendRequest(Selecting), EndsAckWait)
                  == Retry(env, old(Now()), INITIAL_RETRY_DELAY_SECS, SendRequest(Selecting), EndsAckWait)
        decreases |env| - pos
      {
        Emit(SendRequest(Selecting));
        var what := WaitFor(Jittered(retryDelay, env[pos].jitter), EndsAckWait);
        match what {
          case Ack(lease) => return Acked(lease);
          case Nak => return Failed(Refused);
          case Closed => return Failed(ParentClosed);
          case IpcError => return Failed(Ipc);
          case _ =>
        }
        retryDelay := NextDelay(retryDelay);
      }
      r := EndOfEnv;
    }

    /**
     Renews the applied lease, which was bound at `boundAt`.  If nobody answers,
     the messages are those of the schedule, and the attempt fails as long after
     expiry as it started off the whole second.
     */
    method RenewLease(lease: nat, boundAt: nat) returns (r: Outcome)
      requires Valid() && Applied(trace) == Some(Binding(boundAt, lease, 0)) && boundAt <= now && (now - boundAt) / 1000 < lease
      modifies this
      ensures Turn(Now(), r) == Renewal(env, old(Now()), None, lease, boundAt)
      ensures Valid() && Applied(trace).Some? && Applied(trace).value.at == boundAt && Applied(trace).value.lease == lease
      ensures now <= boundAt + 1000 * lease + (old(now) - boundAt) % 1000
      ensures NoAnswer(env, old(pos)) && !r.EndOfEnv? ==>
                && r == Failed(LeaseExpired) && now == boundAt + 1000 * lease + (old(now) - boundAt) % 1000
                && trace == old(trace) + Schedule((old(now) - boundAt) / 1000, None, lease, boundAt + (old(now) - boundAt) % 1000)
    {
      hide Fine, Applied, Interval, InRebinding, Waited, Schedule, NoAnswer;
      ghost var secs: nat, off: nat;
      secs, off := SinceBound(Now(), boundAt);
      RenewalFine(env, Now(), None, lease, boundAt, secs, off);
      RenewalEndsBy(env, Now(), None, lease, boundAt, secs, off);
      if NoAnswer(env, pos) {
        UnansweredRenewalRun(env, Now(), None, None, lease, boundAt, secs, off);
      }
      var lastSent: Option<nat> := None;
      while true
        invariant pos <= |env| && boundAt <= now && (lastSent.Some? ==> lastSent.value <= now)
        invariant Renewal(env, Now(), lastSent, lease, boundAt) == Renewal(env, old(Now()), None, lease, boundAt)
        decreases |env| - pos
      {
        var elapsed := (now - boundAt) / 1000;
        if elapsed >= lease {
          return Failed(LeaseExpired);
        }
        if pos == |env| {
          return EndOfEnv;
        }
        var interval := Interval(elapsed, lease);
        var shouldSend := lastSent.None? || (now - lastSent.value) / 1000 >= interval;
        if shouldSend {
          Emit(SendRequest(if InRebinding(elapsed, lease) then Rebinding else Renewing));
          lastSent := Some(now);
        }
        var what := WaitFor(1000 * interval, EndsAckWait);
        match what {
          case Ack(newLease) => return Acked(newLease);
          case Nak => return Failed(Refused);
          case Closed => return Failed(ParentClosed);
          case IpcError => return Failed(Ipc);
          case _ =>
        }
      }
    }

    method ApplyLease(lease: nat) returns (ok: bool)
      requires Valid() && pos > 0
      modifies this`trace
      ensures Now() == Say(old(Now()), Apply(lease)) && ok == env[pos - 1].applyOk
      ensures Valid() && Applied(trace) == Some(Binding(now, lease, 0))
    {
      hide Fine, Applied;
      SayFine(env, Now(), Apply(lease));
      Emit(Apply(lease));
      ok := env[pos - 1].applyOk;
    }

    /** One sleep on the way to T1. */
    method Sleep(elapsed: nat, lease: nat, boundAt: nat) returns (what: Interruption)
      requires Valid() && pos < |env| && boundAt <= now && Applied(trace) == Some(Binding(boundAt, lease, 0))
      requires elapsed == (now - boundAt) / 1000 < T1(lease)
      modifies this`now, this`pos
      ensures (Now(), what) == Waited(env, old(Now()), 1000 * Min(BOUND_HEARTBEAT_INTERVAL_SECS, T1(lease) - elapsed), EndsSleep)
      ensures Valid() && trace == old(trace) && old(now) <= now && pos == old(pos) + 1
    {
      hide Fine, Applied, Waited;
      ghost var secs, off := SinceBound(Now(), boundAt);
      SleepFine(env, Now(), lease, boundAt, secs, off);
      what := WaitFor(1000 * Min(BOUND_HEARTBEAT_INTERVAL_SECS, T1(lease) - elapsed), EndsSleep);
    }

    method BoundPhase(ackLease: nat) returns (r: Outcome)
      requires Valid() && pos > 0
      modifies this
      ensures Turn(Now(), r) == Bound(env, old(Now()), ackLease)
      ensures Valid()
      ensures r.Failed? ==> r.why == Ipc || Applied(trace).None?
    {
      hide Fine, Applied, Renewal, Waited, T1, Min, Schedule, NoAnswer;
      BoundFine(env, Now(), ackLease);
      var lease: nat := ackLease;
      var ok := ApplyLease(lease);
      if !ok {
        return Failed(Ipc);
      }
      var boundAt: nat := now;
      while true
        invariant pos > 0 && Valid() && boundAt <= now && Applied(trace) == Some(Binding(boundAt, lease, 0))
        invariant Rest(env, Period(env, Now(), lease, boundAt)) == Bound(env, old(Now()), ackLease)
        decreases |env| - pos
      {
        var elapsed := (now - boundAt) / 1000;
        if elapsed >= lease {
          Emit(Clear);
          return Failed(LeaseExpired);
        }
        if pos == |env| {
          return EndOfEnv;
        }
        if elapsed < T1(lease) {
          var what := Sleep(elapsed, lease, boundAt);
          if what.Closed? || what.IpcError? {
            Emit(Clear);
            return Failed(ParentClosed);
          }
          continue;
        }
        var renewed := RenewLease(lease, boundAt);
        match renewed {
          case Acked(newLease) =>
            lease := newLease;
            ok := ApplyLease(lease);
            if !ok {
              return Failed(Ipc);
            }
            boundAt := now;
          case Failed(why) =>
            Emit(Clear);
            return renewed;
          case _ =>
            return EndOfEnv;
        }
      }
    }

    method ExecutePhases() returns (r: Outcome)
      requires Valid() && Applied(trace).None?
      modifies this
      ensures Turn(Now(), r) == Phases(env, old(Now()))
      ensures Valid()
    {
      hide Fine, Applied, Retry, Bound;
      r := DiscoverPhase();
      if r.Offered? {
        r := RequestPhase();
      }
      if r.Acked? {
        r := BoundPhase(r.lease);
      }
    }

    /** Clears whatever is applied and pauses; false when the parent is gone. */
    method HandlePhaseFailure() returns (goOn: bool)
      requires Valid()
      modifies this
      ensures (Now(), goOn) == AfterFailure(env, old(Now()))
      ensures Valid() && Applied(trace).None?
    {
      hide Fine, Applied;
      FailureFine(env, Now());
      Emit(Clear);
      if pos == |env| {
        return false;
      }
      var what := WaitFor(1000 * SOCKET_RESTART_DELAY_SECS, EndsSleep);
      if what.Closed? || what.IpcError? {
        return false;
      }
      if !what.Quiet? {
        now := now + 1000 * SOCKET_RESTART_DELAY_SECS;
      }
      goOn := true;
    }

    /** The main loop. */
    method Run()
      requires Valid() && Applied(trace).None?
      modifies this
      ensures Now() == RunFrom(env, old(Now()))
      ensures Valid()
    {
      hide Fine, Applied, Phases, AfterFailure;
      while true
        invariant Valid() && Applied(trace).None?
        invariant RunFrom(env, Now()) == RunFrom(env, old(Now()))
        decreases |env| - pos
      {
        var r := ExecutePhases();
        if r.EndOfEnv? || r == Failed(ParentClosed) {
          return;
        }
        var goOn := HandlePhaseFailure();
        if !goOn {
          return;
        }
      }
    }
  }

  /** Follows the client from its start along any environment, up to the time `end`. */
  method Follow(env: seq<Wait>) returns (trace: seq<Sent>, end: nat)
    ensures trace == RunFrom(env, START).trace && end == RunFrom(env, START).now
    ensures Good(trace) && OnTime(Applied(trace), end)
    ensures WholeSeconds(env) ==> Aligned(trace) && Whole(end)
  {
    hide RunFrom;
    var client := new Client(env);
    client.Run();
    trace, end := client.trace, client.now;
  }
}
