/**
 When a lease of the DHCP client ends that nobody extends
 (src/services/dhcp_client/worker.rs).  The client counts whole seconds since
 the lease was bound, rounded down; a packet that cuts a sleep short leaves it
 off the whole second, and by as much the lease is cleared late.
 */
module ClientExpiry {
  import opened Naturals
  import opened Options
  import opened LeaseRenewal
  import opened ClientRun

  /** Nothing comes any more that ends a wait for an ACK. */
  ghost predicate NoAnswer(env: seq<Wait>, pos: nat) {
    forall i | pos <= i < |env| :: !EndsAckWait(env[i].what)
  }

  // ---- a renewal that nobody answers ----

  ghost function RenewalMsg(r: Request, boundAt: nat): Sent {
    Sent(SendRequest(if r.broadcast then Rebinding else Renewing), boundAt + 1000 * r.at)
  }

  /** The messages still to come at `elapsed` seconds if nobody answers. */
  ghost function Schedule(elapsed: nat, lastSent: Option<nat>, lease: nat, boundAt: nat): seq<Sent> {
    var rs := Unanswered(elapsed, lastSent, lease);
    seq(|rs|, i requires 0 <= i < |rs| => RenewalMsg(rs[i], boundAt))
  }

  lemma {:induction false} ScheduleRound(elapsed: nat, lastSent: Option<nat>, lease: nat, boundAt: nat)
    ensures elapsed >= lease ==> Schedule(elapsed, lastSent, lease, boundAt) == []
    ensures elapsed < lease ==>
              var next := elapsed + Interval(elapsed, lease);
              Schedule(elapsed, lastSent, lease, boundAt)
              == if Sends(elapsed, lastSent, lease)
                 then [RenewalMsg(Request(elapsed, InRebinding(elapsed, lease)), boundAt)]
                      + Schedule(next, Some(elapsed), lease, boundAt)
                 else Schedule(next, lastSent, lease, boundAt)
  {
  }

  /** The same time in milliseconds and in seconds since `boundAt`. */
  ghost predicate InSeconds(ms: Option<nat>, secs: Option<nat>, boundAt: nat) {
    (ms.None? && secs.None?) || (ms.Some? && secs.Some? && ms.value == boundAt + 1000 * secs.value)
  }

  lemma SendsInSeconds(secs: nat, lastSec: Option<nat>, lastSent: Option<nat>, lease: nat, boundAt: nat)
    requires InSeconds(lastSent, lastSec, boundAt) && (lastSent.Some? ==> lastSent.value <= boundAt + 1000 * secs)
    ensures Sends(secs, lastSec, lease) <==>
            lastSent.None? || (boundAt + 1000 * secs - lastSent.value) / 1000 >= Interval(secs, lease)
  {
  }

  lemma {:induction false} QuietWait(env: seq<Wait>, s: State, ms: nat)
    requires s.pos < |env| && NoAnswer(env, s.pos)
    ensures Waited(env, s, ms, EndsAckWait) == (State(s.pos + 1, s.now + ms, s.trace), Quiet)
    ensures NoAnswer(env, s.pos + 1)
  {
  }

  /**
   Without an answer the requests are those of the schedule, off by as much as
   the renewal started off the whole second, and it ends off by as much too.
   */
  lemma {:induction false} UnansweredRenewalRun(env: seq<Wait>, s: State, lastSent: Option<nat>, lastSec: Option<nat>,
                                                lease: nat, boundAt: nat, secs: nat, off: nat)
    requires Since(s, boundAt, secs, off) && secs <= lease && NoAnswer(env, s.pos)
    requires InSeconds(lastSent, lastSec, boundAt + off) && (lastSent.Some? ==> lastSent.value <= s.now)
    ensures var t := Renewal(env, s, lastSent, lease, boundAt);
            && (!t.outcome.EndOfEnv? ==>
                  && t.outcome == Failed(LeaseExpired) && t.state.now == boundAt + 1000 * lease + off
                  && t.state.trace == s.trace + Schedule(secs, lastSec, lease, boundAt + off))
            && (|env| - s.pos >= lease - secs ==> !t.outcome.EndOfEnv?)
    decreases |env| - s.pos
  {
    hide NoAnswer, Schedule, Interval, InRebinding, Sends, Waited;
    SinceGives(s, boundAt, secs, off);
    ScheduleRound(secs, lastSec, lease, boundAt + off);
    if secs < lease && s.pos < |env| {
      var interval := Interval(secs, lease);
      WaitsInBounds(secs, lease);
      SendsInSeconds(secs, lastSec, lastSent, lease, boundAt + off);
      var asked := Asked(s, lastSent, lease, boundAt);
      QuietWait(env, asked, 1000 * interval);
      var s' := Waited(env, asked, 1000 * interval, EndsAckWait).0;
      UnansweredRenewalRun(env, s', AskedAt(s, lastSent, lease, boundAt), if Sends(secs, lastSec, lease) then Some(secs) else lastSec,
                           lease, boundAt, secs + interval, off);
    }
  }

  /** The wait the code computes goes past the lease exactly if it is the last one and starts off the whole second. */
  lemma FractionOvershoots(elapsedMs: nat, lease: nat)
    requires elapsedMs / 1000 < lease
    ensures var secs := elapsedMs / 1000;
            elapsedMs + 1000 * Interval(secs, lease) > 1000 * lease
            <==> elapsedMs % 1000 != 0 && secs + Interval(secs, lease) == lease
  {
    WaitsInBounds(elapsedMs / 1000, lease);
  }

  // ---- exactly when a renewal is certain to end in time ----

  /** Whatever answers come, a renewal ends no later than expiry and what it started off the whole second. */
  lemma {:induction false} RenewalEndsBy(env: seq<Wait>, s: State, lastSent: Option<nat>, lease: nat, boundAt: nat, secs: nat, off: nat)
    requires Since(s, boundAt, secs, off) && secs <= lease && (lastSent.Some? ==> lastSent.value <= s.now)
    ensures Renewal(env, s, lastSent, lease, boundAt).state.now <= boundAt + 1000 * lease + off
    decreases |env| - s.pos
  {
    hide Interval, InRebinding, Asks;
    SinceGives(s, boundAt, secs, off);
    if secs < lease && s.pos < |env| {
      var interval := Interval(secs, lease);
      WaitsInBounds(secs, lease);
      var (s', what) := Waited(env, Asked(s, lastSent, lease, boundAt), 1000 * interval, EndsAckWait);
      if what == Quiet {
        RenewalEndsBy(env, s', AskedAt(s, lastSent, lease, boundAt), lease, boundAt, secs + interval, off);
      }
    }
  }

  /** If the waits go on with `rest`, the renewal ends by the time the lease does. */
  ghost predicate EndsInTime(past: seq<Wait>, rest: seq<Wait>, s: State, lease: nat, boundAt: nat)
    requires boundAt <= s.now
  {
    Renewal(past + rest, s, None, lease, boundAt).state.now <= boundAt + 1000 * lease
  }

  /** A renewal is certain to end by the time the lease does exactly if it starts on a whole second since the bind. */
  lemma {:induction false} EndsInTimeIff(past: seq<Wait>, s: State, lease: nat, boundAt: nat)
    requires boundAt <= s.now && Elapsed(s, boundAt) < lease && s.pos == |past|
    ensures (forall rest :: EndsInTime(past, rest, s, lease, boundAt)) <==> (s.now - boundAt) % 1000 == 0
  {
    hide Renewal, Elapsed;
    var secs, off := SinceBound(s, boundAt);
    forall rest
      ensures off == 0 ==> EndsInTime(past, rest, s, lease, boundAt)
    {
      RenewalEndsBy(past + rest, s, None, lease, boundAt, secs, off);
    }
    var silence := seq(lease, i => Wait(0, Quiet, 0, true));
    assert NoAnswer(past + silence, |past|);
    UnansweredRenewalRun(past + silence, s, None, None, lease, boundAt, secs, off);
    assert off != 0 ==> !EndsInTime(past, silence, s, lease, boundAt);
  }

  // ---- a whole lease that nobody extends ----

  /** Where the sleeps before a renewal lead to. */
  function Rested(env: seq<Wait>, s: State, lease: nat, boundAt: nat): (r: State)
    requires boundAt <= s.now
    ensures s.pos <= r.pos && s.now <= r.now && r.trace == s.trace
    decreases |env| - s.pos
  {
    var elapsed := Elapsed(s, boundAt);
    if s.pos >= |env| || elapsed >= T1(lease) then s
    else Rested(env, Waited(env, s, 1000 * Min(BOUND_HEARTBEAT_INTERVAL_SECS, T1(lease) - elapsed), EndsSleep).0, lease, boundAt)
  }

  /** The time slept in sleeps that a packet cut short. */
  function CutShort(env: seq<Wait>, s: State, lease: nat, boundAt: nat): nat
    requires boundAt <= s.now
    decreases |env| - s.pos
  {
    var elapsed := Elapsed(s, boundAt);
    if s.pos >= |env| || elapsed >= T1(lease) then 0
    else
      var (s', what) := Waited(env, s, 1000 * Min(BOUND_HEARTBEAT_INTERVAL_SECS, T1(lease) - elapsed), EndsSleep);
      (if what == Quiet then 0 else env[s.pos].after) + CutShort(env, s', lease, boundAt)
  }

  lemma WholeStep(x: int, n: int)
    ensures (x + 1000 * n) % 1000 == x % 1000
  {
  }

  // The client is off the whole second by what it slept in the sleeps that were cut short.
  lemma {:induction false} OffByCuts(env: seq<Wait>, s: State, lease: nat, boundAt: nat)
    requires boundAt <= s.now
    ensures (Rested(env, s, lease, boundAt).now - boundAt) % 1000 == (s.now - boundAt + CutShort(env, s, lease, boundAt)) % 1000
    decreases |env| - s.pos
  {
    hide T1, Elapsed, Min;
    var elapsed := Elapsed(s, boundAt);
    if s.pos < |env| && elapsed < T1(lease) {
      var secs := Min(BOUND_HEARTBEAT_INTERVAL_SECS, T1(lease) - elapsed);
      var (s', what) := Waited(env, s, 1000 * secs, EndsSleep);
      OffByCuts(env, s', lease, boundAt);
      WholeStep(s.now - boundAt + CutShort(env, s', lease, boundAt), secs);
    }
  }

  // Sleeping takes the client to T1, to the second.
  lemma {:induction false} RestsUntilT1(env: seq<Wait>, s: State, lease: nat, boundAt: nat)
    requires boundAt <= s.now && Elapsed(s, boundAt) <= T1(lease)
    ensures var r := Rested(env, s, lease, boundAt);
            Elapsed(r, boundAt) <= T1(lease) && (r.pos < |env| ==> Elapsed(r, boundAt) == T1(lease))
    decreases |env| - s.pos
  {
    hide T1;
    var elapsed := Elapsed(s, boundAt);
    if s.pos < |env| && elapsed < T1(lease) {
      var s' := Waited(env, s, 1000 * Min(BOUND_HEARTBEAT_INTERVAL_SECS, T1(lease) - elapsed), EndsSleep).0;
      RestsUntilT1(env, s', lease, boundAt);
    }
  }

  lemma {:induction false} PeriodRests(env: seq<Wait>, s: State, lease: nat, boundAt: nat)
    requires boundAt <= s.now && Elapsed(s, boundAt) <= T1(lease) && lease > 0 && NoAnswer(env, s.pos)
    ensures var r := Rested(env, s, lease, boundAt);
            Period(env, s, lease, boundAt) == (if r.pos >= |env| then Turn(r, EndOfEnv) else Renewal(env, r, None, lease, boundAt))
    decreases |env| - s.pos
  {
    hide Renewal, Elapsed;
    RestsUntilT1(env, s, lease, boundAt);
    if s.pos < |env| && Elapsed(s, boundAt) < T1(lease) {
      var s' := Waited(env, s, 1000 * Min(BOUND_HEARTBEAT_INTERVAL_SECS, T1(lease) - Elapsed(s, boundAt)), EndsSleep).0;
      SleepsOn(env, s, lease, boundAt);
      PeriodRests(env, s', lease, boundAt);
    }
  }

  lemma {:induction false} SleepsOn(env: seq<Wait>, s: State, lease: nat, boundAt: nat)
    requires boundAt <= s.now && s.pos < |env| && Elapsed(s, boundAt) < T1(lease)
    ensures var s' := Waited(env, s, 1000 * Min(BOUND_HEARTBEAT_INTERVAL_SECS, T1(lease) - Elapsed(s, boundAt)), EndsSleep).0;
            boundAt <= s'.now && Elapsed(s', boundAt) <= T1(lease)
  {
    hide T1;
  }

  /**
   A lease that is applied and that nobody extends: the requests are those of
   the schedule from T1 on, and it is cleared as long after it is over as the
   sleeps before T1 that were cut short took, modulo a second.  So it is
   cleared in time exactly if these add up to whole seconds.
   */
  lemma {:induction false} UnextendedLease(env: seq<Wait>, s: State, lease: nat)
    requires 0 < s.pos <= |env| && env[s.pos - 1].applyOk && lease > 0 && NoAnswer(env, s.pos)
    requires !Bound(env, s, lease).outcome.EndOfEnv?
    ensures var t := Bound(env, s, lease);
            var off := CutShort(env, Say(s, Apply(lease)), lease, s.now) % 1000;
            && t.outcome == Failed(LeaseExpired)
            && t.state.trace == s.trace + [Sent(Apply(lease), s.now)] + Schedule(T1(lease), None, lease, s.now + off)
                                + [Sent(Clear, s.now + 1000 * lease + off)]
  {
    hide Period, Renewal, Rested, CutShort, Schedule, NoAnswer;
    var applied := Say(s, Apply(lease));
    SinceGives(applied, s.now, 0, 0);
    PeriodRests(env, applied, lease, s.now);
    RestsUntilT1(env, applied, lease, s.now);
    OffByCuts(env, applied, lease, s.now);
    var r := Rested(env, applied, lease, s.now);
    if r.pos < |env| {
      var secs, off := SinceBound(r, s.now);
      NoAnswerLater(env, s.pos, r.pos);
      UnansweredRenewalRun(env, r, None, None, lease, s.now, secs, off);
    }
  }

  lemma NoAnswerLater(env: seq<Wait>, pos: nat, later: nat)
    requires NoAnswer(env, pos) && pos <= later
    ensures NoAnswer(env, later)
  {
  }

  /** A run in which a lease of two seconds is cleared half a second late: another packet cuts the sleep before T1 short. */
  lemma LateRun()
    ensures var quiet := Wait(0, Quiet, 0, true);
            var env := [Wait(0, Offer, 0, true), Wait(0, Ack(2), 0, true), Wait(500, OtherPacket, 0, true), quiet, quiet];
            RunFrom(env, START).trace ==
              [Sent(SendDiscover, 0), Sent(SendRequest(Selecting), 0), Sent(Apply(2), 0),
               Sent(SendRequest(Rebinding), 1500), Sent(Clear, 2500), Sent(Clear, 2500)]
  {
    hide Renewal, Period;
    var quiet := Wait(0, Quiet, 0, true);
    var env := [Wait(0, Offer, 0, true), Wait(0, Ack(2), 0, true), Wait(500, OtherPacket, 0, true), quiet, quiet];
    var offered := State(1, 0, [Sent(SendDiscover, 0)]);
    var acked := State(2, 0, offered.trace + [Sent(SendRequest(Selecting), 0)]);
    assert Discover(env, START) == Turn(offered, Offered);
    assert Selected(env, offered) == Turn(acked, Acked(2));
    LatePeriod(env);
    var applied := Say(acked, Apply(2));
    assert applied == State(2, 0, LATE_TRACE[..3]);
    var cleared := State(5, 2500, LATE_TRACE[..5]);
    assert Bound(env, acked, 2) == Turn(cleared, Failed(LeaseExpired));
  }

  const LATE_TRACE := [Sent(SendDiscover, 0), Sent(SendRequest(Selecting), 0), Sent(Apply(2), 0),
                       Sent(SendRequest(Rebinding), 1500), Sent(Clear, 2500), Sent(Clear, 2500)]

  lemma {:induction false} LatePeriod(env: seq<Wait>)
    requires |env| == 5 && env[2] == Wait(500, OtherPacket, 0, true) && env[3] == env[4] == Wait(0, Quiet, 0, true)
    ensures Period(env, State(2, 0, LATE_TRACE[..3]), 2, 0) == Turn(State(5, 2500, LATE_TRACE[..4]), Failed(LeaseExpired))
  {
    hide Renewal;
    var s := State(2, 0, LATE_TRACE[..3]);
    assert Period(env, s, 2, 0) == Period(env, State(3, 500, s.trace), 2, 0);
    assert Period(env, State(3, 500, s.trace), 2, 0) == Period(env, State(4, 1500, s.trace), 2, 0);
    assert Period(env, State(4, 1500, s.trace), 2, 0) == Renewal(env, State(4, 1500, s.trace), None, 2, 0);
    LateRenewal(env, State(4, 1500, s.trace));
    assert LATE_TRACE[..4] == s.trace + [Sent(SendRequest(Rebinding), 1500)];
  }

  lemma {:induction false} LateRenewal(env: seq<Wait>, s: State)
    requires |env| == 5 && env[4] == Wait(0, Quiet, 0, true) && s.pos == 4 && s.now == 1500
    ensures Renewal(env, s, None, 2, 0) ==
            Turn(State(5, 2500, s.trace + [Sent(SendRequest(Rebinding), 1500)]), Failed(LeaseExpired))
  {
    assert Interval(1, 2) == 1 && InRebinding(1, 2);
    var s' := State(5, 2500, s.trace + [Sent(SendRequest(Rebinding), 1500)]);
    assert Renewal(env, s, None, 2, 0) == Renewal(env, s', Some(1500), 2, 0);
  }
}
