/**
 How the DHCP client takes what comes (src/services/dhcp_client/worker.rs): for
 every environment, what ends a phase, when, and what is sent next.
 */
module ClientAnswers {
  import opened Naturals
  import opened Options
  import opened LeaseRenewal
  import opened ClientRun
  import opened ClientExpiry

  // ---- the first two phases ----

  /**
   If nothing ended the waits before wait `p` and something awaited comes in
   wait `p` before it is over, the attempts end at that moment with it.
   */
  lemma {:induction false} RetryEndsAt(env: seq<Wait>, s: State, delay: nat, msg: Msg, ends: Interruption -> bool, p: nat)
    requires s.pos <= p < |env| && !ends(Quiet) && ends(env[p].what)
    requires Retry(env[..p], s, delay, msg, ends).1 == Quiet
    requires env[p].after < Jittered(DelayAfter(delay, p - s.pos), env[p].jitter)
    ensures var u := Retry(env[..p], s, delay, msg, ends).0;
            Retry(env, s, delay, msg, ends) == (State(p + 1, u.now + env[p].after, u.trace + [Sent(msg, u.now)]), env[p].what)
    decreases p - s.pos
  {
    hide Jittered, NextDelay;
    if s.pos < p {
      var (s', what) := Waited(env, Say(s, msg), Jittered(delay, env[s.pos].jitter), ends);
      assert env[..p][s.pos] == env[s.pos];
      assert what == Quiet;
      RetryEndsAt(env, s', NextDelay(delay), msg, ends, p);
    }
  }

  /** An answer to a request, or the loss of the parent. */
  predicate IsAnswer(what: Interruption) {
    what.Ack? || what == Nak || what == Closed || what == IpcError
  }

  /** An offer ends the discovery, and so does the loss of the parent; nothing else does. */
  lemma {:induction false} DiscoverResult(env: seq<Wait>, s: State)
    requires s.pos <= |env|
    ensures var t := Discover(env, s);
            match t.outcome
            case EndOfEnv => t.state.pos == |env|
            case Offered => s.pos < t.state.pos <= |env| && env[t.state.pos - 1].what == Offer
            case Failed(why) => && s.pos < t.state.pos <= |env|
                                && (why == ParentClosed || why == Ipc)
                                && env[t.state.pos - 1].what == (if why == ParentClosed then Closed else IpcError)
            case Acked(_) => false
  {
    hide Retry;
    RetrySends(env, s, INITIAL_RETRY_DELAY_SECS, SendDiscover, EndsOfferWait);
  }

  /** The answers to a request by what they lead to. */
  predicate LeadsTo(what: Interruption, outcome: Outcome) {
    || (what.Ack? && outcome == Acked(what.lease))
    || (what == Nak && outcome == Failed(Refused))
    || (what == Closed && outcome == Failed(ParentClosed))
    || (what == IpcError && outcome == Failed(Ipc))
  }

  /** An ACK, a NAK or the loss of the parent ends the wait for an ACK, each with its own outcome. */
  lemma {:induction false} SelectedResult(env: seq<Wait>, s: State)
    requires s.pos <= |env|
    ensures var t := Selected(env, s);
            if t.outcome.EndOfEnv? then t.state.pos == |env|
            else s.pos < t.state.pos <= |env| && LeadsTo(env[t.state.pos - 1].what, t.outcome)
  {
    hide Retry;
    RetrySends(env, s, INITIAL_RETRY_DELAY_SECS, SendRequest(Selecting), EndsAckWait);
  }

  /** The offer or the loss of the parent in wait `p` is acted on at once. */
  lemma {:induction false} OfferIsTaken(env: seq<Wait>, s: State, p: nat)
    requires s.pos <= p < |env| && Discover(env[..p], s).outcome.EndOfEnv?
    requires env[p].what == Offer || env[p].what == Closed || env[p].what == IpcError
    requires env[p].after < Jittered(DelayAfter(4, p - s.pos), env[p].jitter)
    ensures var t, u := Discover(env, s), Discover(env[..p], s).state;
            && t.state == State(p + 1, u.now + env[p].after, u.trace + [Sent(SendDiscover, u.now)])
            && t.outcome == match env[p].what
                            case Offer => Offered
                            case Closed => Failed(ParentClosed)
                            case _ => Failed(Ipc)
  {
    hide Retry, DelayAfter, Jittered;
    RetrySends(env[..p], s, INITIAL_RETRY_DELAY_SECS, SendDiscover, EndsOfferWait);
    RetryEndsAt(env, s, INITIAL_RETRY_DELAY_SECS, SendDiscover, EndsOfferWait, p);
  }

  /** The ACK, NAK or loss of the parent in wait `p` is acted on at once. */
  lemma {:induction false} AnswerIsTaken(env: seq<Wait>, s: State, p: nat)
    requires s.pos <= p < |env| && IsAnswer(env[p].what) && Selected(env[..p], s).outcome.EndOfEnv?
    requires env[p].after < Jittered(DelayAfter(4, p - s.pos), env[p].jitter)
    ensures var t, u := Selected(env, s), Selected(env[..p], s).state;
            && t.state == State(p + 1, u.now + env[p].after, u.trace + [Sent(SendRequest(Selecting), u.now)])
            && LeadsTo(env[p].what, t.outcome)
  {
    hide Retry, DelayAfter, Jittered;
    RetrySends(env[..p], s, INITIAL_RETRY_DELAY_SECS, SendRequest(Selecting), EndsAckWait);
    RetryEndsAt(env, s, INITIAL_RETRY_DELAY_SECS, SendRequest(Selecting), EndsAckWait, p);
  }

  // ---- renewal ----

  /** A renewal ends with an answer to it, the loss of the parent, or the end of the lease; nothing else ends it. */
  lemma {:induction false} RenewalResult(env: seq<Wait>, s: State, lastSent: Option<nat>, lease: nat, boundAt: nat)
    requires s.pos <= |env| && boundAt <= s.now && (lastSent.Some? ==> lastSent.value <= s.now)
    ensures var t := Renewal(env, s, lastSent, lease, boundAt);
            || (t.outcome.EndOfEnv? && t.state.pos == |env| && Elapsed(t.state, boundAt) < lease)
            || (t.outcome == Failed(LeaseExpired) && Elapsed(t.state, boundAt) >= lease)
            || (s.pos < t.state.pos <= |env| && LeadsTo(env[t.state.pos - 1].what, t.outcome))
    decreases |env| - s.pos
  {
    hide Interval, InRebinding, Elapsed, Asks, AskedAt;
    if Elapsed(s, boundAt) < lease && s.pos < |env| {
      var interval := Interval(Elapsed(s, boundAt), lease);
      var (s', what) := Waited(env, Asked(s, lastSent, lease, boundAt), 1000 * interval, EndsAckWait);
      if what == Quiet {
        RenewalResult(env, s', AskedAt(s, lastSent, lease, boundAt), lease, boundAt);
      }
    }
  }

  /** Only requests to extend the lease are sent during a renewal. */
  ghost predicate OnlyAsks(before: seq<Sent>, after: seq<Sent>) {
    before <= after && forall k | |before| <= k < |after| :: IsExtension(after[k].msg)
  }

  /**
   If nothing ended the waits of a renewal before wait `p` and an answer comes
   in wait `p` before it is over, the renewal ends at that moment with it.
   */
  lemma {:induction false} RenewalEndsAt(env: seq<Wait>, s: State, lastSent: Option<nat>, lease: nat, boundAt: nat, p: nat)
    requires s.pos <= p < |env| && boundAt <= s.now && (lastSent.Some? ==> lastSent.value <= s.now) && IsAnswer(env[p].what)
    requires Renewal(env[..p], s, lastSent, lease, boundAt).outcome.EndOfEnv?
    requires env[p].after < 1000 * Interval(Elapsed(Renewal(env[..p], s, lastSent, lease, boundAt).state, boundAt), lease)
    ensures var t, u := Renewal(env, s, lastSent, lease, boundAt), Renewal(env[..p], s, lastSent, lease, boundAt).state;
            && t.state.pos == p + 1 && t.state.now == u.now + env[p].after && OnlyAsks(u.trace, t.state.trace)
            && LeadsTo(env[p].what, t.outcome)
    decreases p - s.pos
  {
    hide Interval, InRebinding, Elapsed, Asks, AskedAt;
    var interval := Interval(Elapsed(s, boundAt), lease);
    if s.pos < p && Elapsed(s, boundAt) < lease {
      var (s', what) := Waited(env, Asked(s, lastSent, lease, boundAt), 1000 * interval, EndsAckWait);
      assert env[..p][s.pos] == env[s.pos];
      assert what == Quiet;
      RenewalEndsAt(env, s', AskedAt(s, lastSent, lease, boundAt), lease, boundAt, p);
    }
  }

  lemma {:induction false} RenewalOnlyAsks(env: seq<Wait>, s: State, lastSent: Option<nat>, lease: nat, boundAt: nat)
    requires boundAt <= s.now && (lastSent.Some? ==> lastSent.value <= s.now)
    ensures OnlyAsks(s.trace, Renewal(env, s, lastSent, lease, boundAt).state.trace)
    decreases |env| - s.pos
  {
    hide Interval, InRebinding, Elapsed, Asks, AskedAt;
    if Elapsed(s, boundAt) < lease && s.pos < |env| {
      var interval := Interval(Elapsed(s, boundAt), lease);
      var (s', what) := Waited(env, Asked(s, lastSent, lease, boundAt), 1000 * interval, EndsAckWait);
      if what == Quiet {
        RenewalOnlyAsks(env, s', AskedAt(s, lastSent, lease, boundAt), lease, boundAt);
      }
    }
  }

  // ---- a lease that is bound ----

  /** The parent stays while the client sleeps. */
  ghost predicate ParentStays(env: seq<Wait>, from: nat, to: nat) {
    forall i | from <= i < to && i < |env| :: !env[i].what.Closed? && !env[i].what.IpcError?
  }

  /** Whatever else cuts them short, the sleeps lead to the renewal. */
  lemma {:induction false} SleepsLeadToRenewal(env: seq<Wait>, s: State, lease: nat, boundAt: nat)
    requires boundAt <= s.now && Elapsed(s, boundAt) <= T1(lease) && lease > 0
    requires ParentStays(env, s.pos, Rested(env, s, lease, boundAt).pos) && Rested(env, s, lease, boundAt).pos < |env|
    ensures Period(env, s, lease, boundAt) == Renewal(env, Rested(env, s, lease, boundAt), None, lease, boundAt)
    decreases |env| - s.pos
  {
    hide Renewal, Elapsed;
    RestsUntilT1(env, s, lease, boundAt);
    if s.pos < |env| && Elapsed(s, boundAt) < T1(lease) {
      SleepsOn(env, s, lease, boundAt);
      SleepsLeadToRenewal(env, Waited(env, s, 1000 * Min(BOUND_HEARTBEAT_INTERVAL_SECS, T1(lease) - Elapsed(s, boundAt)), EndsSleep).0,
                          lease, boundAt);
    }
  }

  /** The loss of the parent during a sleep ends the period at once. */
  lemma {:induction false} ParentLostAsleep(env: seq<Wait>, s: State, lease: nat, boundAt: nat, p: nat)
    requires boundAt <= s.now && s.pos <= p < |env| && (env[p].what.Closed? || env[p].what.IpcError?)
    requires ParentStays(env, s.pos, p) && Rested(env[..p], s, lease, boundAt).pos == p
    requires var u := Rested(env[..p], s, lease, boundAt);
             Elapsed(u, boundAt) < T1(lease) && env[p].after < 1000 * Min(3, T1(lease) - Elapsed(u, boundAt))
    ensures var u := Rested(env[..p], s, lease, boundAt);
            Period(env, s, lease, boundAt) == Turn(State(p + 1, u.now + env[p].after, s.trace), Failed(ParentClosed))
    decreases p - s.pos
  {
    hide Renewal, Elapsed;
    if s.pos < p && Elapsed(s, boundAt) < T1(lease) {
      assert env[..p][s.pos] == env[s.pos];
      ParentLostAsleep(env, Waited(env, s, 1000 * Min(BOUND_HEARTBEAT_INTERVAL_SECS, T1(lease) - Elapsed(s, boundAt)), EndsSleep).0,
                       lease, boundAt, p);
    }
  }

  lemma {:induction false} PeriodOnlyAsks(env: seq<Wait>, s: State, lease: nat, boundAt: nat)
    requires boundAt <= s.now
    ensures OnlyAsks(s.trace, Period(env, s, lease, boundAt).state.trace)
    decreases |env| - s.pos
  {
    hide Renewal, Elapsed;
    var elapsed := Elapsed(s, boundAt);
    if elapsed < lease && s.pos < |env| {
      if elapsed < T1(lease) {
        var (s', what) := Waited(env, s, 1000 * Min(BOUND_HEARTBEAT_INTERVAL_SECS, T1(lease) - elapsed), EndsSleep);
        if !(what.Closed? || what.IpcError?) {
          PeriodOnlyAsks(env, s', lease, boundAt);
        }
      } else {
        RenewalOnlyAsks(env, s, None, lease, boundAt);
      }
    }
  }

  lemma {:induction false} BoundExtends(env: seq<Wait>, s: State, lease: nat)
    requires 0 < s.pos <= |env|
    ensures s.trace + [Sent(Apply(lease), s.now)] <= Bound(env, s, lease).state.trace
    decreases |env| - s.pos
  {
    hide Period;
    var applied := Say(s, Apply(lease));
    PeriodOnlyAsks(env, applied, lease, s.now);
    var period := Period(env, applied, lease, s.now);
    if env[s.pos - 1].applyOk && period.outcome.Acked? {
      BoundExtends(env, period.state, period.outcome.lease);
    }
  }

  /**
   From a lease being applied: during its period only requests to extend it are
   sent.  When an ACK ends the period, the new lease is applied at that moment;
   when anything else does, the lease is cleared at that moment, and the phase
   ends with that.
   */
  lemma {:induction false} PeriodIsActedOn(env: seq<Wait>, s: State, lease: nat)
    requires 0 < s.pos <= |env| && env[s.pos - 1].applyOk
    ensures var period := Period(env, Say(s, Apply(lease)), lease, s.now);
            var t := Bound(env, s, lease);
            && OnlyAsks(s.trace + [Sent(Apply(lease), s.now)], period.state.trace)
            && (period.outcome.Acked? ==>
                  period.state.trace + [Sent(Apply(period.outcome.lease), period.state.now)] <= t.state.trace)
            && (period.outcome.Failed? ==>
                  t.outcome == period.outcome && t.state.now == period.state.now && t.state.pos == period.state.pos
                  && t.state.trace == period.state.trace + [Sent(Clear, period.state.now)])
            && (period.outcome.EndOfEnv? ==> t == period)
  {
    hide Period, OnlyAsks;
    PeriodOnlyAsks(env, Say(s, Apply(lease)), lease, s.now);
    var period := Period(env, Say(s, Apply(lease)), lease, s.now);
    if period.outcome.Acked? {
      BoundExtends(env, period.state, period.outcome.lease);
    }
  }

  /** A lease that does not reach the parent ends the phase at once. */
  lemma {:induction false} NotApplied(env: seq<Wait>, s: State, lease: nat)
    requires 0 < s.pos <= |env| && !env[s.pos - 1].applyOk
    ensures Bound(env, s, lease) == Turn(State(s.pos, s.now, s.trace + [Sent(Apply(lease), s.now)]), Failed(Ipc))
  {
  }

  /**
   A renewal that is answered: if the answer comes in wait `p` and nothing ended
   a wait of the renewal before, then with an ACK the new lease is applied at
   that moment, with nothing but requests to extend it in between, and without
   the old one being cleared; with a NAK it is cleared at that moment.
   */
  lemma {:induction false} AnsweredRenewal(env: seq<Wait>, s: State, lease: nat, p: nat)
    requires 0 < s.pos <= p < |env| && env[s.pos - 1].applyOk && lease > 0 && IsAnswer(env[p].what)
    requires var r := Rested(env, Say(s, Apply(lease)), lease, s.now);
             && ParentStays(env, s.pos, r.pos) && r.pos <= p
             && Renewal(env[..p], r, None, lease, s.now).outcome.EndOfEnv?
             && env[p].after < 1000 * Interval(Elapsed(Renewal(env[..p], r, None, lease, s.now).state, s.now), lease)
    ensures var u := Renewal(env[..p], Rested(env, Say(s, Apply(lease)), lease, s.now), None, lease, s.now).state;
            var t := Bound(env, s, lease);
            var at := u.now + env[p].after;
            exists asks ::
              && OnlyAsks(s.trace + [Sent(Apply(lease), s.now)], asks)
              && (env[p].what.Ack? ==> asks + [Sent(Apply(env[p].what.lease), at)] <= t.state.trace)
              && (!env[p].what.Ack? ==> t.state.trace == asks + [Sent(Clear, at)] && LeadsTo(env[p].what, t.outcome))
  {
    hide Period, Renewal, Rested, Interval, OnlyAsks, Bound, Elapsed;
    var applied := Say(s, Apply(lease));
    SinceGives(applied, s.now, 0, 0);
    SleepsLeadToRenewal(env, applied, lease, s.now);
    RenewalEndsAt(env, Rested(env, applied, lease, s.now), None, lease, s.now, p);
    PeriodIsActedOn(env, s, lease);
    var asks := Period(env, applied, lease, s.now).state.trace;
    assert OnlyAsks(s.trace + [Sent(Apply(lease), s.now)], asks);
  }

  // ---- starting over ----

  lemma {:induction false} RetryExtends(env: seq<Wait>, s: State, delay: nat, msg: Msg, ends: Interruption -> bool)
    ensures s.trace <= Retry(env, s, delay, msg, ends).0.trace
    ensures s.pos < |env| ==> s.trace + [Sent(msg, s.now)] <= Retry(env, s, delay, msg, ends).0.trace
    decreases |env| - s.pos
  {
    hide Jittered, NextDelay;
    if s.pos < |env| {
      var (s', what) := Waited(env, Say(s, msg), Jittered(delay, env[s.pos].jitter), ends);
      if what == Quiet {
        RetryExtends(env, s', NextDelay(delay), msg, ends);
      }
    }
  }

  lemma {:induction false} PhasesExtend(env: seq<Wait>, s: State)
    ensures s.trace <= Phases(env, s).state.trace
    ensures s.pos < |env| ==> s.trace + [Sent(SendDiscover, s.now)] <= Phases(env, s).state.trace
  {
    hide Retry, Bound;
    RetryExtends(env, s, INITIAL_RETRY_DELAY_SECS, SendDiscover, EndsOfferWait);
    var offer := Discover(env, s);
    if offer.outcome.Offered? {
      RetryExtends(env, offer.state, INITIAL_RETRY_DELAY_SECS, SendRequest(Selecting), EndsAckWait);
      var ack := Selected(env, offer.state);
      if ack.outcome.Acked? {
        BoundExtends(env, ack.state, ack.outcome.lease);
      }
    }
  }

  lemma {:induction false} RunExtends(env: seq<Wait>, s: State)
    ensures s.trace <= RunFrom(env, s).trace
    ensures s.pos < |env| ==> s.trace + [Sent(SendDiscover, s.now)] <= RunFrom(env, s).trace
    decreases |env| - s.pos
  {
    hide Phases;
    PhasesExtend(env, s);
    var turn := Phases(env, s);
    if !(turn.outcome.EndOfEnv? || turn.outcome == Failed(ParentClosed)) {
      var (s', goOn) := AfterFailure(env, turn.state);
      if goOn {
        RunExtends(env, s');
      }
    }
  }

  /** A request follows an offer at once, and a lease is applied at once when it is acknowledged. */
  lemma {:induction false} PhasesFollow(env: seq<Wait>, s: State)
    ensures var offer := Discover(env, s);
            offer.outcome.Offered? ==>
              var ack := Selected(env, offer.state);
              && (offer.state.pos < |env| ==>
                    offer.state.trace + [Sent(SendRequest(Selecting), offer.state.now)] <= ack.state.trace)
              && (ack.outcome.Acked? ==>
                    ack.state.trace + [Sent(Apply(ack.outcome.lease), ack.state.now)] <= Phases(env, s).state.trace)
              && (!ack.outcome.Acked? ==> Phases(env, s) == ack)
    ensures !Discover(env, s).outcome.Offered? ==> Phases(env, s) == Discover(env, s)
  {
    hide Retry, Bound;
    var offer := Discover(env, s);
    if offer.outcome.Offered? {
      RetryExtends(env, offer.state, INITIAL_RETRY_DELAY_SECS, SendRequest(Selecting), EndsAckWait);
      var ack := Selected(env, offer.state);
      if ack.outcome.Acked? {
        BoundExtends(env, ack.state, ack.outcome.lease);
      }
    }
  }

  /**
   After a failure the lease is cleared, and five seconds later the client
   starts over with a discover; a packet in that time starts the five seconds
   anew, and the loss of the parent ends the run, as it does in any phase.
   */
  lemma {:induction false} StartsOver(env: seq<Wait>, s: State)
    requires Phases(env, s).outcome.Failed?
    ensures var turn := Phases(env, s);
            var cleared := turn.state.trace + [Sent(Clear, turn.state.now)];
            && (turn.outcome.why == ParentClosed ==> RunFrom(env, s) == turn.state)
            && (turn.outcome.why != ParentClosed ==> cleared <= RunFrom(env, s).trace)
            && (turn.outcome.why != ParentClosed && turn.state.pos < |env| ==>
                  var w := env[turn.state.pos];
                  if w.after < 5000 && (w.what.Closed? || w.what.IpcError?) then RunFrom(env, s).trace == cleared
                  else turn.state.pos + 1 < |env| ==>
                         cleared + [Sent(SendDiscover, turn.state.now + 5000 + (if w.after < 5000 && w.what != Quiet then w.after else 0))]
                         <= RunFrom(env, s).trace)
  {
    hide Phases;
    var turn := Phases(env, s);
    if turn.outcome.why != ParentClosed {
      var (s', goOn) := AfterFailure(env, turn.state);
      if goOn {
        RunExtends(env, s');
      }
    }
  }
}
