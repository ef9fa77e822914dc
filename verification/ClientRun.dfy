/**
 The runs of the DHCP client on the WAN side (src/services/dhcp_client/worker.rs):
 discover, request, stay bound, renew and rebind, over and over.

 A run is driven by `env`, one entry for each wait of the client, saying when
 and how the wait is interrupted, if at all.  When the entries are used up the
 run has been followed as far as `env` describes it; as that is any length,
 what holds of the messages sent holds of every prefix of every run.  Times are
 milliseconds; sending takes no time.
 */
module ClientRun {
  import opened Naturals
  import opened Options
  import opened LeaseRenewal

  const MAX_RETRY_DELAY_SECS: nat := 64
  const INITIAL_RETRY_DELAY_SECS: nat := 4
  const SOCKET_RESTART_DELAY_SECS: nat := 5
  const BOUND_HEARTBEAT_INTERVAL_SECS: nat := 3

  /** Which state of the protocol a request is sent from. */
  datatype RequestKind = Selecting | Renewing | Rebinding

  /** The messages to the parent process that matter here; `Apply` carries the lease time in seconds. */
  datatype Msg = SendDiscover | SendRequest(kind: RequestKind) | Apply(lease: nat) | Clear

  datatype Sent = Sent(msg: Msg, at: nat)

  /** What ends a wait: an answer, another packet, the loss of the parent, or nothing. */
  datatype Interruption = Quiet | Offer | Ack(lease: nat) | Nak | OtherPacket | Closed | IpcError

  /**
   One wait: interrupted by `what` after `after` milliseconds, if that is before
   its end.  `jitter` is the random part of a retry delay, and `applyOk` whether
   a lease applied right after this wait reaches the parent.
   */
  datatype Wait = Wait(after: nat, what: Interruption, jitter: int, applyOk: bool)

  datatype Failure = LeaseExpired | Refused | Ipc | ParentClosed

  datatype Outcome = Offered | Acked(lease: nat) | Failed(why: Failure) | EndOfEnv

  /** Where a run is: how many waits are over, the time, and what has been sent. */
  datatype State = State(pos: nat, now: nat, trace: seq<Sent>)

  datatype Turn = Turn(state: State, outcome: Outcome)

  const START := State(0, 0, [])

  // ---- what the client does ----

  function Say(s: State, msg: Msg): State {
    s.(trace := s.trace + [Sent(msg, s.now)])
  }

  /** Waits for `ms` milliseconds or until one of the interruptions `ends` picks. */
  function Waited(env: seq<Wait>, s: State, ms: nat, ends: Interruption -> bool): (State, Interruption)
    requires s.pos < |env|
  {
    var w := env[s.pos];
    if w.after < ms && ends(w.what) then (s.(pos := s.pos + 1, now := s.now + w.after), w.what)
    else (s.(pos := s.pos + 1, now := s.now + ms), Quiet)
  }

  predicate EndsOfferWait(w: Interruption) {
    w.Offer? || w.Closed? || w.IpcError?
  }

  predicate EndsAckWait(w: Interruption) {
    w.Ack? || w.Nak? || w.Closed? || w.IpcError?
  }

  predicate EndsSleep(w: Interruption) {
    !w.Quiet?
  }

  function NextDelay(current: nat): nat {
    if current * 2 > MAX_RETRY_DELAY_SECS then MAX_RETRY_DELAY_SECS else current * 2
  }

  /** A retry delay in milliseconds with its jitter of up to a second either way. */
  function Jittered(secs: nat, jitter: int): nat {
    if 1000 * secs + jitter >= 1000 then 1000 * secs + jitter else 1000
  }

  /** Sends `msg` again and again, with growing delays, until a wait is interrupted. */
  function Retry(env: seq<Wait>, s: State, delay: nat, msg: Msg, ends: Interruption -> bool): (r: (State, Interruption))
    ensures s.pos <= r.0.pos && (r.1 != Quiet ==> s.pos < r.0.pos <= |env|)
    decreases |env| - s.pos
  {
    if s.pos >= |env| then (s, Quiet)
    else
      var (s', what) := Waited(env, Say(s, msg), Jittered(delay, env[s.pos].jitter), ends);
      if what != Quiet then (s', what) else Retry(env, s', NextDelay(delay), msg, ends)
  }

  function Discover(env: seq<Wait>, s: State): (r: Turn)
    ensures r.outcome.Offered? || r.outcome.Failed? || r.outcome.EndOfEnv?
    ensures s.pos <= r.state.pos && (!r.outcome.EndOfEnv? ==> s.pos < r.state.pos <= |env|)
  {
    var (s', what) := Retry(env, s, INITIAL_RETRY_DELAY_SECS, SendDiscover, EndsOfferWait);
    Turn(s', match what
             case Offer => Offered
             case Closed => Failed(ParentClosed)
             case IpcError => Failed(Ipc)
             case _ => EndOfEnv)
  }

  /** What the end of a wait for an ACK amounts to. */
  function AckOutcome(what: Interruption): Outcome {
    match what
    case Ack(lease) => Acked(lease)
    case Nak => Failed(Refused)
    case Closed => Failed(ParentClosed)
    case IpcError => Failed(Ipc)
    case _ => EndOfEnv
  }

  function Selected(env: seq<Wait>, s: State): (r: Turn)
    ensures !r.outcome.Offered?
    ensures s.pos <= r.state.pos && (!r.outcome.EndOfEnv? ==> s.pos < r.state.pos <= |env|)
  {
    var (s', what) := Retry(env, s, INITIAL_RETRY_DELAY_SECS, SendRequest(Selecting), EndsAckWait);
    Turn(s', AckOutcome(what))
  }

  /** Whole seconds since a lease was bound. */
  function Elapsed(s: State, boundAt: nat): nat
    requires boundAt <= s.now
  {
    (s.now - boundAt) / 1000
  }

  /** Whether a round of a renewal sends a request: the first one does, later ones if the interval has passed since the last. */
  predicate Asks(s: State, lastSent: Option<nat>, lease: nat, boundAt: nat)
    requires boundAt <= s.now && (lastSent.Some? ==> lastSent.value <= s.now)
  {
    lastSent.None? || (s.now - lastSent.value) / 1000 >= Interval(Elapsed(s, boundAt), lease)
  }

  /** A round before its wait, with the request if there is one. */
  function Asked(s: State, lastSent: Option<nat>, lease: nat, boundAt: nat): State
    requires boundAt <= s.now && (lastSent.Some? ==> lastSent.value <= s.now)
  {
    if Asks(s, lastSent, lease, boundAt)
    then Say(s, SendRequest(if InRebinding(Elapsed(s, boundAt), lease) then Rebinding else Renewing)) else s
  }

  function AskedAt(s: State, lastSent: Option<nat>, lease: nat, boundAt: nat): (r: Option<nat>)
    requires boundAt <= s.now && (lastSent.Some? ==> lastSent.value <= s.now)
    ensures r.Some? && r.value <= s.now
  {
    if Asks(s, lastSent, lease, boundAt) then Some(s.now) else lastSent
  }

  /** Renews and then rebinds a lease bound at `boundAt`; the last request of this was at `lastSent`. */
  function Renewal(env: seq<Wait>, s: State, lastSent: Option<nat>, lease: nat, boundAt: nat): (r: Turn)
    requires boundAt <= s.now && (lastSent.Some? ==> lastSent.value <= s.now)
    ensures !r.outcome.Offered? && s.pos <= r.state.pos && s.now <= r.state.now
    ensures r.outcome.Acked? ==> s.pos < r.state.pos <= |env|
    decreases |env| - s.pos
  {
    var elapsed := Elapsed(s, boundAt);
    if elapsed >= lease then Turn(s, Failed(LeaseExpired))
    else if s.pos >= |env| then Turn(s, EndOfEnv)
    else
      var (s', what) := Waited(env, Asked(s, lastSent, lease, boundAt), 1000 * Interval(elapsed, lease), EndsAckWait);
      if what != Quiet then Turn(s', AckOutcome(what))
      else Renewal(env, s', AskedAt(s, lastSent, lease, boundAt), lease, boundAt)
  }

  /** From a lease being bound until it is extended, refused or over: sleeps until T1, then the renewal. */
  function Period(env: seq<Wait>, s: State, lease: nat, boundAt: nat): (r: Turn)
    requires boundAt <= s.now
    ensures !r.outcome.Offered? && s.pos <= r.state.pos && s.now <= r.state.now
    ensures r.outcome.Acked? ==> s.pos < r.state.pos <= |env|
    decreases |env| - s.pos
  {
    var elapsed := Elapsed(s, boundAt);
    if elapsed >= lease then Turn(s, Failed(LeaseExpired))
    else if s.pos >= |env| then Turn(s, EndOfEnv)
    else if elapsed < T1(lease) then
      var (s', what) := Waited(env, s, 1000 * Min(BOUND_HEARTBEAT_INTERVAL_SECS, T1(lease) - elapsed), EndsSleep);
      if what.Closed? || what.IpcError? then Turn(s', Failed(ParentClosed)) else Period(env, s', lease, boundAt)
    else
      Renewal(env, s, None, lease, boundAt)
  }

  /** Applies the lease of an ACK that ended the last wait, and those of the ACKs that extend it. */
  function Bound(env: seq<Wait>, s: State, lease: nat): (r: Turn)
    requires 0 < s.pos <= |env|
    ensures (r.outcome.Failed? || r.outcome.EndOfEnv?) && s.pos <= r.state.pos
    decreases |env| - s.pos
  {
    var applied := Say(s, Apply(lease));
    if !env[s.pos - 1].applyOk then Turn(applied, Failed(Ipc))
    else
      var period := Period(env, applied, lease, s.now);
      match period.outcome
      case Acked(newLease) => Bound(env, period.state, newLease)
      case Failed(why) => Turn(Say(period.state, Clear), period.outcome)
      case _ => period
  }

  /** How it goes on after a period. */
  function Rest(env: seq<Wait>, period: Turn): Turn
    requires period.outcome.Acked? ==> 0 < period.state.pos <= |env|
  {
    match period.outcome
    case Acked(newLease) => Bound(env, period.state, newLease)
    case Failed(why) => Turn(Say(period.state, Clear), period.outcome)
    case _ => period
  }

  function Phases(env: seq<Wait>, s: State): (r: Turn)
    ensures s.pos <= r.state.pos && (!r.outcome.EndOfEnv? ==> s.pos < r.state.pos && s.pos < |env|)
  {
    var offer := Discover(env, s);
    if !offer.outcome.Offered? then offer
    else
      var ack := Selected(env, offer.state);
      if !ack.outcome.Acked? then ack else Bound(env, ack.state, ack.outcome.lease)
  }

  /** Clears whatever is applied and pauses; false when the parent is gone. */
  function AfterFailure(env: seq<Wait>, s: State): (r: (State, bool))
    ensures s.pos <= r.0.pos
  {
    var cleared := Say(s, Clear);
    if s.pos >= |env| then (cleared, false)
    else
      var (s', what) := Waited(env, cleared, 1000 * SOCKET_RESTART_DELAY_SECS, EndsSleep);
      if what.Closed? || what.IpcError? then (s', false)
      else if what != Quiet then (s'.(now := s'.now + 1000 * SOCKET_RESTART_DELAY_SECS), true)
      else (s', true)
  }

  /** The whole run. */
  function RunFrom(env: seq<Wait>, s: State): State
    decreases |env| - s.pos
  {
    var turn := Phases(env, s);
    if turn.outcome.EndOfEnv? || turn.outcome == Failed(ParentClosed) then turn.state
    else
      var (s', goOn) := AfterFailure(env, turn.state);
      if goOn then RunFrom(env, s') else s'
  }

  // ---- retransmission ----

  /** The delay before the attempt after the first `k + 1`. */
  function DelayAfter(delay: nat, k: nat): nat
    decreases k
  {
    if k == 0 then delay else DelayAfter(NextDelay(delay), k - 1)
  }

  /** Attempts doubling from 4 to 64 seconds, as in section 4.1 of RFC 2131. */
  lemma {:induction false} DelaysDouble(k: nat)
    ensures DelayAfter(INITIAL_RETRY_DELAY_SECS, k) == Min(4 * Pow2(k), MAX_RETRY_DELAY_SECS)
  {
    if k >= 4 {
      Pow2Grows(4, k);
      assert Pow2(4) == 16;
      assert NextDelay(NextDelay(NextDelay(NextDelay(4)))) == 64;
      assert DelayAfter(4, k) == DelayAfter(8, k - 1) == DelayAfter(16, k - 2) == DelayAfter(32, k - 3) == DelayAfter(64, k - 4);
      DelayStays(k - 4);
    } else {
      assert Pow2(0) == 1 && Pow2(1) == 2 && Pow2(2) == 4 && Pow2(3) == 8;
      assert DelayAfter(8, 0) == 8 && DelayAfter(8, 1) == DelayAfter(16, 0) && DelayAfter(8, 2) == DelayAfter(16, 1) == DelayAfter(32, 0);
    }
  }

  lemma {:induction false} DelayStays(k: nat)
    ensures DelayAfter(MAX_RETRY_DELAY_SECS, k) == MAX_RETRY_DELAY_SECS
  {
    if k > 0 {
      DelayStays(k - 1);
    }
  }

  /** The messages of `n` attempts from `now` on. */
  ghost function Attempts(env: seq<Wait>, pos: nat, now: nat, delay: nat, msg: Msg, n: nat): seq<Sent>
    requires pos + n <= |env|
    decreases n
  {
    if n == 0 then [] else [Sent(msg, now)] + Attempts(env, pos + 1, now + Jittered(delay, env[pos].jitter), NextDelay(delay), msg, n - 1)
  }

  // Attempts are as far apart as the delays say, each with the jitter of its wait.
  lemma {:induction false} AttemptsAreSpaced(env: seq<Wait>, pos: nat, now: nat, delay: nat, msg: Msg, n: nat, k: nat)
    requires pos + n <= |env| && k < n
    ensures var sent := Attempts(env, pos, now, delay, msg, n);
            && |sent| == n && sent[0].at == now && sent[k].msg == msg
            && (k + 1 < n ==> sent[k + 1].at - sent[k].at == Jittered(DelayAfter(delay, k), env[pos + k].jitter))
    decreases n
  {
    hide Jittered, NextDelay;
    var next := now + Jittered(delay, env[pos].jitter);
    var rest := Attempts(env, pos + 1, next, NextDelay(delay), msg, n - 1);
    if k > 0 {
      AttemptsAreSpaced(env, pos + 1, next, NextDelay(delay), msg, n - 1, k - 1);
    } else if n > 1 {
      AttemptsAreSpaced(env, pos + 1, next, NextDelay(delay), msg, n - 1, 0);
    } else {
      assert rest == [];
    }
  }

  /** One attempt for each wait, until one is interrupted by what it waits for or the waits end. */
  lemma {:induction false} RetrySends(env: seq<Wait>, s: State, delay: nat, msg: Msg, ends: Interruption -> bool)
    requires s.pos <= |env| && !ends(Quiet)
    ensures var (s', what) := Retry(env, s, delay, msg, ends);
            && s.pos <= s'.pos <= |env|
            && s'.trace == s.trace + Attempts(env, s.pos, s.now, delay, msg, s'.pos - s.pos)
            && (if what == Quiet then s'.pos == |env| else s.pos < s'.pos && what == env[s'.pos - 1].what && ends(what))
    decreases |env| - s.pos
  {
    hide Jittered, NextDelay;
    if s.pos < |env| {
      var (s1, what) := Waited(env, Say(s, msg), Jittered(delay, env[s.pos].jitter), ends);
      if what == Quiet {
        RetrySends(env, s1, NextDelay(delay), msg, ends);
      }
    }
  }

  /** In either phase the attempts are 4, 8, 16, 32 and then 64 seconds apart, give or take the jitter. */
  lemma {:induction false} Backoff(env: seq<Wait>, s: State, msg: Msg, ends: Interruption -> bool, k: nat)
    requires s.pos <= |env| && !ends(Quiet)
    requires k < Retry(env, s, INITIAL_RETRY_DELAY_SECS, msg, ends).0.pos - s.pos
    ensures var s' := Retry(env, s, INITIAL_RETRY_DELAY_SECS, msg, ends).0;
            var n := |s.trace|;
            && s'.pos <= |env| && |s'.trace| == n + (s'.pos - s.pos) && s'.trace[n].at == s.now && s'.trace[n + k].msg == msg
            && (n + k + 1 < |s'.trace| ==>
                  var ms := 1000 * Min(4 * Pow2(k), 64) + env[s.pos + k].jitter;
                  s'.trace[n + k + 1].at - s'.trace[n + k].at == if ms >= 1000 then ms else 1000)
  {
    hide Retry, Attempts, DelayAfter;
    RetrySends(env, s, INITIAL_RETRY_DELAY_SECS, msg, ends);
    var s' := Retry(env, s, INITIAL_RETRY_DELAY_SECS, msg, ends).0;
    AttemptsAreSpaced(env, s.pos, s.now, INITIAL_RETRY_DELAY_SECS, msg, s'.pos - s.pos, k);
    DelaysDouble(k);
  }

  // ---- what a trace must satisfy ----

  /** A lease in force; `slack` is how far off the whole second since `at` the last request to extend it was. */
  datatype Binding = Binding(at: nat, lease: nat, slack: nat)

  predicate IsExtension(m: Msg) {
    m.SendRequest? && m.kind != Selecting
  }

  predicate ChangesLease(m: Msg) {
    m.Apply? || m.Clear?
  }

  function After(b: Option<Binding>, sent: Sent): Option<Binding> {
    match sent.msg
    case Apply(lease) => Some(Binding(sent.at, lease, 0))
    case Clear => None
    case SendRequest(kind) =>
      if b.Some? && kind != Selecting then Some(b.value.(slack := (sent.at - b.value.at) % 1000)) else b
    case SendDiscover => b
  }

  /** The lease that is applied after these messages. */
  function Applied(trace: seq<Sent>): Option<Binding> {
    if trace == [] then None else After(Applied(trace[..|trace| - 1]), trace[|trace| - 1])
  }

  /** The lease has not been held longer than it lasts, but for the slack. */
  predicate OnTime(b: Option<Binding>, now: nat) {
    b.Some? ==> b.value.at <= now <= b.value.at + 1000 * b.value.lease + b.value.slack && b.value.slack < 1000
  }

  /** Every message finds the applied lease on time, and discovery starts without one. */
  ghost predicate Good(trace: seq<Sent>) {
    forall k | 0 <= k < |trace| ::
      && OnTime(Applied(trace[..k]), trace[k].at)
      && (trace[k].msg == SendDiscover ==> Applied(trace[..k]).None?)
  }

  /** A whole number of seconds, in milliseconds. */
  predicate Whole(t: int) {
    t % 1000 == 0
  }

  predicate WholeSeconds(env: seq<Wait>) {
    forall i | 0 <= i < |env| :: Whole(env[i].after) && Whole(env[i].jitter)
  }

  predicate Aligned(trace: seq<Sent>) {
    forall k | 0 <= k < |trace| :: Whole(trace[k].at)
  }

  /** How far off the whole second since message `i` the last extension before message `k` was. */
  ghost function SlackBetween(trace: seq<Sent>, i: nat, k: nat): nat
    requires i < k <= |trace|
  {
    if k == i + 1 then 0
    else if IsExtension(trace[k - 1].msg) then (trace[k - 1].at - trace[i].at) % 1000
    else SlackBetween(trace, i, k - 1)
  }

  lemma {:induction false} AppliedSince(trace: seq<Sent>, i: nat, k: nat)
    requires i < k <= |trace| && trace[i].msg.Apply?
    requires forall j | i < j < k :: !ChangesLease(trace[j].msg)
    ensures Applied(trace[..k]) == Some(Binding(trace[i].at, trace[i].msg.lease, SlackBetween(trace, i, k)))
    decreases k
  {
    assert trace[..k][..k - 1] == trace[..k - 1];
    if i < k - 1 {
      AppliedSince(trace, i, k - 1);
    }
  }

  lemma {:induction false} SlackIsZero(trace: seq<Sent>, i: nat, k: nat)
    requires i < k <= |trace|
    ensures (forall j | i < j < k :: !IsExtension(trace[j].msg)) ==> SlackBetween(trace, i, k) == 0
    ensures Aligned(trace) ==> SlackBetween(trace, i, k) == 0
    decreases k
  {
    if i + 1 < k {
      SlackIsZero(trace, i, k - 1);
    }
  }

  /**
   Read off a trace: after a lease is applied, the next message that applies or
   clears one comes before another discover, and every message up to and
   including it comes by the time the lease is over, but for what the last
   request to extend it was off the whole second since the lease was applied.
   */
  lemma {:induction false} GoodTraceMeans(trace: seq<Sent>, i: nat, k: nat)
    requires Good(trace) && i < k < |trace| && trace[i].msg.Apply?
    requires forall j | i < j < k :: !ChangesLease(trace[j].msg)
    ensures trace[k].msg != SendDiscover
    ensures trace[k].at <= trace[i].at + 1000 * trace[i].msg.lease + SlackBetween(trace, i, k)
    ensures trace[k].at < trace[i].at + 1000 * trace[i].msg.lease + 1000
    ensures (forall j | i < j < k && IsExtension(trace[j].msg) :: Whole(trace[j].at - trace[i].at))
            ==> trace[k].at <= trace[i].at + 1000 * trace[i].msg.lease
    ensures Aligned(trace) ==> trace[k].at <= trace[i].at + 1000 * trace[i].msg.lease
  {
    AppliedSince(trace, i, k);
    SlackIsZero(trace, i, k);
    WholeSlack(trace, i, k);
  }

  lemma {:induction false} WholeSlack(trace: seq<Sent>, i: nat, k: nat)
    requires i < k <= |trace|
    ensures (forall j | i < j < k && IsExtension(trace[j].msg) :: Whole(trace[j].at - trace[i].at)) ==> SlackBetween(trace, i, k) == 0
    decreases k
  {
    if i + 1 < k {
      WholeSlack(trace, i, k - 1);
    }
  }

  // ---- every run is good ----

  ghost predicate Fine(env: seq<Wait>, s: State) {
    && Good(s.trace) && OnTime(Applied(s.trace), s.now)
    && (WholeSeconds(env) ==> Whole(s.now) && Aligned(s.trace))
  }

  lemma {:induction false} AppliedThen(trace: seq<Sent>, s: Sent)
    ensures Applied(trace + [s]) == After(Applied(trace), s)
  {
    assert (trace + [s])[..|trace|] == trace;
  }

  lemma {:induction false} AppendGood(trace: seq<Sent>, s: Sent)
    requires Good(trace) && OnTime(Applied(trace), s.at)
    requires s.msg == SendDiscover ==> Applied(trace).None?
    ensures Good(trace + [s])
  {
    hide Applied, OnTime;
    var longer := trace + [s];
    forall k | 0 <= k < |longer|
      ensures OnTime(Applied(longer[..k]), longer[k].at) && (longer[k].msg == SendDiscover ==> Applied(longer[..k]).None?)
    {
      assert longer[..k] == trace[..k];
      assert trace[..|trace|] == trace;
    }
  }

  lemma {:induction false} SayFine(env: seq<Wait>, s: State, msg: Msg)
    requires Fine(env, s) && (msg == SendDiscover ==> Applied(s.trace).None?)
    requires IsExtension(msg) && Applied(s.trace).Some? ==> s.now <= Applied(s.trace).value.at + 1000 * Applied(s.trace).value.lease
                                                                    + (s.now - Applied(s.trace).value.at) % 1000
    ensures Fine(env, Say(s, msg)) && Applied(Say(s, msg).trace) == After(Applied(s.trace), Sent(msg, s.now))
  {
    hide Good, Applied, WholeSeconds;
    AppliedThen(s.trace, Sent(msg, s.now));
    AppendGood(s.trace, Sent(msg, s.now));
  }

  lemma WholeSum(x: int, y: int)
    requires Whole(x) && Whole(y)
    ensures Whole(x + y)
  {
  }

  lemma {:induction false} WaitedFine(env: seq<Wait>, s: State, ms: nat, ends: Interruption -> bool)
    requires Fine(env, s) && s.pos < |env| && OnTime(Applied(s.trace), s.now + ms) && (WholeSeconds(env) ==> Whole(ms))
    ensures Fine(env, Waited(env, s, ms, ends).0)
  {
    hide Good, Applied, Aligned, Whole;
    if WholeSeconds(env) {
      WholeSum(s.now, ms);
      WholeSum(s.now, env[s.pos].after);
    }
  }

  lemma {:induction false} RetryFine(env: seq<Wait>, s: State, delay: nat, msg: Msg, ends: Interruption -> bool)
    requires Fine(env, s) && Applied(s.trace).None? && !IsExtension(msg) && !ChangesLease(msg)
    ensures var s' := Retry(env, s, delay, msg, ends).0;
            Fine(env, s') && Applied(s'.trace).None?
    decreases |env| - s.pos
  {
    hide Fine, Applied, NextDelay;
    if s.pos < |env| {
      RetryRoundFine(env, s, delay, msg, ends);
      var (s', what) := Waited(env, Say(s, msg), Jittered(delay, env[s.pos].jitter), ends);
      if what == Quiet {
        RetryFine(env, s', NextDelay(delay), msg, ends);
      }
    }
  }

  lemma {:induction false} RetryRoundFine(env: seq<Wait>, s: State, delay: nat, msg: Msg, ends: Interruption -> bool)
    requires Fine(env, s) && s.pos < |env| && Applied(s.trace).None? && !IsExtension(msg) && !ChangesLease(msg)
    ensures var s' := Waited(env, Say(s, msg), Jittered(delay, env[s.pos].jitter), ends).0;
            Fine(env, s') && Applied(s'.trace).None?
  {
    hide Good, Applied;
    SayFine(env, s, msg);
    WaitedFine(env, Say(s, msg), Jittered(delay, env[s.pos].jitter), ends);
  }

  /** Bound at `boundAt`, `secs` whole seconds and `off` milliseconds ago. */
  ghost predicate Since(s: State, boundAt: nat, secs: nat, off: nat) {
    s.now == boundAt + 1000 * secs + off && off < 1000
  }

  lemma SinceBound(s: State, boundAt: nat) returns (secs: nat, off: nat)
    requires boundAt <= s.now
    ensures Since(s, boundAt, secs, off) && secs == Elapsed(s, boundAt) && off == (s.now - boundAt) % 1000
  {
    secs, off := (s.now - boundAt) / 1000, (s.now - boundAt) % 1000;
  }

  lemma SinceGives(s: State, boundAt: nat, secs: nat, off: nat)
    requires Since(s, boundAt, secs, off)
    ensures Elapsed(s, boundAt) == secs && (s.now - boundAt) % 1000 == off
  {
  }

  /** In force, with a slack that is the offset of the requests so far, if there are any. */
  ghost predicate Extending(s: State, lastSent: Option<nat>, lease: nat, boundAt: nat, off: nat) {
    Applied(s.trace) == Some(Binding(boundAt, lease, if lastSent.None? then 0 else off))
  }

  lemma {:induction false} RenewalFine(env: seq<Wait>, s: State, lastSent: Option<nat>, lease: nat, boundAt: nat, secs: nat, off: nat)
    requires Fine(env, s) && Since(s, boundAt, secs, off) && Extending(s, lastSent, lease, boundAt, off)
    requires lastSent.Some? ==> lastSent.value <= s.now
    requires lastSent.None? ==> secs < lease
    ensures Fine(env, Renewal(env, s, lastSent, lease, boundAt).state)
    ensures var b := Applied(Renewal(env, s, lastSent, lease, boundAt).state.trace);
            b.Some? && b.value.at == boundAt && b.value.lease == lease
    decreases |env| - s.pos
  {
    hide Fine, Extending, Interval, InRebinding, Waited;
    SinceGives(s, boundAt, secs, off);
    if secs >= lease || s.pos >= |env| {
      ExtendingMeans(s, lastSent, lease, boundAt, off);
    } else {
      var interval := Interval(secs, lease);
      var asked, lastSent' := Asked(s, lastSent, lease, boundAt), AskedAt(s, lastSent, lease, boundAt);
      AskedFine(env, s, lastSent, lease, boundAt, secs, off, if InRebinding(secs, lease) then Rebinding else Renewing);
      RenewalWaitFine(env, asked, lastSent', lease, boundAt, secs, off);
      var (s', what) := Waited(env, asked, 1000 * interval, EndsAckWait);
      if what == Quiet {
        WaitsInBounds(secs, lease);
        RenewalFine(env, s', lastSent', lease, boundAt, secs + interval, off);
      } else {
        ExtendingMeans(s', lastSent', lease, boundAt, off);
      }
    }
  }

  lemma ExtendingMeans(s: State, lastSent: Option<nat>, lease: nat, boundAt: nat, off: nat)
    requires Extending(s, lastSent, lease, boundAt, off)
    ensures var b := Applied(s.trace);
            b.Some? && b.value.at == boundAt && b.value.lease == lease
  {
  }

  lemma {:induction false} AskedFine(env: seq<Wait>, s: State, lastSent: Option<nat>, lease: nat, boundAt: nat, secs: nat, off: nat,
                                     kind: RequestKind)
    requires Fine(env, s) && Since(s, boundAt, secs, off) && Extending(s, lastSent, lease, boundAt, off) && secs < lease
    requires kind != Selecting
    ensures var asked := Say(s, SendRequest(kind));
            Fine(env, asked) && Since(asked, boundAt, secs, off) && Extending(asked, Some(s.now), lease, boundAt, off)
  {
    hide Fine, Applied;
    SinceGives(s, boundAt, secs, off);
    SayFine(env, s, SendRequest(kind));
  }

  lemma {:induction false} RenewalWaitFine(env: seq<Wait>, s: State, lastSent: Option<nat>, lease: nat, boundAt: nat, secs: nat, off: nat)
    requires Fine(env, s) && Since(s, boundAt, secs, off) && Extending(s, lastSent, lease, boundAt, off)
    requires secs < lease && lastSent.Some? && s.pos < |env|
    ensures var interval := Interval(secs, lease);
            var (s', what) := Waited(env, s, 1000 * interval, EndsAckWait);
            && Fine(env, s') && Extending(s', lastSent, lease, boundAt, off) && s.now <= s'.now && s'.pos == s.pos + 1
            && (what == Quiet ==> Since(s', boundAt, secs + interval, off))
  {
    hide Good, Applied, Aligned, WholeSeconds, Interval;
    WaitsInBounds(secs, lease);
    WaitedFine(env, s, 1000 * Interval(secs, lease), EndsAckWait);
  }

  lemma {:induction false} PeriodFine(env: seq<Wait>, s: State, lease: nat, boundAt: nat)
    requires Fine(env, s) && boundAt <= s.now && Applied(s.trace) == Some(Binding(boundAt, lease, 0))
    ensures Fine(env, Period(env, s, lease, boundAt).state)
    ensures var b := Applied(Period(env, s, lease, boundAt).state.trace);
            b.Some? && b.value.at == boundAt && b.value.lease == lease
    decreases |env| - s.pos
  {
    hide Fine, Applied, Renewal, Waited;
    var secs, off := SinceBound(s, boundAt);
    if secs < lease && s.pos < |env| {
      if secs < T1(lease) {
        SleepFine(env, s, lease, boundAt, secs, off);
        var (s', what) := Waited(env, s, 1000 * Min(BOUND_HEARTBEAT_INTERVAL_SECS, T1(lease) - secs), EndsSleep);
        if !(what.Closed? || what.IpcError?) {
          PeriodFine(env, s', lease, boundAt);
        }
      } else {
        RenewalFine(env, s, None, lease, boundAt, secs, off);
      }
    }
  }

  lemma {:induction false} SleepFine(env: seq<Wait>, s: State, lease: nat, boundAt: nat, secs: nat, off: nat)
    requires Fine(env, s) && Since(s, boundAt, secs, off) && Applied(s.trace) == Some(Binding(boundAt, lease, 0))
    requires secs < T1(lease) && s.pos < |env|
    ensures var s' := Waited(env, s, 1000 * Min(BOUND_HEARTBEAT_INTERVAL_SECS, T1(lease) - secs), EndsSleep).0;
            Fine(env, s') && s.now <= s'.now && s'.pos == s.pos + 1 && s'.trace == s.trace
  {
    hide Good, Applied, Aligned, WholeSeconds;
    WaitedFine(env, s, 1000 * Min(BOUND_HEARTBEAT_INTERVAL_SECS, T1(lease) - secs), EndsSleep);
  }

  lemma {:induction false} BoundFine(env: seq<Wait>, s: State, lease: nat)
    requires Fine(env, s) && 0 < s.pos <= |env|
    ensures Fine(env, Bound(env, s, lease).state)
    ensures Bound(env, s, lease).outcome.Failed? ==>
              Bound(env, s, lease).outcome.why == Ipc || Applied(Bound(env, s, lease).state.trace).None?
    decreases |env| - s.pos
  {
    hide Fine, Applied, Period;
    SayFine(env, s, Apply(lease));
    if env[s.pos - 1].applyOk {
      var applied := Say(s, Apply(lease));
      PeriodFine(env, applied, lease, s.now);
      var period := Period(env, applied, lease, s.now);
      match period.outcome {
        case Acked(newLease) => BoundFine(env, period.state, newLease);
        case Failed(why) => SayFine(env, period.state, Clear);
        case _ =>
      }
    }
  }

  lemma {:induction false} PhasesFine(env: seq<Wait>, s: State)
    requires Fine(env, s) && Applied(s.trace).None?
    ensures Fine(env, Phases(env, s).state)
  {
    hide Fine, Applied, Retry, Bound;
    RetryFine(env, s, INITIAL_RETRY_DELAY_SECS, SendDiscover, EndsOfferWait);
    var offer := Discover(env, s);
    if offer.outcome.Offered? {
      RetryFine(env, offer.state, INITIAL_RETRY_DELAY_SECS, SendRequest(Selecting), EndsAckWait);
      var ack := Selected(env, offer.state);
      if ack.outcome.Acked? {
        BoundFine(env, ack.state, ack.outcome.lease);
      }
    }
  }

  lemma {:induction false} FailureFine(env: seq<Wait>, s: State)
    requires Fine(env, s)
    ensures Fine(env, AfterFailure(env, s).0) && Applied(AfterFailure(env, s).0.trace).None?
  {
    hide Good, Applied;
    SayFine(env, s, Clear);
    if s.pos < |env| {
      WaitedFine(env, Say(s, Clear), 1000 * SOCKET_RESTART_DELAY_SECS, EndsSleep);
    }
  }

  /** Whatever the environment does and whenever it ends, the messages sent form a good trace. */
  lemma {:induction false} RunFine(env: seq<Wait>, s: State)
    requires Fine(env, s) && Applied(s.trace).None?
    ensures Fine(env, RunFrom(env, s))
    decreases |env| - s.pos
  {
    hide Fine, Applied, Phases, AfterFailure;
    PhasesFine(env, s);
    var turn := Phases(env, s);
    if !(turn.outcome.EndOfEnv? || turn.outcome == Failed(ParentClosed)) {
      FailureFine(env, turn.state);
      var (s', goOn) := AfterFailure(env, turn.state);
      if goOn {
        RunFine(env, s');
      }
    }
  }

  lemma StartsFine(env: seq<Wait>)
    ensures Fine(env, START) && Applied(START.trace).None?
  {
  }
}
