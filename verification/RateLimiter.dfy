/**
 The per-client token bucket of the DNS forwarder
 (src/services/dns_forwarder/rate_limiter.rs), with tokens and time as reals.

 The limiter keeps time in seconds.  What it decides is specified on the token
 clock, which advances by `rate` every second: there a bucket gains one token
 per unit of time, and all that is left of the parameters is the burst and the
 idle timeout.  `InTokens` translates a run from seconds.
 */
module RateLimiter {
  import opened Options

  type Ip = nat

  const IDLE_CLIENT_TIMEOUT: real := 10.0
  const DEFAULT_DNS_RATE_LIMIT_PER_SEC: real := 100.0
  const DEFAULT_DNS_BURST_QUOTA: real := 150.0

  /** The burst and the idle timeout, both in tokens. */
  datatype Params = Params(burst: real, idle: real) {
    predicate Valid() {
      burst >= 1.0 && idle >= 0.0
    }

    /** A drained bucket is full again by the time it counts as idle. */
    predicate RefillsWhileIdle() {
      burst <= idle
    }
  }

  datatype Bucket = Bucket(tokens: real, last: real)

  datatype Call = Check(ip: Ip) | Retain

  /** A call of the limiter and the time of that call. */
  datatype Op = Op(call: Call, at: real)

  type Clients = map<Ip, Bucket>

  function Max(x: real, y: real): real {
    if x >= y then x else y
  }

  function Min(x: real, y: real): real {
    if x <= y then x else y
  }

  /** The tokens a client has at `now`: a client without a bucket has a full one. */
  function Available(p: Params, b: Option<Bucket>, now: real): real {
    match b
    case None => p.burst
    case Some(b) => Min(b.tokens + Max(now - b.last, 0.0), p.burst)
  }

  predicate Grants(p: Params, b: Option<Bucket>, now: real) {
    Available(p, b, now) >= 1.0
  }

  function AfterCheck(p: Params, b: Option<Bucket>, now: real): Bucket {
    Bucket(Available(p, b, now) - (if Grants(p, b, now) then 1.0 else 0.0), now)
  }

  function Lookup(m: Clients, ip: Ip): Option<Bucket> {
    if ip in m then Some(m[ip]) else None
  }

  function Apply(p: Params, m: Clients, op: Op): Clients {
    match op.call
    case Check(ip) => m[ip := AfterCheck(p, Lookup(m, ip), op.at)]
    case Retain => map ip | ip in m && Max(op.at - m[ip].last, 0.0) <= p.idle :: m[ip]
  }

  /** The table after the first `n` operations of a run that starts empty. */
  ghost function StateAt(p: Params, ops: seq<Op>, n: nat): Clients
    requires n <= |ops|
  {
    if n == 0 then map[] else Apply(p, StateAt(p, ops, n - 1), ops[n - 1])
  }

  /** The `i`-th operation is a check and is granted. */
  ghost predicate Granted(p: Params, ops: seq<Op>, i: nat)
    requires i < |ops|
  {
    ops[i].call.Check? && Grants(p, Lookup(StateAt(p, ops, i), ops[i].call.ip), ops[i].at)
  }

  /** The reference: one bucket for `ip` alone, driven by its own checks only and never dropped. */
  ghost function IdealAt(p: Params, ip: Ip, ops: seq<Op>, n: nat): Option<Bucket>
    requires n <= |ops|
  {
    if n == 0 then None
    else if ops[n - 1].call == Check(ip) then Some(AfterCheck(p, IdealAt(p, ip, ops, n - 1), ops[n - 1].at))
    else IdealAt(p, ip, ops, n - 1)
  }

  ghost predicate IdealGranted(p: Params, ops: seq<Op>, i: nat)
    requires i < |ops|
  {
    ops[i].call.Check? && Grants(p, IdealAt(p, ops[i].call.ip, ops, i), ops[i].at)
  }

  ghost predicate Ordered(ops: seq<Op>) {
    forall i, j | 0 <= i <= j < |ops| :: ops[i].at <= ops[j].at
  }

  /** The answers of the limiter to a run, operation by operation. */
  ghost function Verdicts(p: Params, ops: seq<Op>): (v: seq<bool>) {
    seq(|ops|, i requires 0 <= i < |ops| => Granted(p, ops, i))
  }

  ghost function IdealVerdicts(p: Params, ops: seq<Op>): (v: seq<bool>) {
    seq(|ops|, i requires 0 <= i < |ops| => IdealGranted(p, ops, i))
  }

  /** The number of checks of `ip` among operations `lo` to `hi - 1` that are granted. */
  ghost function Count(ip: Ip, ops: seq<Op>, v: seq<bool>, lo: nat, hi: nat): nat
    requires lo <= hi <= |ops| == |v|
  {
    if lo == hi then 0
    else Count(ip, ops, v, lo, hi - 1) + (if ops[hi - 1].call == Check(ip) && v[hi - 1] then 1 else 0)
  }

  // ---- agreement with the reference ----

  lemma {:induction false} IdealInRange(p: Params, ip: Ip, ops: seq<Op>, n: nat)
    requires p.Valid() && n <= |ops| && Ordered(ops)
    ensures var b := IdealAt(p, ip, ops, n);
            b.Some? ==> 0.0 <= b.value.tokens <= p.burst && n > 0 && b.value.last <= ops[n - 1].at
  {
    if n > 0 {
      IdealInRange(p, ip, ops, n - 1);
    }
  }

  /** The table agrees with the reference, or has dropped a bucket that is full again. */
  ghost predicate Agrees(p: Params, table: Option<Bucket>, ideal: Option<Bucket>, now: real) {
    table == ideal || (table.None? && ideal.Some? && now - ideal.value.last > p.idle)
  }

  lemma {:induction false} TableAgrees(p: Params, ip: Ip, ops: seq<Op>, n: nat)
    requires p.Valid() && p.RefillsWhileIdle() && n <= |ops| && Ordered(ops)
    ensures n > 0 ==> Agrees(p, Lookup(StateAt(p, ops, n), ip), IdealAt(p, ip, ops, n), ops[n - 1].at)
    ensures n == 0 ==> Lookup(StateAt(p, ops, n), ip) == IdealAt(p, ip, ops, n)
  {
    if n > 0 {
      TableAgrees(p, ip, ops, n - 1);
      IdealInRange(p, ip, ops, n - 1);
    }
  }

  /**
   With a burst that refills within the idle timeout, every verdict is that of
   a bucket of the client's own: dropping idle buckets and the calls of other
   clients never show.
   */
  lemma VerdictsAreIdeal(p: Params, ops: seq<Op>)
    requires p.Valid() && p.RefillsWhileIdle() && Ordered(ops)
    ensures Verdicts(p, ops) == IdealVerdicts(p, ops)
  {
    forall i: nat | i < |ops|
      ensures Granted(p, ops, i) <==> IdealGranted(p, ops, i)
    {
      if ops[i].call.Check? {
        TableAgrees(p, ops[i].call.ip, ops, i);
        IdealInRange(p, ops[i].call.ip, ops, i);
      }
    }
  }

  // ---- who is always granted ----

  /** The number of checks of `ip` among operations `lo` to `hi - 1`, granted or not. */
  ghost function Calls(ip: Ip, ops: seq<Op>, lo: nat, hi: nat): nat
    requires lo <= hi <= |ops|
  {
    if lo == hi then 0 else Calls(ip, ops, lo, hi - 1) + (if ops[hi - 1].call == Check(ip) then 1 else 0)
  }

  /** The calls of `ip` keep within burst and rate in every window. */
  ghost predicate Conforms(p: Params, ip: Ip, ops: seq<Op>) {
    forall lo: nat, hi: nat | lo < hi <= |ops| :: Calls(ip, ops, lo, hi) as real <= p.burst + (ops[hi - 1].at - ops[lo].at)
  }

  ghost predicate AllGranted(p: Params, ip: Ip, ops: seq<Op>, n: nat)
    requires n <= |ops|
  {
    forall i: nat | i < n && ops[i].call == Check(ip) :: Granted(p, ops, i)
  }

  // What a client has at `t`, all its calls having been granted: a full bucket, or all but what it took since some call.
  ghost predicate HasLeft(p: Params, ip: Ip, ops: seq<Op>, n: nat, t: real, lo: nat)
    requires n <= |ops|
  {
    var left := Available(p, Lookup(StateAt(p, ops, n), ip), t);
    left >= p.burst || (lo < n && left >= p.burst + (t - ops[lo].at) - Calls(ip, ops, lo, n) as real)
  }

  lemma {:induction false} WhatIsLeft(p: Params, ip: Ip, ops: seq<Op>, n: nat, t: real) returns (lo: nat)
    requires p.Valid() && Ordered(ops) && n <= |ops| && (n > 0 ==> ops[n - 1].at <= t) && AllGranted(p, ip, ops, n)
    ensures HasLeft(p, ip, ops, n, t, lo)
    decreases n
  {
    hide Granted;
    lo := 0;
    if n > 0 {
      var op := ops[n - 1];
      if op.call == Check(ip) {
        var before := WhatIsLeft(p, ip, ops, n - 1, op.at);
        lo := if Available(p, Lookup(StateAt(p, ops, n - 1), ip), op.at) >= p.burst then n - 1 else before;
        LeftAfterGrant(p, ip, ops, n, t, before, lo);
      } else {
        lo := WhatIsLeft(p, ip, ops, n - 1, t);
        LeftAfterOther(p, ip, ops, n, t, lo);
      }
    }
  }

  lemma {:induction false} LeftAfterGrant(p: Params, ip: Ip, ops: seq<Op>, n: nat, t: real, before: nat, lo: nat)
    requires p.Valid() && 0 < n <= |ops| && ops[n - 1].at <= t && ops[n - 1].call == Check(ip) && Granted(p, ops, n - 1)
    requires HasLeft(p, ip, ops, n - 1, ops[n - 1].at, before)
    requires lo == if Available(p, Lookup(StateAt(p, ops, n - 1), ip), ops[n - 1].at) >= p.burst then n - 1 else before
    ensures HasLeft(p, ip, ops, n, t, lo)
  {
    assert Calls(ip, ops, n - 1, n) == 1;
  }

  lemma {:induction false} LeftAfterOther(p: Params, ip: Ip, ops: seq<Op>, n: nat, t: real, lo: nat)
    requires 0 < n <= |ops| && ops[n - 1].call != Check(ip) && HasLeft(p, ip, ops, n - 1, t, lo)
    ensures HasLeft(p, ip, ops, n, t, lo)
  {
    var b, b' := Lookup(StateAt(p, ops, n - 1), ip), Lookup(StateAt(p, ops, n), ip);
    assert b' == b || b'.None?;
  }

  /** A client that keeps within burst and rate is always granted, whatever the idle timeout and whatever others do. */
  lemma {:induction false} ConformingIsGranted(p: Params, ip: Ip, ops: seq<Op>, n: nat)
    requires p.Valid() && Ordered(ops) && n <= |ops| && Conforms(p, ip, ops)
    ensures AllGranted(p, ip, ops, n)
  {
    hide HasLeft, StateAt, Calls;
    if n > 0 {
      ConformingIsGranted(p, ip, ops, n - 1);
      if ops[n - 1].call == Check(ip) {
        var lo := WhatIsLeft(p, ip, ops, n - 1, ops[n - 1].at);
        EnoughIsLeft(p, ip, ops, n, lo);
      }
    }
  }

  lemma {:induction false} EnoughIsLeft(p: Params, ip: Ip, ops: seq<Op>, n: nat, lo: nat)
    requires p.Valid() && 0 < n <= |ops| && ops[n - 1].call == Check(ip) && Conforms(p, ip, ops)
    requires HasLeft(p, ip, ops, n - 1, ops[n - 1].at, lo)
    ensures Granted(p, ops, n - 1)
  {
    hide StateAt;
    if lo < n - 1 {
      assert Calls(ip, ops, lo, n) == Calls(ip, ops, lo, n - 1) + 1;
      assert Calls(ip, ops, lo, n) as real <= p.burst + (ops[n - 1].at - ops[lo].at);
    }
  }

  lemma {:induction false} AllCallsCount(p: Params, ip: Ip, ops: seq<Op>, lo: nat, hi: nat)
    requires lo <= hi <= |ops| && AllGranted(p, ip, ops, |ops|)
    ensures Count(ip, ops, Verdicts(p, ops), lo, hi) == Calls(ip, ops, lo, hi)
  {
    hide Granted;
    if lo < hi {
      AllCallsCount(p, ip, ops, lo, hi - 1);
    }
  }

  /** With a burst that refills within the idle timeout, exactly the clients that keep within burst and rate are always granted. */
  lemma {:induction false} AlwaysGrantedIff(p: Params, ip: Ip, ops: seq<Op>)
    requires p.Valid() && p.RefillsWhileIdle() && Ordered(ops)
    ensures AllGranted(p, ip, ops, |ops|) <==> Conforms(p, ip, ops)
  {
    hide Granted, Calls, Count, Verdicts, IdealVerdicts;
    if Conforms(p, ip, ops) {
      ConformingIsGranted(p, ip, ops, |ops|);
    }
    if AllGranted(p, ip, ops, |ops|) {
      VerdictsAreIdeal(p, ops);
      forall lo: nat, hi: nat | lo < hi <= |ops|
        ensures Calls(ip, ops, lo, hi) as real <= p.burst + (ops[hi - 1].at - ops[lo].at)
      {
        AllCallsCount(p, ip, ops, lo, hi);
        VerdictCounts(p, ops);
        IdealWindowBound(p, ip, ops, lo, hi);
      }
    }
  }

  lemma VerdictCounts(p: Params, ops: seq<Op>)
    ensures |Verdicts(p, ops)| == |IdealVerdicts(p, ops)| == |ops|
  {
  }

  // ---- conservation of tokens ----

  // What was granted since operation `lo` and what is left came from one burst and the refill.
  lemma {:induction false} Conservation(p: Params, ip: Ip, ops: seq<Op>, lo: nat, hi: nat, t: real)
    requires p.Valid() && Ordered(ops) && lo < hi <= |ops| && ops[hi - 1].at <= t
    ensures Count(ip, ops, IdealVerdicts(p, ops), lo, hi) as real + Available(p, IdealAt(p, ip, ops, hi), t)
            <= p.burst + (t - ops[lo].at)
    decreases hi
  {
    if lo + 1 < hi {
      Conservation(p, ip, ops, lo, hi - 1, if ops[hi - 1].call == Check(ip) then ops[hi - 1].at else t);
    }
  }

  // A bucket that is never dropped keeps to the bound, whatever the parameters.
  lemma IdealWindowBound(p: Params, ip: Ip, ops: seq<Op>, lo: nat, hi: nat)
    requires p.Valid() && Ordered(ops) && lo < hi <= |ops|
    ensures InWindowBound(p, ip, ops, IdealVerdicts(p, ops), lo, hi)
  {
    Conservation(p, ip, ops, lo, hi, ops[hi - 1].at);
    IdealInRange(p, ip, ops, hi);
  }

  /** Between two operations a client is granted at most one burst and what refills meanwhile. */
  ghost predicate InWindowBound(p: Params, ip: Ip, ops: seq<Op>, v: seq<bool>, lo: nat, hi: nat)
    requires lo < hi <= |ops| == |v|
  {
    Count(ip, ops, v, lo, hi) as real <= p.burst + (ops[hi - 1].at - ops[lo].at)
  }

  // ---- why the burst must refill within the idle timeout ----

  /** How long a drained full bucket needs to hold a whole token again. */
  ghost function OneMoreToken(p: Params): (w: real)
    ensures 0.0 < w <= 1.0
  {
    p.burst.Floor as real + 1.0 - p.burst
  }

  /**
   A run against a burst that refills too late: drain, wait for one more token,
   let the bucket be dropped once it is idle, and do the same again.
   */
  ghost function DrainTwice(p: Params, ip: Ip): (ops: seq<Op>)
    requires p.Valid()
    ensures |ops| == 2 * p.burst.Floor + 3
  {
    var k := p.burst.Floor;
    var w := OneMoreToken(p);
    var again := w + (p.idle + p.burst) / 2.0;
    seq(k, _ => Op(Check(ip), 0.0)) + [Op(Check(ip), w), Op(Retain, again)]
    + seq(k, _ => Op(Check(ip), again)) + [Op(Check(ip), again + w)]
  }

  // A client without a bucket gets a whole burst at once.
  lemma {:induction false} Drain(p: Params, ip: Ip, ops: seq<Op>, n: nat, k: nat, t: real)
    requires p.Valid() && 1 <= k && k as real <= p.burst && n + k <= |ops|
    requires Lookup(StateAt(p, ops, n), ip) == None
    requires forall i | n <= i < n + k :: ops[i] == Op(Check(ip), t)
    ensures Lookup(StateAt(p, ops, n + k), ip) == Some(Bucket(p.burst - k as real, t))
    ensures forall i | n <= i < n + k :: Granted(p, ops, i)
  {
    if k > 1 {
      Drain(p, ip, ops, n, k - 1, t);
    }
  }

  // Draining, then taking the first token that refills.
  lemma DrainAndOne(p: Params, ip: Ip, ops: seq<Op>, n: nat, t: real)
    requires p.Valid() && n + p.burst.Floor + 1 <= |ops|
    requires Lookup(StateAt(p, ops, n), ip) == None
    requires forall i | n <= i < n + p.burst.Floor :: ops[i] == Op(Check(ip), t)
    requires ops[n + p.burst.Floor] == Op(Check(ip), t + OneMoreToken(p))
    ensures Lookup(StateAt(p, ops, n + p.burst.Floor + 1), ip) == Some(Bucket(0.0, t + OneMoreToken(p)))
    ensures forall i | n <= i <= n + p.burst.Floor :: Granted(p, ops, i)
  {
    Drain(p, ip, ops, n, p.burst.Floor, t);
  }

  // Every check of the double drain is granted.
  lemma DrainTwiceIsGranted(p: Params, ip: Ip)
    requires p.Valid() && !p.RefillsWhileIdle()
    ensures var ops := DrainTwice(p, ip);
            forall i | 0 <= i < |ops| :: ops[i].call.Check? ==> ops[i].call == Check(ip) && Granted(p, ops, i)
  {
    var k, w, ops := p.burst.Floor, OneMoreToken(p), DrainTwice(p, ip);
    var again := w + (p.idle + p.burst) / 2.0;
    assert ops[k] == Op(Check(ip), 0.0 + w) && ops[k + 1] == Op(Retain, again);
    assert ops[k + 2 + k] == Op(Check(ip), again + w);
    DrainAndOne(p, ip, ops, 0, 0.0);
    assert Lookup(StateAt(p, ops, k + 2), ip) == None;
    DrainAndOne(p, ip, ops, k + 2, again);
  }

  // With all checks granted and all of one client, the count is that of the checks.
  lemma {:induction false} CountAll(ip: Ip, ops: seq<Op>, v: seq<bool>, n: nat, gap: nat)
    requires n <= |ops| == |v| && gap < |ops|
    requires forall i | 0 <= i < n :: if i == gap then ops[i].call.Retain? else ops[i].call == Check(ip) && v[i]
    ensures Count(ip, ops, v, 0, n) == if n <= gap then n else n - 1
  {
    if n > 0 {
      CountAll(ip, ops, v, n - 1, gap);
    }
  }

  // The double drain takes less time than the tokens it is granted would need.
  lemma DrainTwiceIsQuick(p: Params, ip: Ip)
    requires p.Valid() && !p.RefillsWhileIdle()
    ensures var ops := DrainTwice(p, ip);
            Ordered(ops) && (2 * p.burst.Floor + 2) as real > p.burst + (ops[|ops| - 1].at - ops[0].at)
  {
    var k, w, ops := p.burst.Floor, OneMoreToken(p), DrainTwice(p, ip);
    var again := w + (p.idle + p.burst) / 2.0;
    assert ops[0].at == 0.0 && ops[|ops| - 1].at == again + w;
    assert forall i | 0 <= i < |ops| ::
        ops[i].at == if i < k then 0.0 else if i == k then w else if i < 2 * k + 2 then again else again + w;
  }

  // A burst that refills too late is granted twice over, which a single bucket never does.
  lemma LateRefillShows(p: Params, ip: Ip) returns (ops: seq<Op>)
    requires p.Valid() && !p.RefillsWhileIdle()
    ensures Ordered(ops) && ops != []
    ensures !InWindowBound(p, ip, ops, Verdicts(p, ops), 0, |ops|)
    ensures Verdicts(p, ops) != IdealVerdicts(p, ops)
  {
    ops := DrainTwice(p, ip);
    DrainTwiceIsQuick(p, ip);
    var granted := Verdicts(p, ops);
    assert Count(ip, ops, granted, 0, |ops|) == 2 * p.burst.Floor + 2 by {
      DrainTwiceIsGranted(p, ip);
      assert ops[p.burst.Floor + 1].call.Retain?;
      CountAll(ip, ops, granted, |ops|, p.burst.Floor + 1);
    }
    IdealWindowBound(p, ip, ops, 0, |ops|);
  }

  ghost predicate DroppingIsInvisible(p: Params) {
    forall ops | Ordered(ops) :: Verdicts(p, ops) == IdealVerdicts(p, ops)
  }

  ghost predicate KeepsToWindowBound(p: Params) {
    forall ip: Ip, ops: seq<Op>, lo: nat, hi: nat | Ordered(ops) && lo < hi <= |ops| ::
      InWindowBound(p, ip, ops, Verdicts(p, ops), lo, hi)
  }

  /** Dropping idle buckets changes no verdict of any run exactly when the burst refills within the timeout. */
  lemma DroppingIsInvisibleIff(p: Params)
    requires p.Valid()
    ensures DroppingIsInvisible(p) <==> p.RefillsWhileIdle()
  {
    if p.RefillsWhileIdle() {
      forall ops | Ordered(ops)
        ensures Verdicts(p, ops) == IdealVerdicts(p, ops)
      {
        VerdictsAreIdeal(p, ops);
      }
    } else {
      var ops := LateRefillShows(p, 0);
    }
  }

  /** Every client keeps to the window bound in every run exactly when the burst refills within the timeout. */
  lemma WindowBoundIff(p: Params)
    requires p.Valid()
    ensures KeepsToWindowBound(p) <==> p.RefillsWhileIdle()
  {
    if p.RefillsWhileIdle() {
      forall ip: Ip, ops: seq<Op>, lo: nat, hi: nat | Ordered(ops) && lo < hi <= |ops|
        ensures InWindowBound(p, ip, ops, Verdicts(p, ops), lo, hi)
      {
        VerdictsAreIdeal(p, ops);
        IdealWindowBound(p, ip, ops, lo, hi);
      }
    } else {
      var ops := LateRefillShows(p, 0);
    }
  }

  // ---- seconds ----

  /** The tokens gained in a number of seconds; the token clock reads the tokens gained since time zero. */
  function Ticks(rate: real, seconds: real): real {
    seconds * rate
  }

  ghost function Scaled(rate: real, op: Op): Op {
    op.(at := Ticks(rate, op.at))
  }

  /** A run with its times read on the token clock. */
  ghost function InTokens(rate: real, ops: seq<Op>): (r: seq<Op>)
    ensures |r| == |ops|
  {
    seq(|ops|, i requires 0 <= i < |ops| => Scaled(rate, ops[i]))
  }

  lemma TicksAreLinear(rate: real, x: real, y: real)
    requires rate > 0.0
    ensures x <= y <==> Ticks(rate, x) <= Ticks(rate, y)
    ensures Ticks(rate, y) - Ticks(rate, x) == Ticks(rate, y - x)
    ensures Ticks(rate, x / rate) == x
  {
  }

  // The two clocks order runs alike, and every run on the token clock is one in seconds.
  lemma OrderedInTokens(rate: real, ops: seq<Op>)
    requires rate > 0.0
    ensures Ordered(InTokens(rate, ops)) <==> Ordered(ops)
  {
    hide Ticks;
    var scaled := InTokens(rate, ops);
    forall i, j | 0 <= i <= j < |ops|
      ensures ops[i].at <= ops[j].at <==> scaled[i].at <= scaled[j].at
    {
      TicksAreLinear(rate, ops[i].at, ops[j].at);
    }
  }

  lemma EveryRunInSeconds(rate: real, ops: seq<Op>) returns (seconds: seq<Op>)
    requires rate > 0.0
    ensures InTokens(rate, seconds) == ops && |seconds| == |ops|
  {
    hide Ticks;
    seconds := seq(|ops|, i requires 0 <= i < |ops| => ops[i].(at := ops[i].at / rate));
    forall i | 0 <= i < |ops|
      ensures InTokens(rate, seconds)[i] == ops[i]
    {
      TicksAreLinear(rate, ops[i].at, ops[i].at);
    }
  }

  lemma {:induction false} CountInTokens(rate: real, ip: Ip, ops: seq<Op>, v: seq<bool>, lo: nat, hi: nat)
    requires lo <= hi <= |ops| == |v|
    ensures Count(ip, InTokens(rate, ops), v, lo, hi) == Count(ip, ops, v, lo, hi)
    decreases hi
  {
    if lo < hi {
      CountInTokens(rate, ip, ops, v, lo, hi - 1);
    }
  }

  /** The parameters of a limiter with this rate and burst, on the token clock. */
  ghost function Spec(rate: real, burst: real): Params {
    Params(burst, Ticks(rate, IDLE_CLIENT_TIMEOUT))
  }

  /** In seconds: over any window a client is granted at most the burst and `rate` per second. */
  lemma WindowBoundInSeconds(rate: real, burst: real, ip: Ip, ops: seq<Op>, lo: nat, hi: nat)
    requires rate >= 1.0 && burst >= 1.0 && burst <= Ticks(rate, IDLE_CLIENT_TIMEOUT)
    requires Ordered(ops) && lo < hi <= |ops|
    ensures Count(ip, ops, Verdicts(Spec(rate, burst), InTokens(rate, ops)), lo, hi) as real
            <= burst + Ticks(rate, ops[hi - 1].at - ops[lo].at)
  {
    hide Ticks;
    var p, tokens := Spec(rate, burst), InTokens(rate, ops);
    OrderedInTokens(rate, ops);
    VerdictsAreIdeal(p, tokens);
    IdealWindowBound(p, ip, tokens, lo, hi);
    CountInTokens(rate, ip, ops, Verdicts(p, tokens), lo, hi);
    TicksAreLinear(rate, ops[lo].at, ops[hi - 1].at);
  }

  /** The rate and burst the forwarder starts with: 100 a second and 150 at once, refilled well within ten seconds. */
  lemma DefaultsRefill()
    ensures DEFAULT_DNS_RATE_LIMIT_PER_SEC == 100.0 && DEFAULT_DNS_BURST_QUOTA == 150.0
    ensures Spec(DEFAULT_DNS_RATE_LIMIT_PER_SEC, DEFAULT_DNS_BURST_QUOTA) == Params(150.0, 1000.0)
    ensures Spec(DEFAULT_DNS_RATE_LIMIT_PER_SEC, DEFAULT_DNS_BURST_QUOTA).RefillsWhileIdle()
  {
  }

  // ---- the limiter itself ----

  // Later operations do not change what happened before.
  lemma {:induction false} CallsInTokens(rate: real, ip: Ip, ops: seq<Op>, lo: nat, hi: nat)
    requires lo <= hi <= |ops|
    ensures Calls(ip, InTokens(rate, ops), lo, hi) == Calls(ip, ops, lo, hi)
  {
    if lo < hi {
      CallsInTokens(rate, ip, ops, lo, hi - 1);
    }
  }

  /** In seconds: a client that never makes more than burst + rate * (t - s) calls between s and t is always granted. */
  lemma {:induction false} ConformingInSeconds(rate: real, burst: real, ip: Ip, ops: seq<Op>, i: nat)
    requires rate >= 1.0 && burst >= 1.0 && Ordered(ops) && i < |ops| && ops[i].call == Check(ip)
    requires forall lo: nat, hi: nat | lo < hi <= |ops| ::
               Calls(ip, ops, lo, hi) as real <= burst + Ticks(rate, ops[hi - 1].at - ops[lo].at)
    ensures Verdicts(Spec(rate, burst), InTokens(rate, ops))[i]
  {
    hide Ticks, Calls, Granted;
    var scaled := InTokens(rate, ops);
    OrderedInTokens(rate, ops);
    TicksAreLinear(rate, 0.0, 10.0);
    forall lo: nat, hi: nat | lo < hi <= |scaled|
      ensures Calls(ip, scaled, lo, hi) as real <= burst + (scaled[hi - 1].at - scaled[lo].at)
    {
      CallsInTokens(rate, ip, ops, lo, hi);
      TicksAreLinear(rate, ops[lo].at, ops[hi - 1].at);
    }
    assert Conforms(Spec(rate, burst), ip, scaled);
    SpecIsValid(rate, burst);
    ConformingIsGranted(Spec(rate, burst), ip, scaled, |scaled|);
  }

  lemma SpecIsValid(rate: real, burst: real)
    requires rate >= 1.0 && burst >= 1.0
    ensures Spec(rate, burst).Valid()
  {
  }

  lemma {:induction false} PastIsFixed(p: Params, ops: seq<Op>, op: Op, n: nat)
    requires n <= |ops|
    ensures StateAt(p, ops + [op], n) == StateAt(p, ops, n)
  {
    if n > 0 {
      PastIsFixed(p, ops, op, n - 1);
    }
  }

  lemma OneMoreInTokens(rate: real, p: Params, ops: seq<Op>, op: Op)
    ensures StateAt(p, InTokens(rate, ops + [op]), |ops| + 1)
            == Apply(p, StateAt(p, InTokens(rate, ops), |ops|), Scaled(rate, op))
    ensures Verdicts(p, InTokens(rate, ops + [op]))[|ops|]
            <==> op.call.Check? && Grants(p, Lookup(StateAt(p, InTokens(rate, ops), |ops|), op.call.ip), Scaled(rate, op).at)
  {
    var before, after := InTokens(rate, ops), InTokens(rate, ops + [op]);
    assert after == before + [Scaled(rate, op)] by {
      forall i | 0 <= i < |ops| ensures after[i] == before[i] {
        assert (ops + [op])[i] == ops[i];
      }
    }
    PastIsFixed(p, before, Scaled(rate, op), |ops|);
  }

  /** The table with its times read on the token clock. */
  ghost function TableInTokens(rate: real, m: Clients): (r: Clients)
    ensures r.Keys == m.Keys
  {
    map ip | ip in m :: BucketInTokens(rate, m[ip])
  }

  ghost function BucketInTokens(rate: real, b: Bucket): Bucket {
    Bucket(b.tokens, Ticks(rate, b.last))
  }

  // Elapsed seconds times the rate is the elapsed time on the token clock.
  lemma ElapsedInTokens(rate: real, now: real, last: real)
    requires rate > 0.0
    ensures Ticks(rate, Max(now - last, 0.0)) == Max(Ticks(rate, now) - Ticks(rate, last), 0.0)
    ensures Max(now - last, 0.0) <= IDLE_CLIENT_TIMEOUT <==>
            Max(Ticks(rate, now) - Ticks(rate, last), 0.0) <= Ticks(rate, IDLE_CLIENT_TIMEOUT)
  {
    TicksAreLinear(rate, last, now);
    TicksAreLinear(rate, Max(now - last, 0.0), IDLE_CLIENT_TIMEOUT);
  }

  // The tokens computed in seconds, from a bucket or a new one, are those of the specification.
  lemma TokensInTokens(rate: real, burst: real, m: Clients, ip: Ip, now: real)
    requires rate > 0.0
    ensures var b := if ip in m then m[ip] else Bucket(burst, now);
            Min(b.tokens + Ticks(rate, Max(now - b.last, 0.0)), burst)
            == Available(Spec(rate, burst), Lookup(TableInTokens(rate, m), ip), Ticks(rate, now))
  {
    hide Ticks;
    var b := if ip in m then m[ip] else Bucket(burst, now);
    ElapsedInTokens(rate, now, b.last);
  }

  lemma UpdateInTokens(rate: real, m: Clients, ip: Ip, b: Bucket)
    ensures TableInTokens(rate, m[ip := b]) == TableInTokens(rate, m)[ip := BucketInTokens(rate, b)]
  {
  }

  function RecentOnly(m: Clients, now: real): Clients {
    map ip | ip in m && Max(now - m[ip].last, 0.0) <= IDLE_CLIENT_TIMEOUT :: m[ip]
  }

  lemma RetainInTokens(rate: real, burst: real, m: Clients, now: real)
    requires rate > 0.0
    ensures TableInTokens(rate, RecentOnly(m, now))
            == Apply(Spec(rate, burst), TableInTokens(rate, m), Scaled(rate, Op(Retain, now)))
  {
    hide Ticks;
    forall ip | ip in m
      ensures Max(now - m[ip].last, 0.0) <= IDLE_CLIENT_TIMEOUT <==>
              Max(Ticks(rate, now) - BucketInTokens(rate, m[ip]).last, 0.0) <= Ticks(rate, IDLE_CLIENT_TIMEOUT)
    {
      ElapsedInTokens(rate, now, m[ip].last);
    }
  }

  /** The limiter; `log` is the run so far, so the results above speak about every sequence of calls. */
  class DnsRateLimiter {
    var clients: Clients
    const ratePerSec: real
    const maxBurst: real
    ghost var log: seq<Op>

    ghost predicate Valid()
      reads this
    {
      && ratePerSec >= 1.0 && maxBurst >= 1.0
      && TableInTokens(ratePerSec, clients) == StateAt(Spec(ratePerSec, maxBurst), InTokens(ratePerSec, log), |log|)
    }

    constructor (ratePerSec: real, maxBurst: real)
      ensures Valid() && log == []
      ensures this.ratePerSec == Max(ratePerSec, 1.0) && this.maxBurst == Max(maxBurst, 1.0)
    {
      clients := map[];
      this.ratePerSec := Max(ratePerSec, 1.0);
      this.maxBurst := Max(maxBurst, 1.0);
      log := [];
    }

    method Check(ip: Ip, now: real) returns (granted: bool)
      requires Valid()
      modifies this
      ensures Valid() && log == old(log) + [Op(Call.Check(ip), now)]
      ensures granted <==> Verdicts(Spec(ratePerSec, maxBurst), InTokens(ratePerSec, log))[|old(log)|]
    {
      hide Ticks;
      var bucket := if ip in clients then clients[ip] else Bucket(maxBurst, now);
      var elapsed := Max(now - bucket.last, 0.0);
      var tokens := Min(bucket.tokens + Ticks(ratePerSec, elapsed), maxBurst);
      TokensInTokens(ratePerSec, maxBurst, clients, ip, now);
      granted := tokens >= 1.0;
      if granted {
        tokens := tokens - 1.0;
      }
      UpdateInTokens(ratePerSec, clients, ip, Bucket(tokens, now));
      OneMoreInTokens(ratePerSec, Spec(ratePerSec, maxBurst), log, Op(Call.Check(ip), now));
      clients := clients[ip := Bucket(tokens, now)];
      log := log + [Op(Call.Check(ip), now)];
    }

    method RetainRecent(now: real)
      requires Valid()
      modifies this
      ensures Valid() && log == old(log) + [Op(Retain, now)]
      ensures forall ip :: ip in clients <==> ip in old(clients) && now - old(clients)[ip].last <= 10.0
      ensures forall ip | ip in clients :: clients[ip] == old(clients)[ip]
      ensures clients == RecentOnly(old(clients), now)
    {
      hide Ticks;
      RetainInTokens(ratePerSec, maxBurst, clients, now);
      OneMoreInTokens(ratePerSec, Spec(ratePerSec, maxBurst), log, Op(Retain, now));
      clients := RecentOnly(clients, now);
      log := log + [Op(Retain, now)];
    }
  }
}
