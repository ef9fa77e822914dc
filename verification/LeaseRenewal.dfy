/**
 When the DHCP client renews (src/services/dhcp_client/worker.rs), in the terms
 of section 4.4.5 of RFC 2131: T1 at half the lease, T2 at seven eighths of it,
 and retries after half of what is left.  Times here are whole seconds since
 the lease was bound.
 */
module LeaseRenewal {
  import opened Options
  import opened Naturals

  const MAX_LEASE: nat := 0xFFFF_FFFF

  function T1(lease: nat): nat {
    lease / 2
  }

  /** The product with 0.875 is exact for 32-bit leases, so truncation is the floor of seven eighths. */
  function T2(lease: nat): nat {
    7 * lease / 8
  }

  /** How long to wait for an answer with `remaining` seconds to go. */
  function RetryInterval(remaining: nat): nat {
    if remaining > 60 then Max(remaining / 2, 60) else Max(remaining / 2, 1)
  }

  predicate InRebinding(elapsed: nat, lease: nat) {
    elapsed >= T2(lease)
  }

  /** What is left until the end of the current state: T2 while renewing, expiry while rebinding. */
  function Remaining(elapsed: nat, lease: nat): nat {
    if InRebinding(elapsed, lease) then (if elapsed <= lease then lease - elapsed else 0)
    else T2(lease) - elapsed
  }

  function Interval(elapsed: nat, lease: nat): nat {
    RetryInterval(Remaining(elapsed, lease))
  }

  /** A wait is at least a second and never passes the end of the state it is made in. */
  lemma WaitsInBounds(elapsed: nat, lease: nat)
    requires elapsed < lease
    ensures Interval(elapsed, lease) >= 1
    ensures !InRebinding(elapsed, lease) ==> elapsed + Interval(elapsed, lease) <= T2(lease)
    ensures InRebinding(elapsed, lease) ==> elapsed + Interval(elapsed, lease) <= lease
  {
  }

  /** T1 is half the lease and T2 seven eighths of it, in whole seconds. */
  lemma TimersAre(lease: nat)
    ensures 2 * T1(lease) <= lease < 2 * T1(lease) + 2
    ensures 8 * T2(lease) <= 7 * lease < 8 * T2(lease) + 8
  {
  }

  /** The wait is half of what is left to T2, and then to the end, but a minute at least until the last minute. */
  lemma IntervalIs(elapsed: nat, lease: nat)
    requires elapsed < lease
    ensures var left := if elapsed < T2(lease) then T2(lease) - elapsed else lease - elapsed;
            var wait := Interval(elapsed, lease);
            && (left >= 120 ==> 2 * wait <= left < 2 * wait + 2)
            && (60 < left < 120 ==> wait == 60)
            && (2 <= left <= 60 ==> 2 * wait <= left < 2 * wait + 2)
            && (left == 1 ==> wait == 1)
  {
  }

  /** A request to extend the lease: to the server while renewing, to everybody while rebinding. */
  datatype Request = Request(at: nat, broadcast: bool)

  /** Whether a round sends: the first one does, later ones if the interval has passed since the last request. */
  predicate Sends(elapsed: nat, lastSent: Option<nat>, lease: nat) {
    match lastSent
    case None => true
    case Some(t) => elapsed >= t && elapsed - t >= Interval(elapsed, lease)
  }

  /** The requests of a renewal that nobody answers, from `elapsed` on. */
  function Unanswered(elapsed: nat, lastSent: Option<nat>, lease: nat): seq<Request>
    decreases lease - elapsed
  {
    if elapsed >= lease then []
    else
      WaitsInBounds(elapsed, lease);
      var next := elapsed + Interval(elapsed, lease);
      if Sends(elapsed, lastSent, lease) then
        [Request(elapsed, InRebinding(elapsed, lease))] + Unanswered(next, Some(elapsed), lease)
      else
        Unanswered(next, lastSent, lease)
  }

  /** When the rounds of that renewal end. */
  function EndOfUnanswered(elapsed: nat, lease: nat): nat
    decreases lease - elapsed
  {
    if elapsed >= lease then elapsed
    else
      WaitsInBounds(elapsed, lease);
      EndOfUnanswered(elapsed + Interval(elapsed, lease), lease)
  }

  /** Requests are broadcast from T2 on and only then, and each follows the one before it by its own interval at least. */
  lemma {:induction false} UnansweredRequests(elapsed: nat, lastSent: Option<nat>, lease: nat, k: nat)
    requires k < |Unanswered(elapsed, lastSent, lease)|
    ensures var rs := Unanswered(elapsed, lastSent, lease);
            && elapsed <= rs[k].at < lease && (rs[k].broadcast <==> rs[k].at >= T2(lease))
            && (lastSent.None? ==> rs[0].at == elapsed)
            && (lastSent.Some? ==> rs[0].at - lastSent.value >= Interval(rs[0].at, lease))
            && (k + 1 < |rs| ==> rs[k + 1].at - rs[k].at >= Interval(rs[k + 1].at, lease))
    decreases lease - elapsed
  {
    hide Interval, T2;
    WaitsInBounds(elapsed, lease);
    var next := elapsed + Interval(elapsed, lease);
    if Sends(elapsed, lastSent, lease) {
      var rest := Unanswered(next, Some(elapsed), lease);
      if k > 0 {
        UnansweredRequests(next, Some(elapsed), lease, k - 1);
      } else if |rest| > 0 {
        UnansweredRequests(next, Some(elapsed), lease, 0);
      }
    } else {
      UnansweredRequests(next, lastSent, lease, k);
    }
  }

  // ---- it ends at expiry ----

  lemma {:induction false} EndsAtExpiry(elapsed: nat, lease: nat)
    requires elapsed <= lease
    ensures EndOfUnanswered(elapsed, lease) == lease
    decreases lease - elapsed
  {
    if elapsed < lease {
      WaitsInBounds(elapsed, lease);
      EndsAtExpiry(elapsed + Interval(elapsed, lease), lease);
    }
  }

  // ---- it rebinds before expiry ----

  // Waiting the interval shortens the next one or keeps it.
  lemma IntervalShrinks(remaining: nat)
    requires remaining > 0
    ensures RetryInterval(remaining) <= remaining
    ensures RetryInterval(remaining - RetryInterval(remaining)) <= RetryInterval(remaining)
  {
  }

  ghost predicate Rebinds(rs: seq<Request>, lease: nat) {
    exists i | 0 <= i < |rs| :: rs[i].broadcast && T2(lease) <= rs[i].at < lease
  }

  lemma RebindsLater(r: Request, rs: seq<Request>, lease: nat)
    requires Rebinds(rs, lease)
    ensures Rebinds([r] + rs, lease)
  {
    var i :| 0 <= i < |rs| && rs[i].broadcast && T2(lease) <= rs[i].at < lease;
    assert ([r] + rs)[i + 1] == rs[i];
  }

  // A round of rebinding sends, unless it follows the last renewing request too closely; then the next one does.
  lemma RebindingSends(elapsed: nat, lastSent: Option<nat>, lease: nat)
    requires T2(lease) <= elapsed < lease && (lastSent.Some? ==> lastSent.value < elapsed)
    ensures Rebinds(Unanswered(elapsed, lastSent, lease), lease)
  {
    WaitsInBounds(elapsed, lease);
    var next := elapsed + Interval(elapsed, lease);
    if Sends(elapsed, lastSent, lease) {
      assert Unanswered(elapsed, lastSent, lease)[0] == Request(elapsed, true);
    } else {
      IntervalShrinks(lease - elapsed);
      assert next < lease && Sends(next, lastSent, lease);
      assert Unanswered(next, lastSent, lease)[0] == Request(next, true);
    }
  }

  lemma {:induction false} AlwaysRebinds(elapsed: nat, lastSent: Option<nat>, lease: nat)
    requires elapsed < lease && T2(lease) < lease && (lastSent.Some? ==> lastSent.value < elapsed)
    ensures Rebinds(Unanswered(elapsed, lastSent, lease), lease)
    decreases lease - elapsed
  {
    hide Rebinds;
    if InRebinding(elapsed, lease) {
      RebindingSends(elapsed, lastSent, lease);
    } else {
      WaitsInBounds(elapsed, lease);
      var next := elapsed + Interval(elapsed, lease);
      if Sends(elapsed, lastSent, lease) {
        AlwaysRebinds(next, Some(elapsed), lease);
        RebindsLater(Request(elapsed, false), Unanswered(next, Some(elapsed), lease), lease);
      } else {
        AlwaysRebinds(next, lastSent, lease);
      }
    }
  }

  // ---- how many requests it sends ----

  // Every wait takes at least half of what remains, so `k` rounds see through `2^(k-1)` seconds.
  lemma {:induction false} RebindingCount(elapsed: nat, lastSent: Option<nat>, lease: nat, k: nat)
    requires T2(lease) <= elapsed <= lease
    requires lease - elapsed <= (if k == 0 then 0 else Pow2(k - 1))
    ensures |Unanswered(elapsed, lastSent, lease)| <= k
    decreases k
  {
    if elapsed < lease {
      WaitsInBounds(elapsed, lease);
      var next := elapsed + Interval(elapsed, lease);
      RebindingCount(next, lastSent, lease, k - 1);
      RebindingCount(next, Some(elapsed), lease, k - 1);
    }
  }

  lemma {:induction false} RenewingCount(elapsed: nat, lastSent: Option<nat>, lease: nat, k: nat, m: nat)
    requires elapsed <= T2(lease) <= lease
    requires T2(lease) - elapsed <= (if k == 0 then 0 else Pow2(k - 1))
    requires m > 0 && lease - T2(lease) <= Pow2(m - 1)
    ensures |Unanswered(elapsed, lastSent, lease)| <= k + m
    decreases k
  {
    if elapsed == T2(lease) {
      RebindingCount(elapsed, lastSent, lease, m);
    } else {
      WaitsInBounds(elapsed, lease);
      var next := elapsed + Interval(elapsed, lease);
      RenewingCount(next, lastSent, lease, k - 1, m);
      RenewingCount(next, Some(elapsed), lease, k - 1, m);
    }
  }

  lemma PowersOfTwo()
    ensures Pow2(31) == 0x8000_0000 && Pow2(29) == 0x2000_0000
  {
    assert Pow2(10) == 0x400;
    assert Pow2(20) == 0x10_0000;
    assert Pow2(29) == 0x2000_0000;
  }

  /**
   For every lease of at least one second that fits 32 bits, a renewal that
   starts at T1 and is never answered rebinds before the lease expires, ends
   when it expires and sends at most 62 requests.
   */
  lemma UnansweredRenewal(lease: nat)
    requires 1 <= lease <= MAX_LEASE
    ensures Rebinds(Unanswered(T1(lease), None, lease), lease)
    ensures EndOfUnanswered(T1(lease), lease) == lease
    ensures |Unanswered(T1(lease), None, lease)| <= 62
  {
    EndsAtExpiry(T1(lease), lease);
    AlwaysRebinds(T1(lease), None, lease);
    PowersOfTwo();
    RenewingCount(T1(lease), None, lease, 32, 30);
  }
}
