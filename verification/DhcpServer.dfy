/**
 The server's search for an address to offer (src/services/dhcp_server/worker.rs):
 take a candidate, probe whether it is in use, put a hold on it if so, and try
 again, while other requests go on driving the same lease table.
 */
module DhcpServer {
  import opened Naturals
  import opened Options
  import opened Ipv4
  import opened RouterConfig
  import opened LanFallback
  import opened DhcpLeases

  const CONFLICT_HOLD_DURATION: nat := 300_000

  /**
   One round of the loop as its surroundings see it: when its three commands
   reach the lease table, and which commands of others are handled before each.
   */
  datatype Round = Round(before: seq<Event>, allocateAt: Time, probing: seq<Event>, checkAt: Time,
                         after: seq<Event>, recordAt: Time)

  /** Other commands may be anything, but conflict holds last as the server makes them last. */
  predicate FairEvent(e: Event, mac: Mac, start: Time) {
    && InTime(e.at, start)
    && (e.cmd.RecordConflict? ==> e.cmd.duration >= CONFLICT_HOLD_DURATION)
    && (e.cmd.SetStaticLeases? ==> forall i | 0 <= i < |e.cmd.leases| :: e.cmd.leases[i].mac != mac)
  }

  /** Before the first hold that the loop can have recorded runs out. */
  predicate InTime(at: Time, start: Time) {
    start <= at < start + CONFLICT_HOLD_DURATION
  }

  predicate FairEvents(es: seq<Event>, mac: Mac, start: Time) {
    forall i | 0 <= i < |es| :: FairEvent(es[i], mac, start)
  }

  predicate FairRound(r: Round, mac: Mac, start: Time) {
    && FairEvents(r.before, mac, start) && FairEvents(r.probing, mac, start) && FairEvents(r.after, mac, start)
    && InTime(r.allocateAt, start) && InTime(r.checkAt, start) && InTime(r.recordAt, start)
  }

  /** Conflict holds on all of `ips` that outlast the window, for a client without a reservation. */
  ghost predicate Holding(t: Table, ips: set<Ip>, mac: Mac, start: Time) {
    && mac !in t.statics
    && forall ip | ip in ips :: ip in t.conflicts && t.conflicts[ip] >= start + CONFLICT_HOLD_DURATION
  }

  lemma {:induction false} StaticMapKeys(leases: seq<StaticLease>, n: nat, mac: Mac)
    requires n <= |leases| && forall i | 0 <= i < |leases| :: leases[i].mac != mac
    ensures mac !in StaticMap(leases, n)
  {
    if n > 0 {
      StaticMapKeys(leases, n - 1, mac);
    }
  }

  lemma {:induction false} DropMovedKeepsConflicts(t: Table, leases: seq<StaticLease>, n: nat)
    requires n <= |leases|
    ensures DropMoved(t, leases, n).conflicts == t.conflicts
  {
    if n > 0 {
      DropMovedKeepsConflicts(t, leases, n - 1);
    }
  }

  // No command of others takes away a hold.
  lemma StepKeepsHolding(t: Table, e: Event, ips: set<Ip>, mac: Mac, start: Time)
    requires Holding(t, ips, mac, start) && FairEvent(e, mac, start)
    ensures Holding(Step(t, e.cmd, e.at), ips, mac, start)
  {
    hide DropMoved, StaticMap, ReservedIps, LowestFree, TakenByOther, HostnameTaken;
    if e.cmd.SetStaticLeases? {
      StaticMapKeys(e.cmd.leases, |e.cmd.leases|, mac);
      DropMovedKeepsConflicts(t, e.cmd.leases, |e.cmd.leases|);
    }
  }

  lemma {:induction false} RunKeepsHolding(run: seq<Event>, es: seq<Event>, ips: set<Ip>, mac: Mac, start: Time)
    requires Holding(StateAt(run, |run|), ips, mac, start) && FairEvents(es, mac, start)
    ensures Holding(StateAt(run + es, |run + es|), ips, mac, start)
    decreases |es|
  {
    hide Step, Holding;
    if es == [] {
      assert run + es == run;
    } else {
      var e := es[|es| - 1];
      var es' := es[..|es| - 1];
      RunKeepsHolding(run, es', ips, mac, start);
      assert run + es == (run + es') + [e];
      DhcpLeases.PastIsFixed(run + es', e, |run + es'|);
      StepKeepsHolding(StateAt(run + es', |run + es'|), e, ips, mac, start);
    }
  }

  /** Commands of others, handled in turn. */
  method HandleAll(actor: LeaseActor, es: seq<Event>)
    requires actor.Valid()
    modifies actor, actor.leases
    ensures actor.Valid() && actor.log == old(actor.log) + es
  {
    hide Step;
    for i := 0 to |es|
      invariant actor.Valid() && actor.log == old(actor.log) + es[..i]
    {
      var _ := actor.Handle(es[i].cmd, es[i].at);
    }
    assert es[..|es|] == es;
  }

  /** How many host addresses the network has. */
  function HostCount(net: Cidr): nat {
    if net.prefix < 31 then BlockOfTwo(net); net.Broadcast() - net.Network() - 1 else net.Broadcast() - net.Network() + 1
  }

  ghost predicate AreHosts(ips: set<Ip>, net: Cidr) {
    forall ip | ip in ips :: IsHostOf(net, ip)
  }

  lemma {:induction false} RangeSize(ips: set<Ip>, lo: nat, hi: nat)
    requires lo <= hi && forall ip | ip in ips :: lo <= ip < hi
    ensures |ips| <= hi - lo
    decreases hi - lo
  {
    if lo < hi {
      if hi - 1 in (set ip: nat | ip in ips) {
        RangeSize(ips - {hi - 1}, lo, hi - 1);
      } else {
        RangeSize(ips, lo, hi - 1);
      }
    } else {
      assert ips == {};
    }
  }

  /** The log ends with a round that took `ip` at position `begun`, was interleaved with `probing`, and checked it. */
  ghost predicate EndsWithRound(log: seq<Event>, begun: nat, round: Round, mac: Mac, net: Cidr, server: Ip, ip: Ip) {
    && begun < |log|
    && log == log[..begun] + [Event(AllocateCandidate(mac, net, server), round.allocateAt)] + round.probing
              + [Event(CheckConflict(ip, mac), round.checkAt)]
    && Candidate(StateAt(log, begun), mac, net, server, round.allocateAt) == Some(ip)
  }

  /**
   The loop for a client without a reservation.  `env` says what goes on around
   it.  While the holds it records last, it never takes the same candidate
   twice; so it ends, after at most as many conflicts as there are hosts.  The
   last check of what it yields came out negative, so if another client holds
   the address nevertheless, the client itself holds it too.
   */
  method ProbeAndAllocate(actor: LeaseActor, mac: Mac, net: Cidr, server: Ip, env: nat -> Round, ghost start: Time)
    returns (result: Option<Ip>, refused: set<Ip>, rounds: nat, ghost begun: nat)
    requires actor.Valid() && mac !in actor.leases.statics
    requires forall i: nat | i <= HostCount(net) :: FairRound(env(i), mac, start)
    modifies actor, actor.leases
    ensures actor.Valid()
    ensures rounds == |refused| <= HostCount(net) && AreHosts(refused, net)
    ensures result.Some? ==> IsHostOf(net, result.value) && result.value != server && result.value !in refused
    ensures result.Some? ==> EndsWithRound(actor.log, begun, env(rounds), mac, net, server, result.value)
    ensures result.Some? ==> MayAnswer(actor.leases.State(), result.value, mac, env(rounds).checkAt, false)
    ensures result.Some? && TakenByOther(actor.leases.State(), result.value, mac, env(rounds).checkAt)
            ==> Holds(actor.leases.State(), mac, result.value, env(rounds).checkAt)
    ensures result.None? ==> EndsWith(actor.log, Event(AllocateCandidate(mac, net, server), env(rounds).allocateAt))
                             && NoneLeft(StateAt(actor.log, |actor.log| - 1), net, server, env(rounds).allocateAt)
  {
    hide Step, StateAt, Candidate, IsHostOf, HostCount, Holding, FairEvents, TakenByOther, Confirm, ExistingIp, NoneLeft, Assignable,
         MayAnswer, Holds, EndsWithRound;
    refused, rounds, begun := {}, 0, 0;
    NothingHeld(actor.leases.State(), mac, start);
    while true
      invariant actor.Valid() && Holding(actor.leases.State(), refused, mac, start)
      invariant rounds == |refused| <= HostCount(net) && AreHosts(refused, net)
      decreases HostCount(net) - rounds
    {
      var round := env(rounds);
      RunKeepsHolding(actor.log, round.before, refused, mac, start);
      HandleAll(actor, round.before);
      CandidateIsNew(actor.leases.State(), refused, mac, net, server, round.allocateAt, start);
      StepKeepsHolding(actor.leases.State(), Event(AllocateCandidate(mac, net, server), round.allocateAt), refused, mac, start);
      AllocatesUnlessNoneLeft(actor.log, refused, mac, net, server, round.allocateAt, start);
      ghost var earlier := actor.log;
      var reply := actor.Handle(AllocateCandidate(mac, net, server), round.allocateAt);
      result := reply.ip;
      if result.None? {
        return;
      }
      RunKeepsHolding(actor.log, round.probing, refused, mac, start);
      HandleAll(actor, round.probing);
      StepKeepsHolding(actor.leases.State(), Event(CheckConflict(result.value, mac), round.checkAt), refused, mac, start);
      CheckingChangesNothing(actor.leases.State(), result.value, mac, round.checkAt);
      reply := actor.Handle(CheckConflict(result.value, mac), round.checkAt);
      if !reply.found {
        begun := |earlier|;
        RoundIsLogged(earlier, actor.log, round, mac, net, server, result.value);
        return;
      }
      RunKeepsHolding(actor.log, round.after, refused, mac, start);
      HandleAll(actor, round.after);
      RecordHolds(actor.leases.State(), refused, result.value, mac, start, round.recordAt);
      reply := actor.Handle(RecordConflict(result.value, CONFLICT_HOLD_DURATION), round.recordAt);
      refused := refused + {result.value};
      HostsAreFew(refused, net);
      rounds := rounds + 1;
    }
  }

  lemma {:induction false} PrefixIsFixed(run: seq<Event>, es: seq<Event>, n: nat)
    requires n <= |run|
    ensures StateAt(run + es, n) == StateAt(run, n)
  {
    hide Step;
    if n > 0 {
      PrefixIsFixed(run, es, n - 1);
    }
  }

  lemma {:induction false} RoundIsLogged(earlier: seq<Event>, log: seq<Event>, round: Round, mac: Mac, net: Cidr, server: Ip, ip: Ip)
    requires Candidate(StateAt(earlier, |earlier|), mac, net, server, round.allocateAt) == Some(ip)
    requires log == earlier + [Event(AllocateCandidate(mac, net, server), round.allocateAt)] + round.probing
                    + [Event(CheckConflict(ip, mac), round.checkAt)]
    ensures EndsWithRound(log, |earlier|, round, mac, net, server, ip)
  {
    hide Candidate, StateAt;
    assert log[..|earlier|] == earlier;
    PrefixIsFixed(earlier, log[|earlier|..], |earlier|);
    assert earlier + log[|earlier|..] == log;
  }

  lemma CheckingChangesNothing(t: Table, ip: Ip, mac: Mac, now: Time)
    ensures Step(t, CheckConflict(ip, mac), now) == t
  {
  }

  ghost predicate EndsWith(log: seq<Event>, e: Event) {
    |log| > 0 && log[|log| - 1] == e
  }

  ghost predicate NoneLeft(t: Table, net: Cidr, server: Ip, now: Time) {
    forall x: Ip :: !Assignable(t, x, net, server, now)
  }

  lemma {:induction false} AllocatesUnlessNoneLeft(log: seq<Event>, ips: set<Ip>, mac: Mac, net: Cidr, server: Ip, now: Time, start: Time)
    requires Holding(StateAt(log, |log|), ips, mac, start)
    ensures var e := Event(AllocateCandidate(mac, net, server), now);
            Candidate(StateAt(log, |log|), mac, net, server, now).None? ==> NoneLeft(StateAt(log + [e], |log|), net, server, now)
  {
    hide Candidate, Assignable, StateAt;
    DhcpLeases.PastIsFixed(log, Event(AllocateCandidate(mac, net, server), now), |log|);
    CandidateIsLowest(StateAt(log, |log|), mac, net, server, now);
  }

  lemma NothingHeld(t: Table, mac: Mac, start: Time)
    requires mac !in t.statics
    ensures Holding(t, {}, mac, start)
  {
  }

  lemma HostsAreFew(ips: set<Ip>, net: Cidr)
    requires AreHosts(ips, net)
    ensures |ips| <= HostCount(net)
  {
    if net.prefix < 31 {
      BlockOfTwo(net);
      RangeSize(ips, net.Network() + 1, net.Broadcast());
    } else {
      RangeSize(ips, net.Network(), net.Broadcast() + 1);
    }
  }

  // A candidate is a host without an active hold, so none that was refused before.
  lemma CandidateIsNew(t: Table, ips: set<Ip>, mac: Mac, net: Cidr, server: Ip, now: Time, start: Time)
    requires Holding(t, ips, mac, start) && InTime(now, start)
    ensures var c := Candidate(t, mac, net, server, now);
            c.Some? ==> IsHostOf(net, c.value) && c.value != server && c.value !in ips
  {
    hide Candidate;
    CandidateIsLowest(t, mac, net, server, now);
  }

  lemma RecordHolds(t: Table, ips: set<Ip>, ip: Ip, mac: Mac, start: Time, now: Time)
    requires Holding(t, ips, mac, start) && start <= now
    ensures Holding(Step(t, RecordConflict(ip, CONFLICT_HOLD_DURATION), now), ips + {ip}, mac, start)
  {
  }

  // ---- offers ----

  /** The commands that can change the lease of a client. */
  predicate Concerns(cmd: Cmd, mac: Mac) {
    match cmd
    case SetStaticLeases(leases) => exists i | 0 <= i < |leases| :: leases[i].mac == mac
    case AllocateCandidate(m, _, _) => m == mac
    case ConfirmLease(m, _, _, _) => m == mac
    case ValidateAndConfirm(m, _, _, _, _, _) => m == mac
    case Release(m) => m == mac
    case AddNeighbor(m, _) => m == mac
    case _ => false
  }

  lemma {:induction false} DropMovedKeepsOthers(t: Table, leases: seq<StaticLease>, n: nat, mac: Mac)
    requires n <= |leases| && mac in t.byMac && forall i | 0 <= i < |leases| :: leases[i].mac != mac
    ensures mac in DropMoved(t, leases, n).byMac && DropMoved(t, leases, n).byMac[mac] == t.byMac[mac]
  {
    if n > 0 {
      DropMovedKeepsOthers(t, leases, n - 1, mac);
    }
  }

  /** The client has this lease, and no reservation for another address. */
  predicate OnRecord(t: Table, mac: Mac, lease: Lease) {
    && mac in t.byMac && t.byMac[mac] == lease
    && (mac in t.statics ==> t.statics[mac].ip == lease.ip)
  }

  lemma {:induction false} StepKeepsLease(t: Table, e: Event, mac: Mac, lease: Lease)
    requires OnRecord(t, mac, lease) && e.at < lease.expiry && !Concerns(e.cmd, mac)
    ensures OnRecord(Step(t, e.cmd, e.at), mac, lease)
  {
    hide DropMoved, StaticMap, ReservedIps, Candidate, Confirm;
    if e.cmd.SetStaticLeases? {
      DropMovedKeepsOthers(t, e.cmd.leases, |e.cmd.leases|, mac);
      StaticMapKeys(e.cmd.leases, |e.cmd.leases|, mac);
    }
  }

  /** No command strictly between two moments of a run concerns the client. */
  ghost predicate Untouched(run: seq<Event>, i: nat, j: nat, mac: Mac)
    requires j <= |run|
  {
    forall k | i < k < j :: !Concerns(run[k].cmd, mac)
  }

  lemma {:induction false} HoldLasts(run: seq<Event>, i: nat, j: nat, mac: Mac, lease: Lease)
    requires i < j < |run| && Ordered(run) && run[j].at < lease.expiry
    requires OnRecord(StateAt(run, i + 1), mac, lease) && Untouched(run, i, j, mac)
    ensures OnRecord(StateAt(run, j), mac, lease)
  {
    hide Step, Concerns, OnRecord;
    if i + 1 < j {
      HoldLasts(run, i, j - 1, mac, lease);
      StepKeepsLease(StateAt(run, j - 1), run[j - 1], mac, lease);
    }
  }

  lemma SoleHolder(t: Table, mac: Mac, ip: Ip, now: Time)
    requires NoLiveShare(t, now) && Holds(t, mac, ip, now)
    ensures !TakenByOther(t, ip, mac, now)
  {
  }

  lemma {:induction false} SafeRunIsUnshared(run: seq<Event>, n: nat, now: Time)
    requires n <= |run| && Ordered(run) && SafeRun(run, n) && (n > 0 ==> run[n - 1].at <= now)
    ensures NoLiveShare(StateAt(run, n), now)
  {
    hide Step, SafeCommand, NoLiveShare;
    NeverSharedIff(run, n);
    if n == 0 {
      StartsUnshared(now);
    } else {
      assert NoLiveShare(StateAt(run, (n - 1) + 1), run[n - 1].at);
      TimePasses(StateAt(run, n), run[n - 1].at, now);
    }
  }

  /**
   Confirming a candidate before its hold runs out is safe, whatever the server
   does in between for other clients, as long as that is safe too.
   */
  lemma {:induction false} CandidateStaysSafe(run: seq<Event>, i: nat, j: nat, mac: Mac, net: Cidr, server: Ip, ip: Ip)
    requires i < j < |run| && Ordered(run) && SafeRun(run, j)
    requires run[i].cmd == AllocateCandidate(mac, net, server)
    requires Candidate(StateAt(run, i), mac, net, server, run[i].at) == Some(ip)
    requires Untouched(run, i, j, mac)
    requires run[j].cmd.ConfirmLease? && run[j].cmd.mac == mac && run[j].cmd.ip == ip
    requires run[j].at < run[i].at + CANDIDATE_HOLD_DURATION
    ensures SafeRun(run, j + 1)
  {
    hide Candidate, Untouched, NoLiveShare, TakenByOther, Step, SafeCommand, SafeRun;
    var hold := CandidateHold(StateAt(run, i), mac, net, server, run[i].at);
    HoldLasts(run, i, j, mac, hold);
    SafeRunIsUnshared(run, j, run[j].at);
    SoleHolder(StateAt(run, j), mac, ip, run[j].at);
    ConfirmIsSafe(run, j);
  }

  lemma CandidateHold(t: Table, mac: Mac, net: Cidr, server: Ip, now: Time) returns (lease: Lease)
    requires Candidate(t, mac, net, server, now).Some?
    ensures lease.ip == Candidate(t, mac, net, server, now).value && lease.expiry == now + CANDIDATE_HOLD_DURATION
    ensures OnRecord(Step(t, AllocateCandidate(mac, net, server), now), mac, lease)
  {
    lease := Step(t, AllocateCandidate(mac, net, server), now).byMac[mac];
  }

  lemma {:induction false} ConfirmIsSafe(run: seq<Event>, j: nat)
    requires j < |run| && SafeRun(run, j) && run[j].cmd.ConfirmLease?
    requires !TakenByOther(StateAt(run, j), run[j].cmd.ip, run[j].cmd.mac, run[j].at)
    ensures SafeRun(run, j + 1)
  {
    hide StateAt, TakenByOther;
  }

  /** None of the commands concerns the client. */
  predicate NotFor(es: seq<Event>, mac: Mac) {
    forall i | 0 <= i < |es| :: !Concerns(es[i].cmd, mac)
  }

  lemma {:induction false} SearchIsUntouched(log: seq<Event>, begun: nat, round: Round, late: seq<Event>, e: Event,
                                             mac: Mac, net: Cidr, server: Ip, ip: Ip)
    requires EndsWithRound(log, begun, round, mac, net, server, ip) && NotFor(round.probing, mac) && NotFor(late, mac)
    ensures var run := log + late + [e];
            && run[begun] == Event(AllocateCandidate(mac, net, server), round.allocateAt)
            && run[|run| - 1] == e && begun < |run| - 1
            && Untouched(run, begun, |run| - 1, mac)
            && StateAt(run, begun) == StateAt(log, begun)
  {
    hide StateAt, Candidate;
    var run := log + late + [e];
    assert run == log + (late + [e]);
    PrefixIsFixed(log, late + [e], begun);
    forall k | begun < k < |run| - 1
      ensures !Concerns(run[k].cmd, mac)
    {
      if k < begun + 1 + |round.probing| {
        assert run[k] == round.probing[k - begun - 1];
      } else if k < |log| {
        assert run[k] == Event(CheckConflict(ip, mac), round.checkAt);
      } else {
        assert run[k] == late[k - |log|];
      }
    }
  }

  // What the search found can be confirmed while its hold lasts.
  lemma {:induction false} SearchIsSafe(log: seq<Event>, begun: nat, round: Round, late: seq<Event>, e: Event,
                                        mac: Mac, net: Cidr, server: Ip, ip: Ip)
    requires EndsWithRound(log, begun, round, mac, net, server, ip) && NotFor(round.probing, mac) && NotFor(late, mac)
    requires e.cmd.ConfirmLease? && e.cmd.mac == mac && e.cmd.ip == ip && e.at < round.allocateAt + CANDIDATE_HOLD_DURATION
    ensures var run := log + late + [e];
            Ordered(run) && SafeRun(run, |run| - 1) ==> SafeRun(run, |run|)
  {
    hide StateAt, Candidate, Ordered, SafeRun, Untouched;
    var run := log + late + [e];
    if Ordered(run) && SafeRun(run, |run| - 1) {
      SearchIsUntouched(log, begun, round, late, e, mac, net, server, ip);
      CandidateStaysSafe(run, begun, |run| - 1, mac, net, server, ip);
    }
  }

  /**
   What a discover leads to.  A client with an address on record is offered
   that one; any other goes through the search.  Whichever it is, the lease is
   confirmed without another look at the table, so this keeps the leases apart
   exactly if no one else holds the address by then.  After a search that is
   certain as long as its hold lasts and nothing else concerns the client.
   */
  method HandleDiscover(actor: LeaseActor, mac: Mac, net: Cidr, server: Ip, hostname: Option<string>, lookAt: Time,
                        env: nat -> Round, late: seq<Event>, confirmAt: Time, ghost start: Time)
    returns (offered: Option<Ip>, rounds: nat)
    requires actor.Valid()
    requires forall i: nat | i <= HostCount(net) :: FairRound(env(i), mac, start)
    modifies actor, actor.leases
    ensures actor.Valid()
    ensures mac in old(actor.leases.statics) ==> offered == Some(old(actor.leases.statics)[mac].ip)
    ensures mac !in old(actor.leases.statics) && mac in old(actor.leases.byMac) ==> offered == Some(old(actor.leases.byMac)[mac].ip)
    ensures ExistingIp(old(actor.leases.State()), mac).Some? ==> offered == ExistingIp(old(actor.leases.State()), mac)
    ensures ExistingIp(old(actor.leases.State()), mac).None? && offered.Some? ==> IsHostOf(net, offered.value) && offered.value != server
    ensures offered.Some? ==>
              && EndsWith(actor.log, Event(ConfirmLease(mac, offered.value, LAN_LEASE, hostname), confirmAt))
              && Holds(actor.leases.State(), mac, offered.value, confirmAt)
              && actor.leases.State().byMac[mac] == Lease(offered.value, confirmAt + 3600_000, hostname)
    ensures offered.Some? && Ordered(actor.log) && SafeRun(actor.log, |actor.log| - 1) ==>
              (NoLiveShare(actor.leases.State(), confirmAt)
               <==> !TakenByOther(StateAt(actor.log, |actor.log| - 1), offered.value, mac, confirmAt))
    ensures ExistingIp(old(actor.leases.State()), mac).None? && offered.Some?
            && NotFor(env(rounds).probing, mac) && NotFor(late, mac) && confirmAt < env(rounds).allocateAt + CANDIDATE_HOLD_DURATION
            && Ordered(actor.log) && SafeRun(actor.log, |actor.log| - 1)
            ==> SafeRun(actor.log, |actor.log|)
  {
    hide Step, StateAt, Candidate, IsHostOf, HostCount, Holding, FairEvents, TakenByOther, Confirm, SafeRun, Ordered, NoLiveShare,
         MayAnswer, EndsWithRound, NotFor;
    rounds := 0;
    ghost var begun := 0;
    var reply := actor.Handle(GetExistingIp(mac), lookAt);
    var existing := reply.ip;
    offered := existing;
    if offered.None? {
      var refused;
      LookingChangesNothing(old(actor.leases.State()), mac, lookAt);
      offered, refused, rounds, begun := ProbeAndAllocate(actor, mac, net, server, env, start);
      if offered.None? {
        return;
      }
    }
    ghost var searched := actor.log;
    HandleAll(actor, late);
    ghost var run := actor.log;
    ghost var t := actor.leases.State();
    ghost var e := Event(ConfirmLease(mac, offered.value, LAN_LEASE, hostname), confirmAt);
    reply := actor.Handle(ConfirmLease(mac, offered.value, LAN_LEASE, hostname), confirmAt);
    ConfirmedHolds(t, mac, offered.value, hostname, confirmAt);
    ConfirmKeepsApartIff(run, mac, offered.value, hostname, confirmAt);
    if existing.None? && NotFor(env(rounds).probing, mac) && NotFor(late, mac) && confirmAt < env(rounds).allocateAt + CANDIDATE_HOLD_DURATION {
      SearchIsSafe(searched, begun, env(rounds), late, e, mac, net, server, offered.value);
    }
  }

  lemma LookingChangesNothing(t: Table, mac: Mac, now: Time)
    ensures Step(t, GetExistingIp(mac), now) == t
  {
  }

  lemma ConfirmedHolds(t: Table, mac: Mac, ip: Ip, hostname: Option<string>, now: Time)
    ensures var t' := Step(t, ConfirmLease(mac, ip, LAN_LEASE, hostname), now);
            Holds(t', mac, ip, now) && t'.byMac[mac] == Lease(ip, now + 3600_000, hostname)
  {
  }

  lemma {:induction false} ConfirmKeepsApartIff(run: seq<Event>, mac: Mac, ip: Ip, hostname: Option<string>, now: Time)
    ensures var e := Event(ConfirmLease(mac, ip, LAN_LEASE, hostname), now);
            Ordered(run + [e]) && SafeRun(run + [e], |run|) ==>
              (NoLiveShare(StateAt(run + [e], |run| + 1), now) <==> !TakenByOther(StateAt(run + [e], |run|), ip, mac, now))
  {
    hide NoLiveShare, TakenByOther, SafeRun, Ordered, StateAt, Step;
    var e := Event(ConfirmLease(mac, ip, LAN_LEASE, hostname), now);
    if Ordered(run + [e]) && SafeRun(run + [e], |run|) {
      UnsharedBefore(run, e);
      var t := StateAt(run + [e], |run|);
      StepSafeIff(t, e.cmd, now);
      LastStep(run, e);
    }
  }

  lemma {:induction false} LastStep(run: seq<Event>, e: Event)
    ensures StateAt(run + [e], |run| + 1) == Step(StateAt(run + [e], |run|), e.cmd, e.at)
  {
    hide Step;
  }

  lemma {:induction false} UnsharedBefore(run: seq<Event>, e: Event)
    requires Ordered(run + [e]) && SafeRun(run + [e], |run|)
    ensures NoLiveShare(StateAt(run + [e], |run|), e.at)
  {
    hide NoLiveShare, SafeRun, StateAt;
    assert (run + [e])[|run|] == e;
    SafeRunIsUnshared(run + [e], |run|, e.at);
  }

  // ---- requests ----

  datatype Response = NoResponse | Ack(ip: Ip, register: Option<string>, deregister: Option<string>) | Nak

  /** The address a request names: the option, else the address the client says it has. */
  function RequestedAddress(requested: Option<Ip>, ciaddr: Ip): Option<Ip> {
    if requested.Some? then requested else if ciaddr != 0 then Some(ciaddr) else None
  }

  /**
   A device that turns up while the client holds the address, which is what the
   probe is to find, leaves the check undecided: it may see either holder.
   */
  lemma {:induction false} ProbeIsUndecided(t: Table, mac: Mac, ip: Ip, other: Mac, now: Time)
    requires Holds(t, mac, ip, now) && other != mac && Records(t, other, ip)
    ensures var t' := Step(t, AddNeighbor(other, ip), now);
            MayAnswer(t', ip, mac, now, true) && MayAnswer(t', ip, mac, now, false)
    ensures !SafeCommand(t, AddNeighbor(other, ip), now)
  {
    var t' := Step(t, AddNeighbor(other, ip), now);
    assert Live(t', other, now) && Live(t', mac, now);
  }

  /** Such a run: the address is confirmed, another device shows up with it, and the check may miss that. */
  lemma ProbeCanMiss()
    ensures var run := [Event(ValidateAndConfirm(1, Some(2), 1, Net(1, 30), LAN_LEASE, None), 0), Event(AddNeighbor(2, 2), 50)];
            var t := StateAt(run, 2);
            && TakenByOther(t, 2, 1, 100) && Holds(t, 1, 2, 100)
            && MayAnswer(t, 2, 1, 100, true) && MayAnswer(t, 2, 1, 100, false)
            && !SafeRun(run, 2)
  {
    var net := Net(1, 30);
    assert Pow2(2) == 4 && ClearLow(1, 2) == 0 by {
      assert ClearLow(0, 1) == 0;
    }
    assert net.Network() == 0 && net.Broadcast() == 3;
    var run := [Event(ValidateAndConfirm(1, Some(2), 1, net, LAN_LEASE, None), 0), Event(AddNeighbor(2, 2), 50)];
    assert StateAt(run, 0) == EMPTY;
    assert StateAt(run, 1).byMac == map[1 := Lease(2, LAN_LEASE, None)];
    var t := StateAt(run, 2);
    assert t.byMac == map[1 := Lease(2, LAN_LEASE, None), 2 := Lease(2, 50 + NEIGHBOR_HOLD_DURATION, None)];
    assert Live(t, 1, 100) && Live(t, 2, 100);
    assert Live(StateAt(run, 1), 1, 50);
    assert !SafeCommand(StateAt(run, 1), run[1].cmd, run[1].at);
  }

  lemma {:induction false} ConfirmedAddress(t: Table, mac: Mac, requested: Option<Ip>, server: Ip, net: Cidr, hostname: Option<string>, now: Time)
    requires Confirm(t, mac, requested, server, net, hostname, now).Some?
    ensures var ip := Confirm(t, mac, requested, server, net, hostname, now).value.ip;
            && net.Network() < ip < net.Broadcast() && ip != server
            && (requested.Some? ==> ip == requested.value)
            && (requested.None? ==> mac in t.byMac && ip == t.byMac[mac].ip)
  {
    hide TakenByOther, HostnameTaken;
  }

  lemma {:induction false} ConfirmPutsOnRecord(t: Table, mac: Mac, requested: Option<Ip>, server: Ip, net: Cidr, hostname: Option<string>, now: Time)
    requires Confirm(t, mac, requested, server, net, hostname, now).Some?
    ensures var c := Confirm(t, mac, requested, server, net, hostname, now).value;
            OnRecord(Step(t, ValidateAndConfirm(mac, requested, server, net, LAN_LEASE, hostname), now), mac,
                     Lease(c.ip, now + LAN_LEASE, c.hostname))
  {
    hide TakenByOther, HostnameTaken;
  }

  // The lease is still there when the probe is over, unless something concerned the client in between.
  lemma {:induction false} RequestIsOnRecord(earlier: seq<Event>, v: Event, probing: seq<Event>, check: Event, mac: Mac, lease: Lease)
    requires OnRecord(Step(StateAt(earlier, |earlier|), v.cmd, v.at), mac, lease) && NotFor(probing, mac) && check.at < lease.expiry
    ensures var run := earlier + [v] + probing + [check];
            Ordered(run) ==> OnRecord(StateAt(run, |run| - 1), mac, lease)
  {
    hide Step, Ordered, OnRecord;
    var run := earlier + [v] + probing + [check];
    if Ordered(run) {
      assert run == earlier + ([v] + probing + [check]);
      PrefixIsFixed(earlier, [v] + probing + [check], |earlier|);
      assert run[|earlier|] == v && run[|run| - 1] == check;
      assert Untouched(run, |earlier|, |run| - 1, mac) by {
        forall k | |earlier| < k < |run| - 1
          ensures !Concerns(run[k].cmd, mac)
        {
          assert run[k] == probing[k - |earlier| - 1];
        }
      }
      HoldLasts(run, |earlier|, |run| - 1, mac, lease);
    }
  }

  /**
   Whatever happens during the probe for other clients, the check that follows
   is certain to be right exactly if there is nothing for it to find.
   */
  lemma {:induction false} RequestCheckIsRightIff(earlier: seq<Event>, v: Event, probing: seq<Event>, mac: Mac, lease: Lease, checkAt: Time)
    requires OnRecord(Step(StateAt(earlier, |earlier|), v.cmd, v.at), mac, lease) && NotFor(probing, mac) && checkAt < lease.expiry
    requires Ordered(earlier + [v] + probing + [Event(CheckConflict(lease.ip, mac), checkAt)])
    ensures var run := earlier + [v] + probing + [Event(CheckConflict(lease.ip, mac), checkAt)];
            var t := StateAt(run, |run| - 1);
            (forall found | MayAnswer(t, lease.ip, mac, checkAt, found) :: found <==> TakenByOther(t, lease.ip, mac, checkAt))
            <==> !TakenByOther(t, lease.ip, mac, checkAt)
  {
    hide Step, StateAt, Ordered, MayAnswer, TakenByOther, NotFor;
    var check := Event(CheckConflict(lease.ip, mac), checkAt);
    var run := earlier + [v] + probing + [check];
    RequestIsOnRecord(earlier, v, probing, check, mac, lease);
    CheckIsRightIff(StateAt(run, |run| - 1), lease.ip, mac, checkAt);
  }

  /**
   What a request leads to: confirm, probe, and acknowledge unless the probe
   finds another holder.  If another client holds an acknowledged address
   nevertheless, so does the client itself, which is when the check can be
   wrong.  A refusal after the probe leaves the lease and a hold on the address
   behind; it is on record for the client's next discover.
   */
  method HandleRequest(actor: LeaseActor, mac: Mac, serverId: Option<Ip>, requested: Option<Ip>, ciaddr: Ip, net: Cidr, server: Ip,
                       hostname: Option<string>, confirmAt: Time, probing: seq<Event>, checkAt: Time, recordAt: Time)
    returns (r: Response)
    requires actor.Valid()
    modifies actor, actor.leases
    ensures actor.Valid()
    ensures r.NoResponse? <==> serverId.Some? && serverId.value != server
    ensures r.NoResponse? ==> actor.log == old(actor.log)
    ensures !r.NoResponse? && Confirm(old(actor.leases.State()), mac, RequestedAddress(requested, ciaddr), server, net, hostname, confirmAt).None?
            ==> r.Nak? && actor.leases.State() == old(actor.leases.State())
    ensures r.Ack? ==>
              var c := Confirm(old(actor.leases.State()), mac, RequestedAddress(requested, ciaddr), server, net, hostname, confirmAt);
              c == Some(Confirmation(r.ip, r.register, r.deregister))
    ensures r.Ack? && requested.Some? ==> r.ip == requested.value
    ensures r.Ack? && requested.None? && ciaddr != 0 ==> r.ip == ciaddr
    ensures r.Ack? && requested.None? && ciaddr == 0 ==>
              mac in old(actor.leases.byMac) && r.ip == old(actor.leases.byMac)[mac].ip
    ensures r.Ack? ==> net.Network() < r.ip < net.Broadcast() && r.ip != server
    ensures r.Ack? ==>
              actor.log == old(actor.log)
                           + [Event(ValidateAndConfirm(mac, RequestedAddress(requested, ciaddr), server, net, LAN_LEASE, hostname), confirmAt)]
                           + probing + [Event(CheckConflict(r.ip, mac), checkAt)]
    ensures r.Ack? ==> MayAnswer(actor.leases.State(), r.ip, mac, checkAt, false)
    ensures r.Ack? && TakenByOther(actor.leases.State(), r.ip, mac, checkAt) ==> Holds(actor.leases.State(), mac, r.ip, checkAt)
    ensures r.Ack? && Ordered(actor.log) && SafeRun(actor.log, |actor.log|) ==> !TakenByOther(actor.leases.State(), r.ip, mac, checkAt)
    ensures var c := Confirm(old(actor.leases.State()), mac, RequestedAddress(requested, ciaddr), server, net, hostname, confirmAt);
            r.Nak? && c.Some? ==>
              && actor.log == old(actor.log)
                              + [Event(ValidateAndConfirm(mac, RequestedAddress(requested, ciaddr), server, net, LAN_LEASE, hostname), confirmAt)]
                              + probing + [Event(CheckConflict(c.value.ip, mac), checkAt)]
                              + [Event(RecordConflict(c.value.ip, CONFLICT_HOLD_DURATION), recordAt)]
              && TakenByOther(actor.leases.State(), c.value.ip, mac, checkAt)
              && c.value.ip in actor.leases.conflicts && actor.leases.conflicts[c.value.ip] == recordAt + 300_000
    ensures var c := Confirm(old(actor.leases.State()), mac, RequestedAddress(requested, ciaddr), server, net, hostname, confirmAt);
            !r.NoResponse? && c.Some? && Ordered(actor.log) && NotFor(probing, mac) && checkAt < confirmAt + LAN_LEASE ==>
              && OnRecord(actor.leases.State(), mac, Lease(c.value.ip, confirmAt + LAN_LEASE, c.value.hostname))
              && ExistingIp(actor.leases.State(), mac) == Some(c.value.ip)
  {
    hide Step, StateAt, Confirm, TakenByOther, SafeRun, Ordered, NoLiveShare, MayAnswer, Holds, NotFor, ConflictActive, OnRecord, ExistingIp;
    if serverId.Some? && serverId.value != server {
      return NoResponse;
    }
    var wanted := RequestedAddress(requested, ciaddr);
    ghost var t, earlier := actor.leases.State(), actor.log;
    ghost var v := Event(ValidateAndConfirm(mac, wanted, server, net, LAN_LEASE, hostname), confirmAt);
    var reply := actor.Handle(ValidateAndConfirm(mac, wanted, server, net, LAN_LEASE, hostname), confirmAt);
    if reply.confirmation.None? {
      RefusalChangesNothing(t, mac, wanted, server, net, hostname, confirmAt);
      return Nak;
    }
    var c := reply.confirmation.value;
    ConfirmedAddress(t, mac, wanted, server, net, hostname, confirmAt);
    ConfirmPutsOnRecord(t, mac, wanted, server, net, hostname, confirmAt);
    HandleAll(actor, probing);
    t := actor.leases.State();
    ghost var run := actor.log;
    ghost var check := Event(CheckConflict(c.ip, mac), checkAt);
    reply := actor.Handle(CheckConflict(c.ip, mac), checkAt);
    CheckingChangesNothing(t, c.ip, mac, checkAt);
    DhcpLeases.PastIsFixed(run, check, |run|);
    ghost var lease := Lease(c.ip, confirmAt + LAN_LEASE, c.hostname);
    ghost var untouched := NotFor(probing, mac) && checkAt < confirmAt + LAN_LEASE;
    if untouched {
      RequestIsOnRecord(earlier, v, probing, check, mac, lease);
    }
    if reply.found {
      ChecksAndHoldsKeepLeases(t, c.ip, mac, checkAt, recordAt);
      ghost var checked := actor.log;
      var _ := actor.Handle(RecordConflict(c.ip, CONFLICT_HOLD_DURATION), recordAt);
      OrderedBefore(checked, Event(RecordConflict(c.ip, CONFLICT_HOLD_DURATION), recordAt));
      RecordKeepsRecord(t, mac, lease, c.ip, recordAt);
      return Nak;
    }
    CheckFindsNone(run, mac, c.ip, checkAt);
    RecordIsExisting(t, mac, lease);
    r := Ack(c.ip, c.hostname, c.deregister);
  }

  lemma {:induction false} OrderedBefore(run: seq<Event>, e: Event)
    ensures Ordered(run + [e]) ==> Ordered(run)
  {
    if Ordered(run + [e]) {
      assert forall i | 0 <= i < |run| :: run[i] == (run + [e])[i];
    }
  }

  lemma RecordIsExisting(t: Table, mac: Mac, lease: Lease)
    ensures OnRecord(t, mac, lease) ==> ExistingIp(t, mac) == Some(lease.ip)
  {
  }

  lemma RecordKeepsRecord(t: Table, mac: Mac, lease: Lease, ip: Ip, now: Time)
    ensures var t' := Step(t, RecordConflict(ip, CONFLICT_HOLD_DURATION), now);
            && ip in t'.conflicts && t'.conflicts[ip] == now + 300_000
            && (OnRecord(t, mac, lease) ==> OnRecord(t', mac, lease) && ExistingIp(t', mac) == Some(lease.ip))
  {
  }

  lemma ChecksAndHoldsKeepLeases(t: Table, ip: Ip, mac: Mac, checkAt: Time, recordAt: Time)
    requires TakenByOther(t, ip, mac, checkAt)
    ensures TakenByOther(Step(Step(t, CheckConflict(ip, mac), checkAt), RecordConflict(ip, CONFLICT_HOLD_DURATION), recordAt), ip, mac, checkAt)
  {
    var t' := Step(Step(t, CheckConflict(ip, mac), checkAt), RecordConflict(ip, CONFLICT_HOLD_DURATION), recordAt);
    var other :| Live(t, other, checkAt) && other != mac && t.byMac[other].ip == ip;
    assert Live(t', other, checkAt);
  }

  lemma RefusalChangesNothing(t: Table, mac: Mac, requested: Option<Ip>, server: Ip, net: Cidr, hostname: Option<string>, now: Time)
    requires Confirm(t, mac, requested, server, net, hostname, now).None?
    ensures Step(t, ValidateAndConfirm(mac, requested, server, net, LAN_LEASE, hostname), now) == t
  {
  }

  // Where no address is shared, a check that finds no other holder means that there is none.
  lemma {:induction false} CheckFindsNone(run: seq<Event>, mac: Mac, ip: Ip, now: Time)
    ensures var e := Event(CheckConflict(ip, mac), now);
            var t := StateAt(run + [e], |run|);
            Ordered(run + [e]) && SafeRun(run + [e], |run| + 1) && (TakenByOther(t, ip, mac, now) ==> Holds(t, mac, ip, now))
            ==> !TakenByOther(StateAt(run + [e], |run| + 1), ip, mac, now)
  {
    hide NoLiveShare, TakenByOther, Ordered, StateAt, SafeCommand, Holds;
    var e := Event(CheckConflict(ip, mac), now);
    var t := StateAt(run + [e], |run|);
    if Ordered(run + [e]) && SafeRun(run + [e], |run| + 1) && (TakenByOther(t, ip, mac, now) ==> Holds(t, mac, ip, now)) {
      UnsharedBefore(run, e);
      if Holds(t, mac, ip, now) {
        SoleHolder(t, mac, ip, now);
      }
      LastStep(run, e);
    }
  }

  // ---- reservations from the configuration ----

  /** Accepted reservations are what a run with reservations starts from, at home and after a move to the fallback subnet. */
  lemma AcceptedReservations(lan: Option<LanSection>, home: Net, backup: Net, rs: seq<ReservationText>, leases: seq<StaticLease>)
    requires ParseLanSubnets(lan) == Ok((home, backup)) && home.Valid() && backup.Valid()
    requires Reservations(leases, rs, |rs|, home, backup) && AcceptableReservations(rs, |rs|, home, backup)
    ensures DistinctLeases(leases) && DistinctLeases(FilterMap(l => RemapLease(l, home, backup), leases))
  {
    hide ParseLanSubnets, AreLanSubnets, AcceptableReservations, Reservations, RemapLease, FilterMap, DistinctLeases, AcceptedLeases;
    ParsedLanSubnets(lan);
    ParsedLeasesAccepted(leases, rs, home, backup);
    LeasesSurvive(leases, home, backup);
    AcceptedAreDistinct(leases, home, backup);
    AcceptedAreDistinct(FilterMap(l => RemapLease(l, home, backup), leases), backup, home);
  }

  lemma AcceptedAreDistinct(leases: seq<StaticLease>, lan: Net, backup: Net)
    requires lan.Valid() && backup.Valid() && AcceptedLeases(leases, lan, backup)
    ensures DistinctLeases(leases)
  {
    assert forall i, j | 0 <= i < j < |leases| :: !Clash(leases[i], leases[j]);
  }
}
