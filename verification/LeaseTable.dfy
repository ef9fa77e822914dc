/**
 The lease table of the DHCP server (src/services/dhcp_server/lease_table.rs):
 leases by MAC with a redundant index of addresses, expiry, conflict holds and
 static reservations, driven by a stream of commands.  Times are milliseconds.
 */
module DhcpLeases {
  import opened Options
  import opened Naturals
  import opened Ipv4
  import opened RouterConfig

  type Time = nat

  const LAN_LEASE: nat := 3600_000
  const CANDIDATE_HOLD_DURATION: nat := 10_000
  const NEIGHBOR_HOLD_DURATION: nat := 300_000
  const ZERO_MAC: Mac := 0
  const BROADCAST_MAC: Mac := 0xFFFF_FFFF_FFFF

  datatype Lease = Lease(ip: Ip, expiry: Time, hostname: Option<string>)

  datatype Table = Table(byMac: map<Mac, Lease>, held: set<Ip>, conflicts: map<Ip, Time>,
                         statics: map<Mac, StaticLease>, reserved: set<Ip>)

  datatype Confirmation = Confirmation(ip: Ip, hostname: Option<string>, deregister: Option<string>)

  datatype Cmd =
    | SetStaticLeases(leases: seq<StaticLease>)
    | GetExistingIp(mac: Mac)
    | AllocateCandidate(mac: Mac, net: Cidr, server: Ip)
    | ConfirmLease(mac: Mac, ip: Ip, duration: nat, hostname: Option<string>)
    | ValidateAndConfirm(mac: Mac, requested: Option<Ip>, server: Ip, net: Cidr, duration: nat, hostname: Option<string>)
    | CheckConflict(ip: Ip, mac: Mac)
    | RecordConflict(ip: Ip, duration: nat)
    | Release(mac: Mac)
    | EvictExpired
    | AddNeighbor(mac: Mac, ip: Ip)
    | GetActiveLeases

  // ---- what the operations do, on values ----

  predicate Live(t: Table, mac: Mac, now: Time) {
    mac in t.byMac && t.byMac[mac].expiry > now
  }

  ghost predicate TakenByOther(t: Table, ip: Ip, mac: Mac, now: Time) {
    exists other | Live(t, other, now) :: other != mac && t.byMac[other].ip == ip
  }

  predicate Holds(t: Table, mac: Mac, ip: Ip, now: Time) {
    Live(t, mac, now) && t.byMac[mac].ip == ip
  }

  ghost predicate HostnameTaken(t: Table, name: string, mac: Mac, now: Time) {
    exists other | Live(t, other, now) :: other != mac && t.byMac[other].hostname == Some(name)
  }

  /** What a check for other holders may answer: it looks at one unexpired holder, whichever comes first. */
  ghost predicate MayAnswer(t: Table, ip: Ip, mac: Mac, now: Time, found: bool) {
    || (exists m | Live(t, m, now) :: t.byMac[m].ip == ip && found == (m != mac))
    || (!found && forall m | Live(t, m, now) :: t.byMac[m].ip != ip)
  }

  /** The check is certain to be right exactly if not both another client and the client itself hold the address. */
  lemma CheckIsRightIff(t: Table, ip: Ip, mac: Mac, now: Time)
    ensures exists found :: MayAnswer(t, ip, mac, now, found)
    ensures (forall found | MayAnswer(t, ip, mac, now, found) :: found <==> TakenByOther(t, ip, mac, now))
            <==> !(TakenByOther(t, ip, mac, now) && Holds(t, mac, ip, now))
    ensures MayAnswer(t, ip, mac, now, true) && MayAnswer(t, ip, mac, now, false)
            <==> TakenByOther(t, ip, mac, now) && Holds(t, mac, ip, now)
  {
    assert MayAnswer(t, ip, mac, now, true) <==> TakenByOther(t, ip, mac, now);
    assert MayAnswer(t, ip, mac, now, false) <==> Holds(t, mac, ip, now) || !TakenByOther(t, ip, mac, now);
  }

  /** Some lease with this hostname has expired. */
  ghost predicate ExpiredName(t: Table, name: string, now: Time) {
    exists mac | mac in t.byMac :: t.byMac[mac].expiry <= now && t.byMac[mac].hostname == Some(name)
  }

  predicate ConflictActive(t: Table, ip: Ip, now: Time) {
    ip in t.conflicts && t.conflicts[ip] > now
  }

  function Inserted(t: Table, mac: Mac, lease: Lease): Table {
    var rest := if mac in t.byMac then t.held - {t.byMac[mac].ip} else t.held;
    t.(held := rest + {lease.ip}, byMac := t.byMac[mac := lease])
  }

  function Removed(t: Table, mac: Mac): Table {
    if mac in t.byMac then t.(byMac := t.byMac - {mac}, held := t.held - {t.byMac[mac].ip}) else t
  }

  /** The addresses leases are held for. */
  function Ips(byMac: map<Mac, Lease>): set<Ip> {
    set mac | mac in byMac :: byMac[mac].ip
  }

  function Evicted(t: Table, now: Time): Table {
    var kept := map mac | mac in t.byMac && t.byMac[mac].expiry > now :: t.byMac[mac];
    t.(byMac := kept, held := Ips(kept),
       conflicts := map ip | ip in t.conflicts && t.conflicts[ip] > now :: t.conflicts[ip])
  }

  /** Free for dynamic allocation. */
  predicate Free(t: Table, ip: Ip, server: Ip, now: Time) {
    ip != server && ip !in t.held && !ConflictActive(t, ip, now) && ip !in t.reserved
  }

  function FirstHost(net: Cidr): Ip {
    if net.prefix < 31 then BlockOfTwo(net); net.Network() + 1 else net.Network()
  }

  function LastHost(net: Cidr): Ip {
    if net.prefix < 31 then BlockOfTwo(net); net.Broadcast() - 1 else net.Broadcast()
  }

  lemma BlockOfTwo(net: Cidr)
    requires net.prefix < 31
    ensures net.Network() + 1 <= net.Broadcast() - 1
  {
    Pow2Grows(2, 32 - net.prefix);
  }

  /** An address of the network that a host can have: not its first or last one, unless it has no others. */
  predicate IsHostOf(net: Cidr, ip: Ip) {
    if net.prefix < 31 then net.Network() < ip < net.Broadcast() else net.Contains(ip)
  }

  lemma HostRange(net: Cidr, ip: Ip)
    ensures FirstHost(net) <= ip <= LastHost(net) <==> IsHostOf(net, ip)
  {
    if net.prefix < 31 {
      BlockOfTwo(net);
    }
  }

  /** The lowest free address from `lo` to `hi`. */
  function LowestFree(t: Table, server: Ip, now: Time, lo: nat, hi: Ip): (r: Option<Ip>)
    decreases hi + 1 - lo
  {
    if lo > hi then None
    else if Free(t, lo, server, now) then Some(lo)
    else LowestFree(t, server, now, lo + 1, hi)
  }

  /** The address `AllocateCandidate` answers with; allocation looks at the table after eviction. */
  ghost function Candidate(t: Table, mac: Mac, net: Cidr, server: Ip, now: Time): Option<Ip> {
    if mac in t.statics then
      var ip := t.statics[mac].ip;
      if net.Contains(ip) && ip != server && !TakenByOther(t, ip, mac, now) then Some(ip) else None
    else
      LowestFree(Evicted(t, now), server, now, FirstHost(net), LastHost(net))
  }

  ghost function AfterAllocate(t: Table, mac: Mac, net: Cidr, server: Ip, now: Time): Table {
    var ip := Candidate(t, mac, net, server, now);
    var base := if mac in t.statics then t else Evicted(t, now);
    var hostname := if mac in t.statics then t.statics[mac].hostname else None;
    if ip.None? then base else Inserted(base, mac, Lease(ip.value, now + CANDIDATE_HOLD_DURATION, hostname))
  }

  /** The address a request asks for: the one it names, else the one on record. */
  function RequestTarget(t: Table, mac: Mac, requested: Option<Ip>): Option<Ip> {
    if requested.Some? then requested else if mac in t.byMac then Some(t.byMac[mac].ip) else None
  }

  ghost predicate Confirmable(t: Table, mac: Mac, target: Ip, server: Ip, net: Cidr, now: Time) {
    && target != server && target != net.Network() && target != net.Broadcast() && net.Contains(target)
    && !TakenByOther(t, target, mac, now)
    && (if mac in t.statics then target == t.statics[mac].ip else target !in t.reserved)
  }

  ghost function Confirm(t: Table, mac: Mac, requested: Option<Ip>, server: Ip, net: Cidr, hostname: Option<string>, now: Time)
    : Option<Confirmation>
  {
    var target := RequestTarget(t, mac, requested);
    if target.None? || !Confirmable(t, mac, target.value, server, net, now) then
      None
    else
      var wanted := if mac in t.statics && t.statics[mac].hostname.Some? then t.statics[mac].hostname else hostname;
      var effective := if wanted.Some? && !HostnameTaken(t, wanted.value, mac, now) then wanted else None;
      var previous := if mac in t.byMac then t.byMac[mac].hostname else None;
      Some(Confirmation(target.value, effective, if previous.Some? && previous != effective then previous else None))
  }

  ghost function AfterConfirm(t: Table, mac: Mac, requested: Option<Ip>, server: Ip, net: Cidr, duration: nat,
                              hostname: Option<string>, now: Time): Table
  {
    var c := Confirm(t, mac, requested, server, net, hostname, now);
    if c.None? then t else Inserted(t, mac, Lease(c.value.ip, now + duration, c.value.hostname))
  }

  /** A neighbour entry is recorded unless it contradicts a reservation or says nothing new. */
  predicate Records(t: Table, mac: Mac, ip: Ip) {
    && mac != ZERO_MAC && mac != BROADCAST_MAC
    && (mac in t.statics ==> t.statics[mac].ip == ip)
    && (mac in t.byMac ==> t.byMac[mac].ip != ip)
  }

  function Neighbor(t: Table, mac: Mac, ip: Ip, now: Time): Table {
    if !Records(t, mac, ip) then t
    else
      var hostname := if mac in t.statics then t.statics[mac].hostname else None;
      Inserted(t, mac, Lease(ip, now + NEIGHBOR_HOLD_DURATION, hostname))
  }

  /** The table without the leases that the first `n` reservations contradict. */
  function DropMoved(t: Table, leases: seq<StaticLease>, n: nat): Table
    requires n <= |leases|
  {
    if n == 0 then t
    else
      var t' := DropMoved(t, leases, n - 1);
      var l := leases[n - 1];
      if l.mac in t'.byMac && t'.byMac[l.mac].ip != l.ip then Removed(t', l.mac) else t'
  }

  function StaticMap(leases: seq<StaticLease>, n: nat): map<Mac, StaticLease>
    requires n <= |leases|
  {
    if n == 0 then map[] else StaticMap(leases, n - 1)[leases[n - 1].mac := leases[n - 1]]
  }

  function ReservedIps(leases: seq<StaticLease>, n: nat): set<Ip>
    requires n <= |leases|
  {
    if n == 0 then {} else ReservedIps(leases, n - 1) + {leases[n - 1].ip}
  }

  function SetStatics(t: Table, leases: seq<StaticLease>): Table {
    DropMoved(t, leases, |leases|).(statics := StaticMap(leases, |leases|), reserved := ReservedIps(leases, |leases|))
  }

  ghost function Step(t: Table, cmd: Cmd, now: Time): Table {
    match cmd
    case SetStaticLeases(leases) => SetStatics(t, leases)
    case AllocateCandidate(mac, net, server) => AfterAllocate(t, mac, net, server, now)
    case ConfirmLease(mac, ip, duration, hostname) => Inserted(t, mac, Lease(ip, now + duration, hostname))
    case ValidateAndConfirm(mac, requested, server, net, duration, hostname) =>
      AfterConfirm(t, mac, requested, server, net, duration, hostname, now)
    case RecordConflict(ip, duration) => t.(conflicts := t.conflicts[ip := now + duration])
    case Release(mac) => Removed(t, mac)
    case EvictExpired => Evicted(t, now)
    case AddNeighbor(mac, ip) => Neighbor(t, mac, ip, now)
    case GetExistingIp(_) => t
    case CheckConflict(_, _) => t
    case GetActiveLeases => t
  }

  const EMPTY := Table(map[], {}, map[], map[], {})

  datatype Event = Event(cmd: Cmd, at: Time)

  ghost predicate Ordered(run: seq<Event>) {
    forall i, j | 0 <= i <= j < |run| :: run[i].at <= run[j].at
  }

  /** The table after the first `n` commands of a run. */
  ghost function StateAt(run: seq<Event>, n: nat): Table
    requires n <= |run|
  {
    if n == 0 then EMPTY else Step(StateAt(run, n - 1), run[n - 1].cmd, run[n - 1].at)
  }

  // ---- the address index ----

  ghost predicate IndexSound(t: Table) {
    t.held <= Ips(t.byMac)
  }

  ghost predicate IndexExact(t: Table) {
    t.held == Ips(t.byMac)
  }

  lemma InsertKeepsIndex(t: Table, mac: Mac, lease: Lease)
    requires IndexSound(t)
    ensures IndexSound(Inserted(t, mac, lease))
  {
    var t' := Inserted(t, mac, lease);
    assert lease.ip in Ips(t'.byMac) by {
      assert t'.byMac[mac].ip == lease.ip;
    }
    forall ip | ip in t'.held
      ensures ip in Ips(t'.byMac)
    {
      if ip != lease.ip {
        var m :| m in t.byMac && t.byMac[m].ip == ip;
        assert t'.byMac[m].ip == ip;
      }
    }
  }

  lemma RemoveKeepsIndex(t: Table, mac: Mac)
    requires IndexSound(t)
    ensures IndexSound(Removed(t, mac))
  {
    var t' := Removed(t, mac);
    forall ip | ip in t'.held
      ensures ip in Ips(t'.byMac)
    {
      var m :| m in t.byMac && t.byMac[m].ip == ip;
      assert mac in t.byMac ==> t'.byMac[m].ip == ip;
    }
  }

  lemma {:induction false} DropMovedKeepsIndex(t: Table, leases: seq<StaticLease>, n: nat)
    requires n <= |leases| && IndexSound(t)
    ensures IndexSound(DropMoved(t, leases, n))
  {
    if n > 0 {
      DropMovedKeepsIndex(t, leases, n - 1);
      RemoveKeepsIndex(DropMoved(t, leases, n - 1), leases[n - 1].mac);
    }
  }

  lemma StepKeepsIndex(t: Table, cmd: Cmd, now: Time)
    requires IndexSound(t)
    ensures IndexSound(Step(t, cmd, now))
    ensures cmd == EvictExpired ==> IndexExact(Step(t, cmd, now))
  {
    hide Inserted, Removed, DropMoved, IndexSound, LowestFree;
    EvictMakesExact(t, now);
    match cmd {
      case SetStaticLeases(leases) =>
        DropMovedKeepsIndex(t, leases, |leases|);
        SameIndex(DropMoved(t, leases, |leases|), Step(t, cmd, now));
      case AllocateCandidate(mac, net, server) =>
        var base := if mac in t.statics then t else Evicted(t, now);
        var ip := Candidate(t, mac, net, server, now);
        if ip.Some? {
          InsertKeepsIndex(base, mac, Lease(ip.value, now + CANDIDATE_HOLD_DURATION,
                                            if mac in t.statics then t.statics[mac].hostname else None));
        }
      case ConfirmLease(mac, ip, duration, hostname) =>
        InsertKeepsIndex(t, mac, Lease(ip, now + duration, hostname));
      case ValidateAndConfirm(mac, requested, server, net, duration, hostname) =>
        var c := Confirm(t, mac, requested, server, net, hostname, now);
        if c.Some? {
          InsertKeepsIndex(t, mac, Lease(c.value.ip, now + duration, c.value.hostname));
        }
      case Release(mac) =>
        RemoveKeepsIndex(t, mac);
      case AddNeighbor(mac, ip) =>
        InsertKeepsIndex(t, mac, Lease(ip, now + NEIGHBOR_HOLD_DURATION,
                                       if mac in t.statics then t.statics[mac].hostname else None));
      case RecordConflict(ip, duration) =>
        SameIndex(t, Step(t, cmd, now));
      case _ =>
    }
  }

  lemma SameIndex(t: Table, t': Table)
    requires IndexSound(t) && t'.byMac == t.byMac && t'.held == t.held
    ensures IndexSound(t')
  {
  }

  lemma EvictMakesExact(t: Table, now: Time)
    ensures IndexExact(Evicted(t, now)) && IndexSound(Evicted(t, now))
  {
  }

  /** In every run the index only holds addresses of leases in the table, and exactly those after eviction. */
  lemma {:induction false} IndexInEveryRun(run: seq<Event>, n: nat)
    requires n <= |run|
    ensures IndexSound(StateAt(run, n))
    ensures n > 0 && run[n - 1].cmd == EvictExpired ==> IndexExact(StateAt(run, n))
  {
    hide Step, Evicted;
    if n > 0 {
      IndexInEveryRun(run, n - 1);
      StepKeepsIndex(StateAt(run, n - 1), run[n - 1].cmd, run[n - 1].at);
    }
  }

  /** Some MAC other than `mac` has a lease for `ip`, expired or not. */
  ghost predicate SharedWith(t: Table, ip: Ip, mac: Mac) {
    exists other | other in t.byMac :: other != mac && t.byMac[other].ip == ip
  }

  /** Replacing a lease leaves the index exact exactly if nobody else has a lease for the address given up. */
  lemma InsertExactIff(t: Table, mac: Mac, lease: Lease)
    requires IndexExact(t)
    ensures IndexExact(Inserted(t, mac, lease)) <==>
            (mac in t.byMac && t.byMac[mac].ip != lease.ip ==> !SharedWith(t, t.byMac[mac].ip, mac))
  {
    var t' := Inserted(t, mac, lease);
    InsertKeepsIndex(t, mac, lease);
    forall ip
      ensures ip in Ips(t'.byMac) <==> ip == lease.ip || SharedWith(t, ip, mac)
    {
      if ip == lease.ip {
        assert t'.byMac[mac].ip == ip;
      } else if SharedWith(t, ip, mac) {
        var other :| other in t.byMac && other != mac && t.byMac[other].ip == ip;
        assert t'.byMac[other].ip == ip;
      }
    }
  }

  lemma RemoveExactIff(t: Table, mac: Mac)
    requires IndexExact(t)
    ensures IndexExact(Removed(t, mac)) <==> (mac in t.byMac ==> !SharedWith(t, t.byMac[mac].ip, mac))
  {
    var t' := Removed(t, mac);
    if mac in t.byMac {
      forall ip
        ensures ip in Ips(t'.byMac) <==> SharedWith(t, ip, mac)
      {
        if SharedWith(t, ip, mac) {
          var other :| other in t.byMac && other != mac && t.byMac[other].ip == ip;
          assert t'.byMac[other].ip == ip;
        }
      }
    }
  }

  /** One of the first `n` reservations is for this MAC, with another address than this one. */
  ghost predicate MovedBy(leases: seq<StaticLease>, n: nat, mac: Mac, ip: Ip)
    requires n <= |leases|
  {
    exists i | 0 <= i < n :: leases[i].mac == mac && leases[i].ip != ip
  }

  /** The addresses of the leases that the reservations contradict. */
  ghost function GivenUp(t: Table, leases: seq<StaticLease>, n: nat): set<Ip>
    requires n <= |leases|
  {
    set mac | mac in t.byMac && MovedBy(leases, n, mac, t.byMac[mac].ip) :: t.byMac[mac].ip
  }

  // The loop over the reservations drops exactly the leases they contradict.
  lemma {:induction false} DropMovedIs(t: Table, leases: seq<StaticLease>, n: nat)
    requires n <= |leases|
    ensures var t' := DropMoved(t, leases, n);
            && (forall mac :: mac in t'.byMac <==> mac in t.byMac && !MovedBy(leases, n, mac, t.byMac[mac].ip))
            && (forall mac | mac in t'.byMac :: t'.byMac[mac] == t.byMac[mac])
            && t'.held == t.held - GivenUp(t, leases, n)
  {
    if n > 0 {
      DropMovedIs(t, leases, n - 1);
      forall mac, ip
        ensures MovedBy(leases, n, mac, ip) <==>
                MovedBy(leases, n - 1, mac, ip) || (leases[n - 1].mac == mac && leases[n - 1].ip != ip)
      {
        MovedByOneMore(leases, n, mac, ip);
      }
      GivenUpOneMore(t, leases, n);
    }
  }

  lemma {:induction false} MovedByOneMore(leases: seq<StaticLease>, n: nat, mac: Mac, ip: Ip)
    requires 0 < n <= |leases|
    ensures MovedBy(leases, n, mac, ip) <==>
            MovedBy(leases, n - 1, mac, ip) || (leases[n - 1].mac == mac && leases[n - 1].ip != ip)
  {
  }

  lemma {:induction false} GivenUpOneMore(t: Table, leases: seq<StaticLease>, n: nat)
    requires 0 < n <= |leases|
    ensures var l := leases[n - 1];
            GivenUp(t, leases, n) == GivenUp(t, leases, n - 1)
                                     + (if l.mac in t.byMac && t.byMac[l.mac].ip != l.ip then {t.byMac[l.mac].ip} else {})
  {
    hide MovedBy;
    forall mac | mac in t.byMac
      ensures MovedBy(leases, n, mac, t.byMac[mac].ip) <==>
              MovedBy(leases, n - 1, mac, t.byMac[mac].ip) || (leases[n - 1].mac == mac && leases[n - 1].ip != t.byMac[mac].ip)
    {
      MovedByOneMore(leases, n, mac, t.byMac[mac].ip);
    }
  }

  /** Some lease that stays is for the address of one that the reservations contradict. */
  ghost predicate KeepsGivenUp(t: Table, leases: seq<StaticLease>) {
    exists mac | mac in t.byMac ::
      !MovedBy(leases, |leases|, mac, t.byMac[mac].ip) && t.byMac[mac].ip in GivenUp(t, leases, |leases|)
  }

  lemma {:induction false} SetStaticsExactIff(t: Table, leases: seq<StaticLease>)
    requires IndexExact(t)
    ensures IndexExact(SetStatics(t, leases)) <==> !KeepsGivenUp(t, leases)
  {
    hide MovedBy, GivenUp, DropMoved;
    DropMovedIs(t, leases, |leases|);
    var t' := DropMoved(t, leases, |leases|);
    forall ip
      ensures ip in Ips(t'.byMac) <==>
              exists mac | mac in t.byMac :: !MovedBy(leases, |leases|, mac, t.byMac[mac].ip) && t.byMac[mac].ip == ip
    {
      if mac :| mac in t.byMac && !MovedBy(leases, |leases|, mac, t.byMac[mac].ip) && t.byMac[mac].ip == ip {
        assert t'.byMac[mac].ip == ip;
      }
    }
    if KeepsGivenUp(t, leases) {
      var mac :| mac in t.byMac && !MovedBy(leases, |leases|, mac, t.byMac[mac].ip)
                 && t.byMac[mac].ip in GivenUp(t, leases, |leases|);
      assert t.byMac[mac].ip in Ips(t'.byMac) && t.byMac[mac].ip !in t'.held;
    } else {
      GivenUpIsMoved(t, leases);
    }
  }

  lemma {:induction false} GivenUpIsMoved(t: Table, leases: seq<StaticLease>)
    ensures forall ip | ip in Ips(t.byMac) && ip !in GivenUp(t, leases, |leases|) ::
              exists mac | mac in t.byMac :: !MovedBy(leases, |leases|, mac, t.byMac[mac].ip) && t.byMac[mac].ip == ip
  {
    hide MovedBy;
    forall ip | ip in Ips(t.byMac) && ip !in GivenUp(t, leases, |leases|)
      ensures exists mac | mac in t.byMac :: !MovedBy(leases, |leases|, mac, t.byMac[mac].ip) && t.byMac[mac].ip == ip
    {
      var mac :| mac in t.byMac && t.byMac[mac].ip == ip;
      assert !MovedBy(leases, |leases|, mac, t.byMac[mac].ip);
    }
  }

  /** The MAC gives up an address that another lease is for. */
  ghost predicate LeavesShared(t: Table, mac: Mac, ip: Ip) {
    mac in t.byMac && t.byMac[mac].ip != ip && SharedWith(t, t.byMac[mac].ip, mac)
  }

  /** The command takes no address out of the index that some lease is still for. */
  ghost predicate ExactCommand(t: Table, cmd: Cmd, now: Time) {
    match cmd
    case SetStaticLeases(leases) => !KeepsGivenUp(t, leases)
    case AllocateCandidate(mac, net, server) =>
      var ip := Candidate(t, mac, net, server, now);
      ip.Some? ==> !LeavesShared(if mac in t.statics then t else Evicted(t, now), mac, ip.value)
    case ConfirmLease(mac, ip, _, _) => !LeavesShared(t, mac, ip)
    case ValidateAndConfirm(mac, requested, server, net, _, hostname) =>
      var c := Confirm(t, mac, requested, server, net, hostname, now);
      c.Some? ==> !LeavesShared(t, mac, c.value.ip)
    case AddNeighbor(mac, ip) => Records(t, mac, ip) ==> !LeavesShared(t, mac, ip)
    case Release(mac) => mac in t.byMac ==> !SharedWith(t, t.byMac[mac].ip, mac)
    case _ => true
  }

  /** A command leaves the index exact exactly if it is one of these. */
  lemma {:induction false} StepExactIff(t: Table, cmd: Cmd, now: Time)
    requires IndexExact(t)
    ensures IndexExact(Step(t, cmd, now)) <==> ExactCommand(t, cmd, now)
  {
    hide Inserted, Removed, SetStatics, IndexExact, Candidate, Confirm, KeepsGivenUp, SharedWith, Evicted;
    match cmd {
      case SetStaticLeases(leases) => SetStaticsExactIff(t, leases);
      case AllocateCandidate(mac, net, server) =>
        EvictMakesExact(t, now);
        var ip := Candidate(t, mac, net, server, now);
        if ip.Some? {
          InsertExactIff(if mac in t.statics then t else Evicted(t, now), mac,
                         Lease(ip.value, now + CANDIDATE_HOLD_DURATION, if mac in t.statics then t.statics[mac].hostname else None));
        }
      case ConfirmLease(mac, ip, duration, hostname) => InsertExactIff(t, mac, Lease(ip, now + duration, hostname));
      case ValidateAndConfirm(mac, requested, server, net, duration, hostname) =>
        var c := Confirm(t, mac, requested, server, net, hostname, now);
        if c.Some? {
          InsertExactIff(t, mac, Lease(c.value.ip, now + duration, c.value.hostname));
        }
      case AddNeighbor(mac, ip) =>
        InsertExactIff(t, mac, Lease(ip, now + NEIGHBOR_HOLD_DURATION, if mac in t.statics then t.statics[mac].hostname else None));
      case Release(mac) => RemoveExactIff(t, mac);
      case EvictExpired => EvictMakesExact(t, now);
      case RecordConflict(ip, duration) => SameExactness(t, Step(t, cmd, now));
      case _ =>
    }
  }

  lemma SameExactness(t: Table, t': Table)
    requires IndexExact(t) && t'.byMac == t.byMac && t'.held == t.held
    ensures IndexExact(t')
  {
  }

  ghost predicate ExactThroughout(run: seq<Event>, n: nat)
    requires n <= |run|
  {
    forall i: nat | i <= n :: IndexExact(StateAt(run, i))
  }

  ghost predicate ExactRun(run: seq<Event>, n: nat)
    requires n <= |run|
  {
    forall i: nat | i < n :: ExactCommand(StateAt(run, i), run[i].cmd, run[i].at)
  }

  /** The index is exact throughout a run exactly if every command in it is such a command. */
  lemma {:induction false} IndexExactIff(run: seq<Event>, n: nat)
    requires n <= |run|
    ensures ExactThroughout(run, n) <==> ExactRun(run, n)
  {
    hide Step, ExactCommand, IndexExact;
    if n == 0 {
      StartsExact();
    } else {
      IndexExactIff(run, n - 1);
      if ExactThroughout(run, n - 1) {
        StepExactIff(StateAt(run, n - 1), run[n - 1].cmd, run[n - 1].at);
      }
      assert ExactThroughout(run, n) <==> ExactThroughout(run, n - 1) && IndexExact(StateAt(run, n));
      assert ExactRun(run, n) <==> ExactRun(run, n - 1) && ExactCommand(StateAt(run, n - 1), run[n - 1].cmd, run[n - 1].at);
    }
  }

  lemma StartsExact()
    ensures IndexExact(EMPTY)
  {
  }

  /** Two MACs seen with one address: releasing one takes the address out of the index while the other holds it. */
  lemma IndexCanMissALease()
    ensures var t := StateAt([Event(AddNeighbor(1, 9), 0), Event(AddNeighbor(2, 9), 0), Event(Release(1), 0)], 3);
            9 in Ips(t.byMac) && 9 !in t.held
  {
    var run := [Event(AddNeighbor(1, 9), 0), Event(AddNeighbor(2, 9), 0), Event(Release(1), 0)];
    assert StateAt(run, 1).byMac == map[1 := Lease(9, NEIGHBOR_HOLD_DURATION, None)];
    assert StateAt(run, 2).byMac.Keys == {1, 2} && StateAt(run, 2).byMac[2].ip == 9;
    var t := StateAt(run, 3);
    assert 2 in t.byMac && t.byMac[2].ip == 9;
  }

  // ---- allocation ----

  lemma {:induction false} LowestFreeIsLowest(t: Table, server: Ip, now: Time, lo: nat, hi: Ip)
    ensures var r := LowestFree(t, server, now, lo, hi);
            match r
            case None => forall x: Ip | lo <= x <= hi :: !Free(t, x, server, now)
            case Some(ip) => lo <= ip <= hi && Free(t, ip, server, now)
                             && forall x: Ip | lo <= x < ip :: !Free(t, x, server, now)
    decreases hi + 1 - lo
  {
    if lo <= hi && !Free(t, lo, server, now) {
      LowestFreeIsLowest(t, server, now, lo + 1, hi);
    }
  }

  /**
   May be given to a client without a reservation: a host address, not the
   server's, that nobody has an unexpired lease for and that is not in conflict
   or reserved.
   */
  ghost predicate Assignable(t: Table, ip: Ip, net: Cidr, server: Ip, now: Time) {
    && (if net.prefix < 31 then net.Network() < ip < net.Broadcast() else net.Contains(ip))
    && ip != server && ip !in t.reserved && (ip in t.conflicts ==> t.conflicts[ip] <= now)
    && forall mac | mac in t.byMac && t.byMac[mac].expiry > now :: t.byMac[mac].ip != ip
  }

  ghost predicate LowestAssignable(r: Option<Ip>, t: Table, net: Cidr, server: Ip, now: Time) {
    match r
    case None => forall x: Ip :: !Assignable(t, x, net, server, now)
    case Some(ip) => Assignable(t, ip, net, server, now) && forall x: Ip | x < ip :: !Assignable(t, x, net, server, now)
  }

  lemma {:induction false} FreeAfterEviction(t: Table, ip: Ip, net: Cidr, server: Ip, now: Time)
    requires IsHostOf(net, ip)
    ensures Free(Evicted(t, now), ip, server, now) <==> Assignable(t, ip, net, server, now)
  {
    var kept := Evicted(t, now).byMac;
    if mac :| mac in t.byMac && t.byMac[mac].expiry > now && t.byMac[mac].ip == ip {
      assert kept[mac].ip == ip;
    }
  }

  lemma {:induction false} AssignableIsHost(t: Table, ip: Ip, net: Cidr, server: Ip, now: Time)
    ensures Assignable(t, ip, net, server, now) ==> IsHostOf(net, ip)
  {
  }

  /** The search of the table after eviction yields the lowest assignable address, and none only if there is none. */
  lemma {:induction false} SearchIsLowest(t: Table, net: Cidr, server: Ip, now: Time)
    ensures LowestAssignable(LowestFree(Evicted(t, now), server, now, FirstHost(net), LastHost(net)), t, net, server, now)
  {
    hide Free, Evicted, FirstHost, LastHost, Assignable, IsHostOf;
    LowestFreeIsLowest(Evicted(t, now), server, now, FirstHost(net), LastHost(net));
    forall x: Ip
      ensures FirstHost(net) <= x <= LastHost(net) ==>
                (Free(Evicted(t, now), x, server, now) <==> Assignable(t, x, net, server, now))
      ensures Assignable(t, x, net, server, now) ==> FirstHost(net) <= x <= LastHost(net)
    {
      HostRange(net, x);
      AssignableIsHost(t, x, net, server, now);
      if IsHostOf(net, x) {
        FreeAfterEviction(t, x, net, server, now);
      }
    }
  }

  /** Allocation answers with the lowest assignable address, and with none only if there is none. */
  lemma {:induction false} CandidateIsLowest(t: Table, mac: Mac, net: Cidr, server: Ip, now: Time)
    requires mac !in t.statics
    ensures match Candidate(t, mac, net, server, now)
            case None => forall x: Ip :: !Assignable(t, x, net, server, now)
            case Some(ip) => Assignable(t, ip, net, server, now)
                             && forall x: Ip | x < ip :: !Assignable(t, x, net, server, now)
  {
    hide Assignable, LowestFree;
    SearchIsLowest(t, net, server, now);
  }

  // ---- no address is held twice ----

  /** No two unexpired leases of different MACs share an address. */
  ghost predicate NoLiveShare(t: Table, now: Time) {
    forall a, b | Live(t, a, now) && Live(t, b, now) && a != b :: t.byMac[a].ip != t.byMac[b].ip
  }

  lemma InsertSafeIff(t: Table, mac: Mac, lease: Lease, now: Time)
    requires NoLiveShare(t, now)
    ensures NoLiveShare(Inserted(t, mac, lease), now) <==> (lease.expiry > now ==> !TakenByOther(t, lease.ip, mac, now))
  {
    var t' := Inserted(t, mac, lease);
    assert forall m | m != mac :: Live(t', m, now) <==> Live(t, m, now);
    assert Live(t', mac, now) <==> lease.expiry > now;
    if lease.expiry > now && TakenByOther(t, lease.ip, mac, now) {
      var other :| Live(t, other, now) && other != mac && t.byMac[other].ip == lease.ip;
      assert Live(t', other, now);
    }
  }

  lemma FewerLeases(t: Table, t': Table, now: Time)
    requires NoLiveShare(t, now)
    requires forall m | m in t'.byMac :: m in t.byMac && t'.byMac[m] == t.byMac[m]
    ensures NoLiveShare(t', now)
  {
    assert forall m | Live(t', m, now) :: Live(t, m, now);
  }

  lemma {:induction false} DropMovedIsFewer(t: Table, leases: seq<StaticLease>, n: nat)
    requires n <= |leases|
    ensures forall m | m in DropMoved(t, leases, n).byMac :: m in t.byMac && DropMoved(t, leases, n).byMac[m] == t.byMac[m]
  {
    if n > 0 {
      DropMovedIsFewer(t, leases, n - 1);
    }
  }

  /** The two commands that insert without looking name an address nobody else holds. */
  ghost predicate SafeCommand(t: Table, cmd: Cmd, now: Time) {
    match cmd
    case ConfirmLease(mac, ip, duration, _) => duration > 0 ==> !TakenByOther(t, ip, mac, now)
    case AddNeighbor(mac, ip) => Records(t, mac, ip) ==> !TakenByOther(t, ip, mac, now)
    case _ => true
  }

  lemma AllocateSafe(t: Table, mac: Mac, net: Cidr, server: Ip, now: Time)
    requires NoLiveShare(t, now)
    ensures NoLiveShare(AfterAllocate(t, mac, net, server, now), now)
  {
    hide Inserted, LowestFree;
    var base := if mac in t.statics then t else Evicted(t, now);
    FewerLeases(t, base, now);
    var ip := Candidate(t, mac, net, server, now);
    if ip.Some? {
      if mac !in t.statics {
        CandidateIsLowest(t, mac, net, server, now);
        assert forall m | Live(base, m, now) :: Live(t, m, now);
      }
      assert !TakenByOther(base, ip.value, mac, now);
      InsertSafeIff(base, mac, Lease(ip.value, now + CANDIDATE_HOLD_DURATION,
                                     if mac in t.statics then t.statics[mac].hostname else None), now);
    }
  }

  /** A command keeps leases apart exactly if it is safe in this sense. */
  lemma StepSafeIff(t: Table, cmd: Cmd, now: Time)
    requires NoLiveShare(t, now)
    ensures NoLiveShare(Step(t, cmd, now), now) <==> SafeCommand(t, cmd, now)
  {
    hide Inserted, NoLiveShare, TakenByOther, AfterAllocate, DropMoved;
    match cmd {
      case SetStaticLeases(leases) =>
        DropMovedIsFewer(t, leases, |leases|);
        FewerLeases(t, Step(t, cmd, now), now);
      case AllocateCandidate(mac, net, server) =>
        AllocateSafe(t, mac, net, server, now);
      case ConfirmLease(mac, ip, duration, hostname) =>
        InsertSafeIff(t, mac, Lease(ip, now + duration, hostname), now);
      case ValidateAndConfirm(mac, requested, server, net, duration, hostname) =>
        var c := Confirm(t, mac, requested, server, net, hostname, now);
        if c.Some? {
          InsertSafeIff(t, mac, Lease(c.value.ip, now + duration, c.value.hostname), now);
        }
      case AddNeighbor(mac, ip) =>
        InsertSafeIff(t, mac, Lease(ip, now + NEIGHBOR_HOLD_DURATION,
                                    if mac in t.statics then t.statics[mac].hostname else None), now);
      case Release(mac) => FewerLeases(t, Step(t, cmd, now), now);
      case EvictExpired => FewerLeases(t, Step(t, cmd, now), now);
      case RecordConflict(ip, duration) => FewerLeases(t, Step(t, cmd, now), now);
      case _ =>
    }
  }

  lemma TimePasses(t: Table, now: Time, later: Time)
    requires NoLiveShare(t, now) && now <= later
    ensures NoLiveShare(t, later)
  {
    assert forall m | Live(t, m, later) :: Live(t, m, now);
  }

  ghost predicate SafeRun(run: seq<Event>, n: nat)
    requires n <= |run|
  {
    forall i: nat | i < n :: SafeCommand(StateAt(run, i), run[i].cmd, run[i].at)
  }

  ghost predicate NeverShared(run: seq<Event>, n: nat)
    requires n <= |run|
  {
    forall i: nat | i < n :: NoLiveShare(StateAt(run, i + 1), run[i].at)
  }

  lemma StartsUnshared(now: Time)
    ensures NoLiveShare(EMPTY, now)
  {
  }

  /**
   Under a clock that does not go back, no two unexpired leases ever share an
   address exactly if every confirmation and every neighbour entry names an
   address that no other MAC holds at the time.
   */
  lemma {:induction false} NeverSharedIff(run: seq<Event>, n: nat)
    requires n <= |run| && Ordered(run)
    ensures NeverShared(run, n) <==> SafeRun(run, n)
  {
    hide Step, SafeCommand, NoLiveShare;
    if n > 0 {
      NeverSharedIff(run, n - 1);
      var now := run[n - 1].at;
      if NeverShared(run, n - 1) {
        if n == 1 {
          StartsUnshared(now);
        } else {
          assert NoLiveShare(StateAt(run, (n - 2) + 1), run[n - 2].at);
          TimePasses(StateAt(run, n - 1), run[n - 2].at, now);
        }
        StepSafeIff(StateAt(run, n - 1), run[n - 1].cmd, now);
      }
      assert NeverShared(run, n) <==> NeverShared(run, n - 1) && NoLiveShare(StateAt(run, (n - 1) + 1), now);
      assert SafeRun(run, n) <==> SafeRun(run, n - 1) && SafeCommand(StateAt(run, n - 1), run[n - 1].cmd, now);
    }
  }

  /** The address on record for a client: its reservation, else its lease, expired or not. */
  function ExistingIp(t: Table, mac: Mac): Option<Ip> {
    if mac in t.statics then Some(t.statics[mac].ip)
    else if mac in t.byMac then Some(t.byMac[mac].ip)
    else None
  }

  /**
   The condition is not met by every run of the server: confirming the address
   on record, as a discover does, can name one that was leased to another
   client after the lease on record expired.
   */
  lemma DiscoverCanShare()
    ensures var net := Net(1, 30);
            var run := [Event(ValidateAndConfirm(1, Some(2), 1, net, LAN_LEASE, None), 0),
                        Event(ValidateAndConfirm(2, Some(2), 1, net, LAN_LEASE, None), LAN_LEASE),
                        Event(ConfirmLease(1, 2, LAN_LEASE, None), LAN_LEASE)];
            && ExistingIp(StateAt(run, 2), 1) == Some(2)
            && !NoLiveShare(StateAt(run, 3), LAN_LEASE)
  {
    var net := Net(1, 30);
    assert Pow2(2) == 4 && ClearLow(1, 2) == 0 by {
      assert ClearLow(0, 1) == 0;
    }
    assert net.Network() == 0 && net.Broadcast() == 3;
    var run := [Event(ValidateAndConfirm(1, Some(2), 1, net, LAN_LEASE, None), 0),
                Event(ValidateAndConfirm(2, Some(2), 1, net, LAN_LEASE, None), LAN_LEASE),
                Event(ConfirmLease(1, 2, LAN_LEASE, None), LAN_LEASE)];
    assert StateAt(run, 0) == EMPTY;
    assert StateAt(run, 1).byMac == map[1 := Lease(2, LAN_LEASE, None)];
    assert StateAt(run, 2).byMac == map[1 := Lease(2, LAN_LEASE, None), 2 := Lease(2, 2 * LAN_LEASE, None)];
    var t := StateAt(run, 3);
    assert t.byMac == map[1 := Lease(2, 2 * LAN_LEASE, None), 2 := Lease(2, 2 * LAN_LEASE, None)];
    assert Live(t, 1, LAN_LEASE) && Live(t, 2, LAN_LEASE);
  }

  // ---- reservations ----

  /** Reservations with distinct MACs and addresses, indexed consistently. */
  ghost predicate GoodStatics(t: Table) {
    && (forall m | m in t.statics :: t.statics[m].ip in t.reserved)
    && (forall ip | ip in t.reserved :: exists m | m in t.statics :: t.statics[m].ip == ip)
    && forall a, b | a in t.statics && b in t.statics && a != b :: t.statics[a].ip != t.statics[b].ip
  }

  /** The lease fits the reservations: the client's own address, or one that is nobody's. */
  predicate FitsReservations(t: Table, mac: Mac, ip: Ip) {
    if mac in t.statics then ip == t.statics[mac].ip else ip !in t.reserved
  }

  ghost predicate ReservationsKept(t: Table) {
    forall mac | mac in t.byMac :: FitsReservations(t, mac, t.byMac[mac].ip)
  }

  ghost predicate DistinctLeases(leases: seq<StaticLease>) {
    forall i, j | 0 <= i < j < |leases| :: leases[i].mac != leases[j].mac && leases[i].ip != leases[j].ip
  }

  // What the loop over distinct reservations builds.
  lemma {:induction false} StaticMapMembers(leases: seq<StaticLease>, n: nat)
    requires n <= |leases| && DistinctLeases(leases)
    ensures forall m :: m in StaticMap(leases, n) <==> exists i | 0 <= i < n :: leases[i].mac == m
    ensures forall i | 0 <= i < n :: StaticMap(leases, n)[leases[i].mac] == leases[i]
    ensures forall ip :: ip in ReservedIps(leases, n) <==> exists i | 0 <= i < n :: leases[i].ip == ip
  {
    if n > 0 {
      StaticMapMembers(leases, n - 1);
    }
  }

  lemma {:induction false} StaticMapIsGood(leases: seq<StaticLease>, t: Table)
    requires DistinctLeases(leases)
    requires t.statics == StaticMap(leases, |leases|) && t.reserved == ReservedIps(leases, |leases|)
    ensures GoodStatics(t)
  {
    hide StaticMap, ReservedIps;
    StaticMapMembers(leases, |leases|);
    forall ip | ip in t.reserved
      ensures exists m | m in t.statics :: t.statics[m].ip == ip
    {
      var i :| 0 <= i < |leases| && leases[i].ip == ip;
      assert t.statics[leases[i].mac] == leases[i];
    }
  }

  // What the loop builds of any reservations, distinct or not.
  lemma {:induction false} StaticMapLast(leases: seq<StaticLease>, n: nat, mac: Mac)
    requires n <= |leases|
    ensures mac in StaticMap(leases, n) <==> exists i | 0 <= i < n :: leases[i].mac == mac
    ensures mac in StaticMap(leases, n) ==> exists i | 0 <= i < n :: leases[i].mac == mac && StaticMap(leases, n)[mac] == leases[i]
  {
    if n > 0 {
      StaticMapLast(leases, n - 1, mac);
      if leases[n - 1].mac != mac && mac in StaticMap(leases, n - 1) {
        var i :| 0 <= i < n - 1 && leases[i].mac == mac && StaticMap(leases, n - 1)[mac] == leases[i];
        assert StaticMap(leases, n)[mac] == leases[i];
      }
    }
  }

  lemma {:induction false} ReservedIpsMembers(leases: seq<StaticLease>, n: nat, ip: Ip)
    requires n <= |leases|
    ensures ip in ReservedIps(leases, n) <==> exists i | 0 <= i < n :: leases[i].ip == ip
  {
    if n > 0 {
      ReservedIpsMembers(leases, n - 1, ip);
    }
  }

  ghost predicate HasReservation(leases: seq<StaticLease>, mac: Mac) {
    exists i | 0 <= i < |leases| :: leases[i].mac == mac
  }

  ghost predicate IsReserved(leases: seq<StaticLease>, ip: Ip) {
    exists i | 0 <= i < |leases| :: leases[i].ip == ip
  }

  // A lease that new reservations leave in the table fits them unless it is for an address reserved for others only.
  lemma {:induction false} FitsNewIff(t: Table, leases: seq<StaticLease>, mac: Mac)
    requires mac in SetStatics(t, leases).byMac
    ensures mac in t.byMac
    ensures FitsReservations(SetStatics(t, leases), mac, SetStatics(t, leases).byMac[mac].ip) <==>
            HasReservation(leases, mac) || !IsReserved(leases, t.byMac[mac].ip)
  {
    hide DropMoved, StaticMap, ReservedIps, GivenUp;
    DropMovedIs(t, leases, |leases|);
    StaticMapLast(leases, |leases|, mac);
    ReservedIpsMembers(leases, |leases|, t.byMac[mac].ip);
    if HasReservation(leases, mac) {
      var i :| 0 <= i < |leases| && leases[i].mac == mac && StaticMap(leases, |leases|)[mac] == leases[i];
      assert leases[i].ip == t.byMac[mac].ip;
    }
  }

  /** New reservations are kept from the start exactly if no client without one has a lease for an address in them. */
  lemma {:induction false} SetStaticsKeepsIff(t: Table, leases: seq<StaticLease>)
    ensures ReservationsKept(SetStatics(t, leases)) <==>
            forall mac | mac in t.byMac :: HasReservation(leases, mac) || !IsReserved(leases, t.byMac[mac].ip)
  {
    hide DropMoved, StaticMap, ReservedIps, HasReservation, IsReserved, FitsReservations;
    var t' := SetStatics(t, leases);
    forall mac | mac in t'.byMac
      ensures mac in t.byMac
      ensures FitsReservations(t', mac, t'.byMac[mac].ip) <==> HasReservation(leases, mac) || !IsReserved(leases, t.byMac[mac].ip)
    {
      FitsNewIff(t, leases, mac);
    }
    forall mac | mac in t.byMac && mac !in t'.byMac
      ensures HasReservation(leases, mac)
    {
      DroppedHasReservation(t, leases, mac);
    }
  }

  lemma {:induction false} DroppedHasReservation(t: Table, leases: seq<StaticLease>, mac: Mac)
    requires mac in t.byMac && mac !in SetStatics(t, leases).byMac
    ensures HasReservation(leases, mac)
  {
    hide DropMoved, StaticMap, ReservedIps, GivenUp;
    DropMovedIs(t, leases, |leases|);
  }

  /** Whether a command respects the reservations, those in force or those it sets. */
  ghost predicate RespectsReservations(t: Table, cmd: Cmd) {
    match cmd
    case SetStaticLeases(leases) =>
      forall mac | mac in t.byMac :: HasReservation(leases, mac) || !IsReserved(leases, t.byMac[mac].ip)
    case ConfirmLease(mac, ip, _, _) => FitsReservations(t, mac, ip)
    case AddNeighbor(mac, ip) => Records(t, mac, ip) ==> FitsReservations(t, mac, ip)
    case _ => true
  }

  lemma InsertKeepsReservationsIff(t: Table, mac: Mac, lease: Lease)
    requires ReservationsKept(t)
    ensures ReservationsKept(Inserted(t, mac, lease)) <==> FitsReservations(t, mac, lease.ip)
    ensures Inserted(t, mac, lease).statics == t.statics && Inserted(t, mac, lease).reserved == t.reserved
  {
    var t' := Inserted(t, mac, lease);
    assert t'.byMac[mac].ip == lease.ip;
    assert forall m | m in t'.byMac && m != mac :: FitsReservations(t, m, t.byMac[m].ip);
  }

  lemma EvictKeepsReservations(t: Table, now: Time)
    requires ReservationsKept(t)
    ensures ReservationsKept(Evicted(t, now))
    ensures Evicted(t, now).statics == t.statics && Evicted(t, now).reserved == t.reserved
  {
  }

  lemma RemoveKeepsReservations(t: Table, mac: Mac)
    requires ReservationsKept(t)
    ensures ReservationsKept(Removed(t, mac))
    ensures Removed(t, mac).statics == t.statics && Removed(t, mac).reserved == t.reserved
  {
  }

  lemma SameReservations(t: Table, t': Table)
    requires ReservationsKept(t) && t'.byMac == t.byMac && t'.statics == t.statics && t'.reserved == t.reserved
    ensures ReservationsKept(t')
  {
  }

  lemma CandidateFits(t: Table, mac: Mac, net: Cidr, server: Ip, now: Time)
    requires Candidate(t, mac, net, server, now).Some?
    ensures FitsReservations(t, mac, Candidate(t, mac, net, server, now).value)
  {
    if mac !in t.statics {
      CandidateIsLowest(t, mac, net, server, now);
    }
  }

  /** Every command but two unchecked insertions and a change keeps the reservations; those do exactly if they respect them. */
  lemma {:induction false} StepKeepsReservationsIff(t: Table, cmd: Cmd, now: Time)
    requires ReservationsKept(t)
    ensures ReservationsKept(Step(t, cmd, now)) <==> RespectsReservations(t, cmd)
    ensures !cmd.SetStaticLeases? ==> Step(t, cmd, now).statics == t.statics && Step(t, cmd, now).reserved == t.reserved
  {
    hide LowestFree, Candidate, Inserted, Evicted, Removed, ReservationsKept, HostnameTaken, TakenByOther, SetStatics,
         HasReservation, IsReserved;
    EvictKeepsReservations(t, now);
    match cmd {
      case SetStaticLeases(leases) =>
        SetStaticsKeepsIff(t, leases);
      case Release(mac) =>
        RemoveKeepsReservations(t, mac);
      case RecordConflict(ip, duration) =>
        SameReservations(t, Step(t, cmd, now));
      case AllocateCandidate(mac, net, server) =>
        var base := if mac in t.statics then t else Evicted(t, now);
        var ip := Candidate(t, mac, net, server, now);
        if ip.Some? {
          CandidateFits(t, mac, net, server, now);
          InsertKeepsReservationsIff(base, mac, Lease(ip.value, now + CANDIDATE_HOLD_DURATION,
                                                      if mac in t.statics then t.statics[mac].hostname else None));
        }
      case ConfirmLease(mac, ip, duration, hostname) =>
        InsertKeepsReservationsIff(t, mac, Lease(ip, now + duration, hostname));
      case ValidateAndConfirm(mac, requested, server, net, duration, hostname) =>
        var c := Confirm(t, mac, requested, server, net, hostname, now);
        if c.Some? {
          InsertKeepsReservationsIff(t, mac, Lease(c.value.ip, now + duration, c.value.hostname));
        }
      case AddNeighbor(mac, ip) =>
        InsertKeepsReservationsIff(t, mac, Lease(ip, now + NEIGHBOR_HOLD_DURATION,
                                                 if mac in t.statics then t.statics[mac].hostname else None));
      case _ =>
    }
  }

  ghost predicate ReservationsThroughout(run: seq<Event>, n: nat)
    requires n <= |run|
  {
    forall i: nat | i <= n :: ReservationsKept(StateAt(run, i))
  }

  ghost predicate RespectingRun(run: seq<Event>, n: nat)
    requires n <= |run|
  {
    forall i: nat | i < n :: RespectsReservations(StateAt(run, i), run[i].cmd)
  }

  lemma NothingToKeep()
    ensures ReservationsKept(EMPTY)
  {
  }

  /** In every run, whatever changes of reservations it has, all leases fit them throughout exactly if every command respects them. */
  lemma {:induction false} ReservationsThroughoutIff(run: seq<Event>, n: nat)
    requires n <= |run|
    ensures ReservationsThroughout(run, n) <==> RespectingRun(run, n)
  {
    hide Step, ReservationsKept, RespectsReservations;
    if n == 0 {
      NothingToKeep();
    } else {
      ReservationsThroughoutIff(run, n - 1);
      if ReservationsThroughout(run, n - 1) {
        StepKeepsReservationsIff(StateAt(run, n - 1), run[n - 1].cmd, run[n - 1].at);
      }
      assert ReservationsThroughout(run, n) <==> ReservationsThroughout(run, n - 1) && ReservationsKept(StateAt(run, n));
      assert RespectingRun(run, n) <==> RespectingRun(run, n - 1) && RespectsReservations(StateAt(run, n - 1), run[n - 1].cmd);
    }
  }

  /** The reservations in force after the first `n` commands. */
  ghost function InForce(run: seq<Event>, n: nat): seq<StaticLease>
    requires n <= |run|
  {
    if n == 0 then []
    else if run[n - 1].cmd.SetStaticLeases? then run[n - 1].cmd.leases
    else InForce(run, n - 1)
  }

  /** The commands that change reservations have distinct ones. */
  ghost predicate DistinctReservations(run: seq<Event>) {
    forall i | 0 <= i < |run| :: run[i].cmd.SetStaticLeases? ==> DistinctLeases(run[i].cmd.leases)
  }

  lemma {:induction false} StaticsInEveryRun(run: seq<Event>, n: nat)
    requires n <= |run| && DistinctReservations(run)
    ensures DistinctLeases(InForce(run, n)) && GoodStatics(StateAt(run, n))
    ensures StateAt(run, n).statics == StaticMap(InForce(run, n), |InForce(run, n)|)
    ensures StateAt(run, n).reserved == ReservedIps(InForce(run, n), |InForce(run, n)|)
  {
    hide Step, GoodStatics, DistinctLeases;
    if n == 0 {
      NoStatics();
    } else {
      var t, e := StateAt(run, n - 1), run[n - 1];
      StaticsInEveryRun(run, n - 1);
      if e.cmd.SetStaticLeases? {
        StaticsAreSet(t, e.cmd.leases, e.at);
        StaticMapIsGood(e.cmd.leases, StateAt(run, n));
      } else {
        StaticsStay(t, e.cmd, e.at);
        StaticMapIsGood(InForce(run, n), StateAt(run, n));
      }
    }
  }

  lemma NoStatics()
    ensures DistinctLeases([]) && GoodStatics(EMPTY)
  {
  }

  lemma StaticsAreSet(t: Table, leases: seq<StaticLease>, now: Time)
    ensures var t' := Step(t, SetStaticLeases(leases), now);
            t'.statics == StaticMap(leases, |leases|) && t'.reserved == ReservedIps(leases, |leases|)
  {
    hide DropMoved, StaticMap, ReservedIps;
  }

  lemma {:induction false} StaticsStay(t: Table, cmd: Cmd, now: Time)
    requires !cmd.SetStaticLeases?
    ensures Step(t, cmd, now).statics == t.statics && Step(t, cmd, now).reserved == t.reserved
  {
    hide LowestFree, Candidate, Confirm;
  }

  /**
   In a run that respects its reservations a client with a reservation in force
   is on its reserved address or on none, and no other client has a lease for
   that address, whether expired or not.
   */
  lemma {:induction false} ReservedAddressIsKept(run: seq<Event>, n: nat, k: nat, mac: Mac)
    requires n <= |run| && DistinctReservations(run) && RespectingRun(run, n)
    requires k < |InForce(run, n)| && mac in StateAt(run, n).byMac
    ensures StateAt(run, n).byMac[mac].ip == InForce(run, n)[k].ip <==> mac == InForce(run, n)[k].mac
  {
    hide Step, RespectsReservations, InForce, StaticMap, ReservedIps, GoodStatics;
    var leases := InForce(run, n);
    StaticsInEveryRun(run, n);
    StaticMapMembers(leases, |leases|);
    ReservationsThroughoutIff(run, n);
    assert ReservationsKept(StateAt(run, n));
    assert FitsReservations(StateAt(run, n), mac, StateAt(run, n).byMac[mac].ip);
  }

  // ---- the table itself ----

  lemma {:induction false} PastIsFixed(run: seq<Event>, e: Event, n: nat)
    requires n <= |run|
    ensures StateAt(run + [e], n) == StateAt(run, n)
  {
    if n > 0 {
      PastIsFixed(run, e, n - 1);
    }
  }

  /** A line of the list of leases; a reservation without a lease is listed as expired. */
  datatype LeaseInfo = LeaseInfo(mac: Mac, ip: Ip, hostname: Option<string>, expiresInSeconds: nat, isStatic: bool)

  function InfoFor(t: Table, mac: Mac, now: Time): LeaseInfo
    requires Known(t, mac, now)
  {
    if Live(t, mac, now) then
      LeaseInfo(mac, t.byMac[mac].ip, t.byMac[mac].hostname, (t.byMac[mac].expiry - now) / 1000, mac in t.statics)
    else
      LeaseInfo(mac, t.statics[mac].ip, t.statics[mac].hostname, 0, true)
  }

  predicate Known(t: Table, mac: Mac, now: Time) {
    Live(t, mac, now) || mac in t.statics
  }

  /** One line for each of these clients, and no other. */
  ghost predicate Lists(infos: seq<LeaseInfo>, t: Table, now: Time, macs: set<Mac>) {
    && (forall i, j | 0 <= i < j < |infos| :: infos[i].mac != infos[j].mac)
    && (forall mac | mac in macs :: Known(t, mac, now) && InfoFor(t, mac, now) in infos)
    && (forall i | 0 <= i < |infos| :: infos[i].mac in macs && infos[i] == InfoFor(t, infos[i].mac, now))
  }

  function Holders(t: Table, now: Time): set<Mac> {
    set mac | mac in t.byMac && t.byMac[mac].expiry > now
  }

  lemma NothingListed(t: Table, now: Time)
    ensures Lists([], t, now, {})
  {
  }

  lemma ListsOneMore(infos: seq<LeaseInfo>, t: Table, now: Time, macs: set<Mac>, mac: Mac)
    requires Lists(infos, t, now, macs) && mac !in macs && Known(t, mac, now)
    ensures Lists(infos + [InfoFor(t, mac, now)], t, now, macs + {mac})
  {
    var longer := infos + [InfoFor(t, mac, now)];
    assert longer[|infos|] in longer;
    forall m | m in macs
      ensures InfoFor(t, m, now) in longer
    {
      assert InfoFor(t, m, now) in infos;
    }
  }

  /** Appends a line for each of `more` to a list of lines for `macs`. */
  method ListEach(infos: seq<LeaseInfo>, t: Table, now: Time, macs: set<Mac>, more: set<Mac>) returns (longer: seq<LeaseInfo>)
    requires Lists(infos, t, now, macs) && macs !! more && forall mac | mac in more :: Known(t, mac, now)
    ensures Lists(longer, t, now, macs + more)
  {
    hide InfoFor, Lists, Known;
    longer := infos;
    var todo := more;
    ghost var listed := macs;
    while todo != {}
      invariant todo <= more && listed == macs + (more - todo) && Lists(longer, t, now, listed)
      decreases |todo|
    {
      var mac :| mac in todo;
      todo := todo - {mac};
      ListsOneMore(longer, t, now, listed, mac);
      longer := longer + [InfoFor(t, mac, now)];
      listed := listed + {mac};
    }
    assert listed == macs + more;
  }

  datatype Reply =
    | Done
    | ActiveLeases(infos: seq<LeaseInfo>)
    | LeasedIp(ip: Option<Ip>)
    | Confirmed(confirmation: Option<Confirmation>)
    | Conflict(found: bool)
    | Released(lease: Option<(Ip, Option<string>)>)
    | Expired(hostnames: seq<string>)

  class LeaseTable {
    var byMac: map<Mac, Lease>
    var held: set<Ip>
    var conflicts: map<Ip, Time>
    var statics: map<Mac, StaticLease>
    var reserved: set<Ip>

    ghost function State(): Table
      reads this
    {
      Table(byMac, held, conflicts, statics, reserved)
    }

    constructor ()
      ensures State() == EMPTY
    {
      byMac, held, conflicts, statics, reserved := map[], {}, map[], map[], {};
    }

    constructor WithStaticLeases(leases: seq<StaticLease>)
      ensures State() == SetStatics(EMPTY, leases)
    {
      var byReservation: map<Mac, StaticLease>, ips: set<Ip> := map[], {};
      for i := 0 to |leases|
        invariant byReservation == StaticMap(leases, i) && ips == ReservedIps(leases, i)
      {
        ips := ips + {leases[i].ip};
        byReservation := byReservation[leases[i].mac := leases[i]];
      }
      byMac, held, conflicts, statics, reserved := map[], {}, map[], byReservation, ips;
      DropMovedFromEmpty(leases, |leases|);
    }

    method Insert(mac: Mac, lease: Lease)
      modifies this`byMac, this`held
      ensures State() == Inserted(old(State()), mac, lease)
    {
      if mac in byMac {
        held := held - {byMac[mac].ip};
      }
      held := held + {lease.ip};
      byMac := byMac[mac := lease];
    }

    method Remove(mac: Mac) returns (lease: Option<Lease>)
      modifies this`byMac, this`held
      ensures State() == Removed(old(State()), mac)
      ensures lease == if mac in old(byMac) then Some(old(byMac)[mac]) else None
    {
      if mac !in byMac {
        return None;
      }
      lease := Some(byMac[mac]);
      byMac := byMac - {mac};
      held := held - {lease.value.ip};
    }

    method SetStaticLeases(leases: seq<StaticLease>)
      modifies this
      ensures State() == SetStatics(old(State()), leases)
    {
      var byReservation: map<Mac, StaticLease>, ips: set<Ip> := map[], {};
      for i := 0 to |leases|
        invariant byReservation == StaticMap(leases, i) && ips == ReservedIps(leases, i)
        invariant State() == DropMoved(old(State()), leases, i)
      {
        if leases[i].mac in byMac && byMac[leases[i].mac].ip != leases[i].ip {
          var _ := Remove(leases[i].mac);
        }
        ips := ips + {leases[i].ip};
        byReservation := byReservation[leases[i].mac := leases[i]];
      }
      reserved := ips;
      statics := byReservation;
    }

    /** Returns the names of the clients whose leases were evicted. */
    method Evict(now: Time) returns (hostnames: seq<string>)
      modifies this`byMac, this`held, this`conflicts
      ensures State() == Evicted(old(State()), now)
      ensures forall h :: h in hostnames <==> ExpiredName(old(State()), h, now)
    {
      hostnames := [];
      var kept: map<Mac, Lease> := map[];
      var todo := byMac.Keys;
      while todo != {}
        invariant todo <= byMac.Keys
        invariant kept == map mac | mac in byMac && mac !in todo && byMac[mac].expiry > now :: byMac[mac]
        invariant forall h :: h in hostnames <==>
                    exists mac | mac in byMac :: mac !in todo && byMac[mac].expiry <= now && byMac[mac].hostname == Some(h)
        decreases |todo|
      {
        var mac :| mac in todo;
        todo := todo - {mac};
        var lease := byMac[mac];
        if lease.expiry > now {
          kept := kept[mac := lease];
        } else if lease.hostname.Some? {
          hostnames := hostnames + [lease.hostname.value];
        }
      }
      byMac := kept;
      held := set mac | mac in byMac :: byMac[mac].ip;
      conflicts := map ip | ip in conflicts && conflicts[ip] > now :: conflicts[ip];
    }

    method NextAvailableIp(net: Cidr, server: Ip, now: Time) returns (ip: Option<Ip>)
      modifies this`byMac, this`held, this`conflicts
      ensures State() == Evicted(old(State()), now)
      ensures ip == LowestFree(State(), server, now, FirstHost(net), LastHost(net))
      ensures LowestAssignable(ip, old(State()), net, server, now)
    {
      hide LowestAssignable;
      SearchIsLowest(State(), net, server, now);
      var _ := Evict(now);
      var x: nat, last := FirstHost(net), LastHost(net);
      while x <= last
        invariant LowestFree(State(), server, now, x, last) == LowestFree(State(), server, now, FirstHost(net), last)
        decreases last + 1 - x
      {
        if x != server && x !in held && !(x in conflicts && conflicts[x] > now) && x !in reserved {
          return Some(x);
        }
        x := x + 1;
      }
      ip := None;
    }

    method IsIpTakenByOther(ip: Ip, mac: Mac, now: Time) returns (taken: bool)
      ensures taken <==> TakenByOther(State(), ip, mac, now)
    {
      taken := exists other | other in byMac :: byMac[other].ip == ip && byMac[other].expiry > now && other != mac;
      assert forall other :: Live(State(), other, now) <==> other in byMac && byMac[other].expiry > now;
    }

    method IsHostnameTakenByOther(name: string, mac: Mac, now: Time) returns (taken: bool)
      ensures taken <==> HostnameTaken(State(), name, mac, now)
    {
      taken := exists other | other in byMac :: other != mac && byMac[other].expiry > now && byMac[other].hostname == Some(name);
      assert forall other :: Live(State(), other, now) <==> other in byMac && byMac[other].expiry > now;
    }

    method AllocateCandidate(mac: Mac, net: Cidr, server: Ip, now: Time) returns (ip: Option<Ip>)
      modifies this
      ensures ip == Candidate(old(State()), mac, net, server, now)
      ensures State() == AfterAllocate(old(State()), mac, net, server, now)
    {
      if mac in statics {
        var reservedIp := statics[mac].ip;
        var taken := IsIpTakenByOther(reservedIp, mac, now);
        if net.Contains(reservedIp) && reservedIp != server && !taken {
          Insert(mac, Lease(reservedIp, now + CANDIDATE_HOLD_DURATION, statics[mac].hostname));
          return Some(reservedIp);
        }
        return None;
      }
      ip := NextAvailableIp(net, server, now);
      if ip.Some? {
        Insert(mac, Lease(ip.value, now + CANDIDATE_HOLD_DURATION, None));
      }
    }

    method ValidateAndConfirm(mac: Mac, requested: Option<Ip>, server: Ip, net: Cidr, duration: nat,
                              hostname: Option<string>, now: Time) returns (r: Option<Confirmation>)
      modifies this
      ensures r == Confirm(old(State()), mac, requested, server, net, hostname, now)
      ensures State() == AfterConfirm(old(State()), mac, requested, server, net, duration, hostname, now)
    {
      var asked := RequestTarget(Table(byMac, held, conflicts, statics, reserved), mac, requested);
      if asked.None? {
        return None;
      }
      var target := asked.value;
      var taken := IsIpTakenByOther(target, mac, now);
      if target == server || target == net.Network() || target == net.Broadcast() || !net.Contains(target) || taken {
        return None;
      }
      if mac in statics {
        if target != statics[mac].ip {
          return None;
        }
      } else if target in reserved {
        return None;
      }
      var previous := if mac in byMac then byMac[mac].hostname else None;
      var effective := if mac in statics && statics[mac].hostname.Some? then statics[mac].hostname else hostname;
      if effective.Some? {
        var nameTaken := IsHostnameTakenByOther(effective.value, mac, now);
        if nameTaken {
          effective := None;
        }
      }
      var deregister := if previous.Some? && previous != effective then previous else None;
      Insert(mac, Lease(target, now + duration, effective));
      r := Some(Confirmation(target, effective, deregister));
    }

    method UpdateFromNeighbor(mac: Mac, ip: Ip, now: Time)
      modifies this
      ensures State() == Neighbor(old(State()), mac, ip, now)
    {
      if mac == ZERO_MAC || mac == BROADCAST_MAC {
        return;
      }
      if mac in statics && ip != statics[mac].ip {
        return;
      }
      if mac in byMac && byMac[mac].ip == ip {
        return;
      }
      Insert(mac, Lease(ip, now + NEIGHBOR_HOLD_DURATION, if mac in statics then statics[mac].hostname else None));
    }

    method GetActiveLeases(now: Time) returns (infos: seq<LeaseInfo>)
      ensures Lists(infos, State(), now, Holders(State(), now) + statics.Keys)
    {
      hide InfoFor, Lists;
      var t := Table(byMac, held, conflicts, statics, reserved);
      var active := Holders(t, now);
      NothingListed(t, now);
      infos := ListEach([], t, now, {}, active);
      assert {} + active == active;
      infos := ListEach(infos, t, now, active, statics.Keys - active);
      assert active + (statics.Keys - active) == active + statics.Keys;
    }

    /** Looks at any one unexpired holder of the address; with two of them the answer is either. */
    method IsHeldByOther(ip: Ip, mac: Mac, now: Time) returns (found: bool)
      ensures MayAnswer(State(), ip, mac, now, found)
      ensures found ==> TakenByOther(State(), ip, mac, now)
      ensures TakenByOther(State(), ip, mac, now) && !Holds(State(), mac, ip, now) ==> found
    {
      if m :| m in byMac && byMac[m].ip == ip && byMac[m].expiry > now {
        assert Live(State(), m, now);
        found := m != mac;
      } else {
        assert forall m | Live(State(), m, now) :: m in byMac && byMac[m].expiry > now;
        found := false;
      }
    }
  }

  lemma {:induction false} DropMovedFromEmpty(leases: seq<StaticLease>, n: nat)
    requires n <= |leases|
    ensures DropMoved(EMPTY, leases, n) == EMPTY
  {
    if n > 0 {
      DropMovedFromEmpty(leases, n - 1);
    }
  }

  /** The actor that owns the table; `log` is the run of commands so far. */
  class LeaseActor {
    const leases: LeaseTable
    ghost var log: seq<Event>

    ghost predicate Valid()
      reads this, leases
    {
      leases.State() == StateAt(log, |log|)
    }

    constructor ()
      ensures Valid() && log == [] && fresh(leases)
    {
      leases := new LeaseTable();
      log := [];
    }

    method Handle(cmd: Cmd, now: Time) returns (reply: Reply)
      requires Valid()
      modifies this, leases
      ensures Valid() && log == old(log) + [Event(cmd, now)]
      ensures leases.State() == Step(old(leases.State()), cmd, now)
      ensures cmd.GetExistingIp? ==> reply == LeasedIp(ExistingIp(old(leases.State()), cmd.mac))
      ensures cmd.AllocateCandidate? ==>
                reply == LeasedIp(Candidate(old(leases.State()), cmd.mac, cmd.net, cmd.server, now))
      ensures cmd.ValidateAndConfirm? ==>
                reply == Confirmed(Confirm(old(leases.State()), cmd.mac, cmd.requested, cmd.server, cmd.net, cmd.hostname, now))
      ensures cmd.CheckConflict? ==>
                && reply.Conflict? && MayAnswer(old(leases.State()), cmd.ip, cmd.mac, now, reply.found)
                && (reply.found ==> TakenByOther(old(leases.State()), cmd.ip, cmd.mac, now))
                && (TakenByOther(old(leases.State()), cmd.ip, cmd.mac, now) && !Holds(old(leases.State()), cmd.mac, cmd.ip, now)
                    ==> reply.found)
      ensures cmd.Release? ==>
                var t := old(leases.State());
                reply == Released(if cmd.mac in t.byMac then Some((t.byMac[cmd.mac].ip, t.byMac[cmd.mac].hostname)) else None)
      ensures cmd.GetActiveLeases? ==>
                reply.ActiveLeases? && Lists(reply.infos, old(leases.State()), now, Holders(old(leases.State()), now) + old(leases.statics.Keys))
      ensures cmd.EvictExpired? ==> reply.Expired? && forall h :: h in reply.hostnames <==> ExpiredName(old(leases.State()), h, now)
    {
      hide AfterAllocate, AfterConfirm, Candidate, Confirm, Evicted, Inserted, Removed, Neighbor, SetStatics, Lists, MayAnswer;
      PastIsFixed(log, Event(cmd, now), |log|);
      log := log + [Event(cmd, now)];
      reply := Done;
      match cmd {
        case SetStaticLeases(ls) =>
          leases.SetStaticLeases(ls);
        case GetExistingIp(mac) =>
          reply := LeasedIp(if mac in leases.statics then Some(leases.statics[mac].ip)
                           else if mac in leases.byMac then Some(leases.byMac[mac].ip) else None);
        case AllocateCandidate(mac, net, server) =>
          var ip := leases.AllocateCandidate(mac, net, server, now);
          reply := LeasedIp(ip);
        case ConfirmLease(mac, ip, duration, hostname) =>
          leases.Insert(mac, Lease(ip, now + duration, hostname));
        case ValidateAndConfirm(mac, requested, server, net, duration, hostname) =>
          var c := leases.ValidateAndConfirm(mac, requested, server, net, duration, hostname, now);
          reply := Confirmed(c);
        case CheckConflict(ip, mac) =>
          var found := leases.IsHeldByOther(ip, mac, now);
          reply := Conflict(found);
        case RecordConflict(ip, duration) =>
          leases.conflicts := leases.conflicts[ip := now + duration];
        case Release(mac) =>
          var removed := leases.Remove(mac);
          reply := Released(if removed.Some? then Some((removed.value.ip, removed.value.hostname)) else None);
        case EvictExpired =>
          var expired := leases.Evict(now);
          reply := Expired(expired);
        case AddNeighbor(mac, ip) =>
          leases.UpdateFromNeighbor(mac, ip, now);
        case GetActiveLeases =>
          var infos := leases.GetActiveLeases(now);
          reply := ActiveLeases(infos);
      }
    }
  }
}
