/**
 Host names in the lease table (src/services/dhcp_server/lease_table.rs): which
 commands can give one name to two clients at a time.
 */
module LeaseNames {
  import opened Options
  import opened Ipv4
  import opened RouterConfig
  import opened DhcpLeases

  /** No two unexpired leases of different MACs have one name. */
  ghost predicate NoNameShare(t: Table, now: Time) {
    forall a, b | Live(t, a, now) && Live(t, b, now) && a != b ::
      t.byMac[a].hostname.Some? ==> t.byMac[a].hostname != t.byMac[b].hostname
  }

  /** Another client has the name. */
  ghost predicate NameClash(t: Table, hostname: Option<string>, mac: Mac, now: Time) {
    hostname.Some? && HostnameTaken(t, hostname.value, mac, now)
  }

  lemma {:induction false} InsertNameSafeIff(t: Table, mac: Mac, lease: Lease, now: Time)
    requires NoNameShare(t, now)
    ensures NoNameShare(Inserted(t, mac, lease), now) <==> (lease.expiry > now ==> !NameClash(t, lease.hostname, mac, now))
  {
    var t' := Inserted(t, mac, lease);
    assert forall m | m != mac :: Live(t', m, now) <==> Live(t, m, now);
    assert Live(t', mac, now) <==> lease.expiry > now;
    if lease.expiry > now && NameClash(t, lease.hostname, mac, now) {
      var other :| Live(t, other, now) && other != mac && t.byMac[other].hostname == lease.hostname;
      assert Live(t', other, now);
    }
  }

  lemma {:induction false} FewerNames(t: Table, t': Table, now: Time)
    requires NoNameShare(t, now)
    requires forall m | m in t'.byMac :: m in t.byMac && t'.byMac[m] == t.byMac[m]
    ensures NoNameShare(t', now)
  {
    assert forall m | Live(t', m, now) :: Live(t, m, now);
  }

  function StaticName(t: Table, mac: Mac): Option<string> {
    if mac in t.statics then t.statics[mac].hostname else None
  }

  /** The commands that give out a name without looking give one that no other client has. */
  ghost predicate SafeNameCommand(t: Table, cmd: Cmd, now: Time) {
    match cmd
    case ConfirmLease(mac, _, duration, hostname) => duration > 0 ==> !NameClash(t, hostname, mac, now)
    case AllocateCandidate(mac, net, server) =>
      Candidate(t, mac, net, server, now).Some? ==> !NameClash(t, StaticName(t, mac), mac, now)
    case AddNeighbor(mac, ip) => Records(t, mac, ip) ==> !NameClash(t, StaticName(t, mac), mac, now)
    case _ => true
  }

  // The name that a request is confirmed with is nobody else's.
  lemma {:induction false} ConfirmedNameIsFree(t: Table, mac: Mac, requested: Option<Ip>, server: Ip, net: Cidr, hostname: Option<string>, now: Time)
    ensures var c := Confirm(t, mac, requested, server, net, hostname, now);
            c.Some? ==> !NameClash(t, c.value.hostname, mac, now)
  {
    hide HostnameTaken, Confirmable;
  }

  lemma {:induction false} AllocateNameSafeIff(t: Table, mac: Mac, net: Cidr, server: Ip, now: Time)
    requires NoNameShare(t, now)
    ensures NoNameShare(AfterAllocate(t, mac, net, server, now), now) <==> SafeNameCommand(t, AllocateCandidate(mac, net, server), now)
  {
    hide Inserted, Candidate, NoNameShare, HostnameTaken;
    var base := if mac in t.statics then t else Evicted(t, now);
    FewerNames(t, base, now);
    var ip := Candidate(t, mac, net, server, now);
    if ip.Some? {
      InsertNameSafeIff(base, mac, Lease(ip.value, now + CANDIDATE_HOLD_DURATION, StaticName(t, mac)), now);
    }
  }

  /** A command keeps names apart exactly if it is safe in this sense. */
  lemma {:induction false} StepNameSafeIff(t: Table, cmd: Cmd, now: Time)
    requires NoNameShare(t, now)
    ensures NoNameShare(Step(t, cmd, now), now) <==> SafeNameCommand(t, cmd, now)
  {
    hide Inserted, NoNameShare, NameClash, AfterAllocate, DropMoved, Confirm, Candidate;
    match cmd {
      case SetStaticLeases(leases) =>
        DropMovedIsFewer(t, leases, |leases|);
        FewerNames(t, Step(t, cmd, now), now);
      case AllocateCandidate(mac, net, server) =>
        AllocateNameSafeIff(t, mac, net, server, now);
      case ConfirmLease(mac, ip, duration, hostname) =>
        InsertNameSafeIff(t, mac, Lease(ip, now + duration, hostname), now);
      case ValidateAndConfirm(mac, requested, server, net, duration, hostname) =>
        var c := Confirm(t, mac, requested, server, net, hostname, now);
        if c.Some? {
          ConfirmedNameIsFree(t, mac, requested, server, net, hostname, now);
          InsertNameSafeIff(t, mac, Lease(c.value.ip, now + duration, c.value.hostname), now);
        }
      case AddNeighbor(mac, ip) =>
        InsertNameSafeIff(t, mac, Lease(ip, now + NEIGHBOR_HOLD_DURATION, StaticName(t, mac)), now);
      case Release(mac) => FewerNames(t, Step(t, cmd, now), now);
      case EvictExpired => FewerNames(t, Step(t, cmd, now), now);
      case RecordConflict(ip, duration) => FewerNames(t, Step(t, cmd, now), now);
      case _ =>
    }
  }

  lemma {:induction false} NamesLater(t: Table, now: Time, later: Time)
    requires NoNameShare(t, now) && now <= later
    ensures NoNameShare(t, later)
  {
    assert forall m | Live(t, m, later) :: Live(t, m, now);
  }

  ghost predicate SafeNameRun(run: seq<Event>, n: nat)
    requires n <= |run|
  {
    forall i: nat | i < n :: SafeNameCommand(StateAt(run, i), run[i].cmd, run[i].at)
  }

  ghost predicate NamesNeverShared(run: seq<Event>, n: nat)
    requires n <= |run|
  {
    forall i: nat | i < n :: NoNameShare(StateAt(run, i + 1), run[i].at)
  }

  lemma StartsNameless(now: Time)
    ensures NoNameShare(EMPTY, now)
  {
  }

  /**
   Under a clock that does not go back, no two unexpired leases ever have one
   name exactly if every command that gives out a name without looking gives
   one that no other client has at the time.
   */
  lemma {:induction false} NamesNeverSharedIff(run: seq<Event>, n: nat)
    requires n <= |run| && Ordered(run)
    ensures NamesNeverShared(run, n) <==> SafeNameRun(run, n)
  {
    hide Step, SafeNameCommand, NoNameShare;
    if n > 0 {
      NamesNeverSharedIff(run, n - 1);
      var now := run[n - 1].at;
      if NamesNeverShared(run, n - 1) {
        if n == 1 {
          StartsNameless(now);
        } else {
          assert NoNameShare(StateAt(run, (n - 2) + 1), run[n - 2].at);
          NamesLater(StateAt(run, n - 1), run[n - 2].at, now);
        }
        StepNameSafeIff(StateAt(run, n - 1), run[n - 1].cmd, now);
      }
      assert NamesNeverShared(run, n) <==> NamesNeverShared(run, n - 1) && NoNameShare(StateAt(run, (n - 1) + 1), now);
      assert SafeNameRun(run, n) <==> SafeNameRun(run, n - 1) && SafeNameCommand(StateAt(run, n - 1), run[n - 1].cmd, now);
    }
  }

  /** Two clients that send a discover with one name both get it. */
  lemma DiscoversCanShareAName()
    ensures var run := [Event(ConfirmLease(1, 2, LAN_LEASE, Some("pc")), 0), Event(ConfirmLease(2, 3, LAN_LEASE, Some("pc")), 0)];
            NoLiveShare(StateAt(run, 2), 0) && !NoNameShare(StateAt(run, 2), 0)
  {
    var run := [Event(ConfirmLease(1, 2, LAN_LEASE, Some("pc")), 0), Event(ConfirmLease(2, 3, LAN_LEASE, Some("pc")), 0)];
    assert StateAt(run, 0) == EMPTY;
    assert StateAt(run, 1).byMac == map[1 := Lease(2, LAN_LEASE, Some("pc"))];
    var t := StateAt(run, 2);
    assert t.byMac == map[1 := Lease(2, LAN_LEASE, Some("pc")), 2 := Lease(3, LAN_LEASE, Some("pc"))];
    assert Live(t, 1, 0) && Live(t, 2, 0);
  }
}
