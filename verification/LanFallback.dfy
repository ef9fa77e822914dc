/**
 Moving the LAN to its fallback subnet when the WAN overlaps it
 (src/services/lan/manager.rs), and what happens to the configuration then.
 */
module LanFallback {
  import opened Options
  import opened Ipv4
  import opened RouterConfig

  // ---- when the LAN moves ----

  datatype WanLease = WanLease(ip: Option<Ip>, mask: Option<Ip>)

  /** The network of a WAN lease, if it has one with a mask the router acts on. */
  function WanNet(lease: WanLease): (r: Option<Net>)
    ensures r.Some? ==> r.value.Valid() && 8 <= r.value.prefix <= 30
  {
    if lease.ip.None? || lease.mask.None? then None
    else
      var prefix := MaskToPrefixLen(lease.mask.value);
      if prefix.None? || !(8 <= prefix.value <= 30) then None
      else Some(Net(lease.ip.value, prefix.value))
  }

  ghost predicate Conflicts(lease: WanLease, net: Net)
    requires net.Valid()
  {
    WanNet(lease).Some? && exists ip: Ip :: WanNet(lease).value.Contains(ip) && net.Contains(ip)
  }

  /** A WAN lease is in conflict exactly if it has an address and a mask of 8 to 30 bits whose block shares an address with the LAN. */
  lemma {:induction false} ConflictsIff(lease: WanLease, net: Net)
    requires net.Valid()
    ensures Conflicts(lease, net) <==>
            && lease.ip.Some? && lease.mask.Some?
            && exists p: nat, ip: Ip | 8 <= p <= 30 && PrefixLenToMask(p) == lease.mask.value ::
                 Net(lease.ip.value, p).Contains(ip) && net.Contains(ip)
  {
    if lease.ip.Some? && lease.mask.Some? {
      ContiguousMask(lease.mask.value);
      if p: nat, ip: Ip :| 8 <= p <= 30 && PrefixLenToMask(p) == lease.mask.value && Net(lease.ip.value, p).Contains(ip) && net.Contains(ip) {
        MaskRoundTrip(p);
        assert WanNet(lease) == Some(Net(lease.ip.value, p));
      }
    }
  }

  /** The LAN subnet after a look at the WAN lease. */
  ghost function Resolve(current: Net, backup: Net, lease: WanLease): Net
    requires current.Valid() && backup.Valid()
  {
    if Conflicts(lease, current) && !Conflicts(lease, backup) then backup else current
  }

  /** The subnet after the first `n` WAN leases. */
  ghost function SubnetAt(initial: Net, backup: Net, leases: seq<WanLease>, n: nat): (r: Net)
    requires initial.Valid() && backup.Valid() && n <= |leases|
    ensures r == initial || r == backup
  {
    if n == 0 then initial else Resolve(SubnetAt(initial, backup, leases, n - 1), backup, leases[n - 1])
  }

  /** The part of the LAN manager that decides where the LAN is. */
  class LanRunner {
    const initial: Net
    const backup: Net
    var current: Net
    ghost var seen: seq<WanLease>

    ghost predicate Valid()
      reads this
    {
      initial.Valid() && backup.Valid() && current == SubnetAt(initial, backup, seen, |seen|)
    }

    constructor (initial: Net, backup: Net)
      requires initial.Valid() && backup.Valid()
      ensures Valid() && seen == [] && current == initial
      ensures this.initial == initial && this.backup == backup
    {
      this.initial, this.backup, this.current, this.seen := initial, backup, initial, [];
    }

    /** Afterwards a conflict is left only if the fallback subnet is in conflict too. */
    method CheckAndResolve(lease: WanLease)
      requires Valid()
      modifies this
      ensures Valid() && seen == old(seen) + [lease]
      ensures current == Resolve(old(current), backup, lease)
      ensures Conflicts(lease, current) ==> Conflicts(lease, backup)
    {
      PastIsFixed(initial, backup, seen, lease, |seen|);
      seen := seen + [lease];
      var wan := WanNet(lease);
      if wan.None? {
        return;
      }
      OverlapIffShared(wan.value, current);
      OverlapIffShared(wan.value, backup);
      if !IsSubnetOverlap(wan.value, current) {
        return;
      }
      if current == backup {
        return;
      }
      if IsSubnetOverlap(wan.value, backup) {
        return;
      }
      current := backup;
    }
  }

  lemma {:induction false} PastIsFixed(initial: Net, backup: Net, leases: seq<WanLease>, lease: WanLease, n: nat)
    requires initial.Valid() && backup.Valid() && n <= |leases|
    ensures SubnetAt(initial, backup, leases + [lease], n) == SubnetAt(initial, backup, leases, n)
  {
    if n > 0 {
      PastIsFixed(initial, backup, leases, lease, n - 1);
    }
  }

  lemma {:induction false} StaysOnBackup(initial: Net, backup: Net, leases: seq<WanLease>, i: nat, j: nat)
    requires initial.Valid() && backup.Valid() && i <= j <= |leases|
    requires SubnetAt(initial, backup, leases, i) == backup
    ensures SubnetAt(initial, backup, leases, j) == backup
  {
    if i < j {
      StaysOnBackup(initial, backup, leases, i, j - 1);
    }
  }

  /**
   Over any run of WAN leases the LAN moves at most once, from the initial to
   the fallback subnet, and only when the WAN shares an address with the one
   and none with the other.
   */
  lemma MovesAtMostOnce(initial: Net, backup: Net, leases: seq<WanLease>, i: nat, j: nat)
    requires initial.Valid() && backup.Valid() && i < |leases| && j < |leases|
    requires SubnetAt(initial, backup, leases, i) != SubnetAt(initial, backup, leases, i + 1)
    requires SubnetAt(initial, backup, leases, j) != SubnetAt(initial, backup, leases, j + 1)
    ensures i == j
    ensures SubnetAt(initial, backup, leases, i) == initial && SubnetAt(initial, backup, leases, i + 1) == backup
    ensures Conflicts(leases[i], initial) && !Conflicts(leases[i], backup)
  {
    if i < j {
      StaysOnBackup(initial, backup, leases, i + 1, j);
    } else if j < i {
      StaysOnBackup(initial, backup, leases, j + 1, i);
    }
  }

  // ---- what the move does to the configuration ----

  /** The address with the same host offset in another network, unless it is not usable there. */
  function TranslateIp(ip: Ip, from: Net, to: Net): (r: Option<Ip>)
    requires from.Valid() && to.Valid()
  {
    if !from.Contains(ip) then None
    else
      var offset := ip - from.Network();
      if to.Network() + offset >= 0x1_0000_0000 then None
      else
        var mapped: Ip := to.Network() + offset;
        if to.Contains(mapped) && mapped != to.addr && mapped != to.Broadcast() then Some(mapped) else None
  }

  /** Translation keeps the offset, and fails exactly where that leaves the subnet or meets its router or last address. */
  lemma {:induction false} TranslateIff(ip: Ip, from: Net, to: Net, mapped: Ip)
    requires from.Valid() && to.Valid()
    ensures TranslateIp(ip, from, to) == Some(mapped) <==>
            && from.Network() <= ip <= from.Broadcast() && mapped - to.Network() == ip - from.Network()
            && mapped < to.Broadcast() && mapped != to.addr
  {
  }

  /** An address accepted at parse time translates, to a host with the same offset, and back to itself. */
  lemma AcceptedTranslates(ip: Ip, lan: Net, backup: Net)
    requires AreLanSubnets(lan, backup) && ValidateTargetIp(ip, lan, backup)
    ensures TranslateIp(ip, lan, backup).Some?
    ensures var mapped := TranslateIp(ip, lan, backup).value;
            && mapped - backup.Network() == ip - lan.Network()
            && IsHost(mapped, backup)
            && ValidateTargetIp(mapped, backup, lan)
            && TranslateIp(mapped, backup, lan) == Some(ip)
  {
    ValidateTargetIpIff(ip, lan, backup);
    assert lan.Size() == backup.Size();
  }

  function RemapLease(lease: StaticLease, from: Net, to: Net): (r: Option<StaticLease>)
    requires from.Valid() && to.Valid()
  {
    var mapped := TranslateIp(lease.ip, from, to);
    if mapped.Some? then Some(StaticLease(lease.mac, mapped.value, lease.hostname)) else None
  }

  function RemapForward(rule: PortForwardRule, from: Net, to: Net): (r: Option<PortForwardRule>)
    requires from.Valid() && to.Valid()
  {
    var mapped := TranslateIp(rule.internalIp, from, to);
    if mapped.Some? then Some(rule.(internalIp := mapped.value)) else None
  }

  /** The values a function has, in order, skipping where it has none. */
  ghost function FilterMap<S, T>(f: S -> Option<T>, s: seq<S>): seq<T> {
    if s == [] then []
    else
      var init := FilterMap(f, s[..|s| - 1]);
      if f(s[|s| - 1]).Some? then init + [f(s[|s| - 1]).value] else init
  }

  lemma {:induction false} FilterMapTotal<S, T>(f: S -> Option<T>, s: seq<S>)
    requires forall i | 0 <= i < |s| :: f(s[i]).Some?
    ensures |FilterMap(f, s)| == |s|
    ensures forall i | 0 <= i < |s| :: FilterMap(f, s)[i] == f(s[i]).value
  {
    if s != [] {
      FilterMapTotal(f, s[..|s| - 1]);
    }
  }

  method RemapStaticLeases(leases: seq<StaticLease>, primary: Net, target: Net) returns (r: seq<StaticLease>)
    requires primary.Valid() && target.Valid()
    ensures r == if primary == target then leases
                 else FilterMap(l => RemapLease(l, primary, target), leases)
  {
    if primary == target {
      return leases;
    }
    ghost var f := (l: StaticLease) => RemapLease(l, primary, target);
    r := [];
    for i := 0 to |leases|
      invariant r == FilterMap(f, leases[..i])
    {
      assert leases[..i + 1][..i] == leases[..i];
      var mapped := TranslateIp(leases[i].ip, primary, target);
      if mapped.Some? {
        r := r + [StaticLease(leases[i].mac, mapped.value, leases[i].hostname)];
      }
    }
    assert leases[..|leases|] == leases;
  }

  method RemapPortForwards(rules: seq<PortForwardRule>, primary: Net, target: Net) returns (r: seq<PortForwardRule>)
    requires primary.Valid() && target.Valid()
    ensures r == if primary == target then rules
                 else FilterMap(rule => RemapForward(rule, primary, target), rules)
  {
    if primary == target {
      return rules;
    }
    ghost var f := (rule: PortForwardRule) => RemapForward(rule, primary, target);
    r := [];
    for i := 0 to |rules|
      invariant r == FilterMap(f, rules[..i])
    {
      assert rules[..i + 1][..i] == rules[..i];
      var mapped := TranslateIp(rules[i].internalIp, primary, target);
      if mapped.Some? {
        r := r + [rules[i].(internalIp := mapped.value)];
      }
    }
    assert rules[..|rules|] == rules;
  }

  ghost predicate AcceptedLeases(leases: seq<StaticLease>, lan: Net, backup: Net)
    requires lan.Valid() && backup.Valid()
  {
    && (forall i | 0 <= i < |leases| :: ValidateTargetIp(leases[i].ip, lan, backup))
    && forall i, j | 0 <= i < j < |leases| :: !Clash(leases[i], leases[j])
  }

  ghost predicate AcceptedForwards(rules: seq<PortForwardRule>, lan: Net, backup: Net)
    requires lan.Valid() && backup.Valid()
  {
    && NoConflicts(rules)
    && forall i | 0 <= i < |rules| :: ValidateTargetIp(rules[i].internalIp, lan, backup)
  }

  // What configuration parsing accepts is accepted in this sense.
  lemma ParsedLeasesAccepted(leases: seq<StaticLease>, rs: seq<ReservationText>, lan: Net, backup: Net)
    requires lan.Valid() && backup.Valid()
    requires Reservations(leases, rs, |rs|, lan, backup) && AcceptableReservations(rs, |rs|, lan, backup)
    ensures AcceptedLeases(leases, lan, backup)
  {
  }

  lemma ParsedForwardsAccepted(rules: seq<PortForwardRule>, raw: seq<PortForwardText>, lan: Net, backup: Net)
    requires lan.Valid() && backup.Valid()
    requires Forwards(rules, raw, |raw|, lan, backup) && NoConflicts(rules)
    ensures AcceptedForwards(rules, lan, backup)
  {
  }

  /**
   Reservations accepted at parse time survive the move: all of them, in
   order, with their MACs, names and host offsets, still valid and distinct,
   and moving back restores them.
   */
  lemma LeasesSurvive(leases: seq<StaticLease>, lan: Net, backup: Net)
    requires AreLanSubnets(lan, backup) && AcceptedLeases(leases, lan, backup)
    ensures var moved := FilterMap(l => RemapLease(l, lan, backup), leases);
            && |moved| == |leases|
            && (forall i | 0 <= i < |leases| ::
                  && moved[i].mac == leases[i].mac && moved[i].hostname == leases[i].hostname
                  && moved[i].ip - backup.Network() == leases[i].ip - lan.Network()
                  && IsHost(moved[i].ip, backup))
            && AcceptedLeases(moved, backup, lan)
            && FilterMap(l => RemapLease(l, backup, lan), moved) == leases
  {
    var f, g := (l: StaticLease) => RemapLease(l, lan, backup), (l: StaticLease) => RemapLease(l, backup, lan);
    var moved := FilterMap(f, leases);
    forall i | 0 <= i < |leases|
      ensures f(leases[i]).Some? && g(f(leases[i]).value) == Some(leases[i])
      ensures f(leases[i]).value.ip - backup.Network() == leases[i].ip - lan.Network()
      ensures IsHost(f(leases[i]).value.ip, backup) && ValidateTargetIp(f(leases[i]).value.ip, backup, lan)
    {
      AcceptedTranslates(leases[i].ip, lan, backup);
    }
    FilterMapTotal(f, leases);
    FilterMapTotal(g, moved);
    assert FilterMap(g, moved) == leases;
  }

  /** The same for port forwards; what they listen on does not change. */
  lemma ForwardsSurvive(rules: seq<PortForwardRule>, lan: Net, backup: Net)
    requires AreLanSubnets(lan, backup) && AcceptedForwards(rules, lan, backup)
    ensures var moved := FilterMap(r => RemapForward(r, lan, backup), rules);
            && |moved| == |rules|
            && (forall i | 0 <= i < |rules| ::
                  && moved[i] == rules[i].(internalIp := moved[i].internalIp)
                  && moved[i].internalIp - backup.Network() == rules[i].internalIp - lan.Network()
                  && IsHost(moved[i].internalIp, backup))
            && AcceptedForwards(moved, backup, lan)
            && FilterMap(r => RemapForward(r, backup, lan), moved) == rules
  {
    var f, g := (r: PortForwardRule) => RemapForward(r, lan, backup), (r: PortForwardRule) => RemapForward(r, backup, lan);
    var moved := FilterMap(f, rules);
    forall i | 0 <= i < |rules|
      ensures f(rules[i]).Some? && g(f(rules[i]).value) == Some(rules[i])
      ensures f(rules[i]).value.internalIp - backup.Network() == rules[i].internalIp - lan.Network()
      ensures IsHost(f(rules[i]).value.internalIp, backup)
      ensures ValidateTargetIp(f(rules[i]).value.internalIp, backup, lan)
    {
      AcceptedTranslates(rules[i].internalIp, lan, backup);
    }
    FilterMapTotal(f, rules);
    FilterMapTotal(g, moved);
    assert FilterMap(g, moved) == rules;
    SameBindings(rules, moved);
  }

  // Conflicts depend on protocols and external ports only.
  lemma SameBindings(rules: seq<PortForwardRule>, moved: seq<PortForwardRule>)
    requires |moved| == |rules| && NoConflicts(rules)
    requires forall i | 0 <= i < |rules| :: moved[i] == rules[i].(internalIp := moved[i].internalIp)
    ensures NoConflicts(moved)
  {
    forall i | 0 <= i < |moved|
      ensures !Binds(moved[i], UDP, DHCP_CLIENT_PORT)
    {
      assert !Binds(rules[i], UDP, DHCP_CLIENT_PORT);
    }
    forall i, j | 0 <= i < j < |moved|
      ensures !SharePort(moved[i], moved[j])
    {
      assert !SharePort(rules[i], rules[j]);
      assert forall p: Protocol :: Binds(moved[i], p, moved[j].externalPort) ==> Binds(rules[i], p, rules[j].externalPort);
    }
  }
}
