/**
 Validation of the router's configuration (src/config.rs), starting from the
 parsed fields of the file: an address field is blank, malformed or an address.
 */
module RouterConfig {
  import opened Options
  import opened Naturals
  import opened Ipv4
  import opened Hostname

  type Mac = x: nat | x < 0x1_0000_0000_0000
  type Port = x: nat | x < 0x1_0000

  const DEFAULT_PRIMARY_NETWORK: Ip := 0xC0A8_0100
  const DEFAULT_FALLBACK_NETWORK: Ip := 0x0A00_0000
  const DEFAULT_LAN_PREFIX_LENGTH: nat := 24
  const MIN_LAN_PREFIX_LENGTH: nat := 8
  const MAX_LAN_PREFIX_LENGTH: nat := 30
  const DHCP_CLIENT_PORT: Port := 68

  datatype AddressText = Blank | Malformed | Address(ip: Ip)

  datatype LanSection = LanSection(primary: Option<AddressText>, fallback: Option<AddressText>, prefix: Option<nat>)

  // ---- the two subnets ----

  /** A network that leaves room for hosts, with a host address of its own for the router. */
  predicate IsRouterNet(n: Net) {
    && MIN_LAN_PREFIX_LENGTH <= n.prefix <= MAX_LAN_PREFIX_LENGTH
    && n.Network() < n.addr < n.Broadcast()
  }

  function ParseLanNetwork(raw: Option<AddressText>, prefix: nat, default: Ip): (r: Result<Net>) {
    var input := if raw.Some? then raw.value else Address(default);
    if input.Blank? || !(MIN_LAN_PREFIX_LENGTH <= prefix <= MAX_LAN_PREFIX_LENGTH) || input.Malformed? then
      Err
    else
      var net := Net(input.ip, prefix);
      if input.ip == net.Network() then
        BroadcastIsFar(net);
        Ok(Net(net.Network() + 1, prefix))
      else if input.ip == net.Broadcast() then
        Err
      else
        Ok(net)
  }

  lemma BroadcastIsFar(net: Net)
    requires net.prefix <= MAX_LAN_PREFIX_LENGTH
    ensures net.Network() + 3 <= net.Broadcast()
  {
    Pow2Grows(2, 32 - net.prefix);
  }

  // The router takes the first host address if the network address was given, and stays in its block.
  lemma ParsedLanNetwork(raw: Option<AddressText>, prefix: nat, default: Ip)
    requires ParseLanNetwork(raw, prefix, default).Ok?
    ensures IsRouterNet(ParseLanNetwork(raw, prefix, default).value)
    ensures ParseLanNetwork(raw, prefix, default).value.prefix == prefix
  {
    var ip := if raw.Some? then raw.value.ip else default;
    var net := Net(ip, prefix);
    BroadcastIsFar(net);
    if ip == net.Network() {
      SameBlock(ip, ip + 1, 32 - prefix);
    }
  }

  /**
   Refused exactly if the field is blank or malformed, the prefix is not from
   8 to 30, or the address is the last of its block.  The router has the
   address given, or the first host address if that of the block was given.
   */
  lemma {:induction false} ParseLanNetworkIs(raw: Option<AddressText>, prefix: nat, default: Ip)
    ensures var r := ParseLanNetwork(raw, prefix, default);
            && (raw == Some(Blank) || raw == Some(Malformed) || prefix < 8 || prefix > 30 ==> r == Err)
            && (forall ip: Ip | (raw == Some(Address(ip)) || (raw == None && ip == default)) && 8 <= prefix <= 30 ::
                  var net := Net(ip, prefix);
                  && (ip == net.Broadcast() ==> r == Err)
                  && (ip == net.Network() ==> net.Network() < net.Broadcast() && r == Ok(Net(ip + 1, prefix)))
                  && (net.Network() < ip < net.Broadcast() ==> r == Ok(net)))
  {
    if 8 <= prefix <= 30 {
      var ip := if raw.Some? then (if raw.value.Address? then raw.value.ip else default) else default;
      BroadcastIsFar(Net(ip, prefix));
    }
  }

  function ParseLanSubnets(lan: Option<LanSection>): (r: Result<(Net, Net)>) {
    var prefix := if lan.Some? && lan.value.prefix.Some? then lan.value.prefix.value else DEFAULT_LAN_PREFIX_LENGTH;
    var primary := if lan.Some? then lan.value.primary else None;
    var fallback := if lan.Some? then lan.value.fallback else None;
    var lanNet := ParseLanNetwork(primary, prefix, DEFAULT_PRIMARY_NETWORK);
    var backupNet := ParseLanNetwork(fallback, prefix, DEFAULT_FALLBACK_NETWORK);
    if lanNet.Err? || backupNet.Err? then
      Err
    else
      ParsedLanNetwork(primary, prefix, DEFAULT_PRIMARY_NETWORK);
      ParsedLanNetwork(fallback, prefix, DEFAULT_FALLBACK_NETWORK);
      if IsSubnetOverlap(lanNet.value, backupNet.value) then Err else Ok((lanNet.value, backupNet.value))
  }

  /** What accepted subnets satisfy: the same size, room for hosts, no address in common. */
  ghost predicate AreLanSubnets(lan: Net, backup: Net) {
    && IsRouterNet(lan) && IsRouterNet(backup) && lan.prefix == backup.prefix
    && forall ip: Ip :: !(lan.Contains(ip) && backup.Contains(ip))
  }

  lemma ParsedLanSubnets(lan: Option<LanSection>)
    requires ParseLanSubnets(lan).Ok?
    ensures AreLanSubnets(ParseLanSubnets(lan).value.0, ParseLanSubnets(lan).value.1)
  {
    var prefix := if lan.Some? && lan.value.prefix.Some? then lan.value.prefix.value else DEFAULT_LAN_PREFIX_LENGTH;
    ParsedLanNetwork(if lan.Some? then lan.value.primary else None, prefix, DEFAULT_PRIMARY_NETWORK);
    ParsedLanNetwork(if lan.Some? then lan.value.fallback else None, prefix, DEFAULT_FALLBACK_NETWORK);
    OverlapIffShared(ParseLanSubnets(lan).value.0, ParseLanSubnets(lan).value.1);
  }

  /**
   The first subnet is the primary one and the second the fallback, by default
   192.168.1.0 and 10.0.0.0 with 24 bits; refused exactly if either is or they
   share an address.
   */
  lemma {:induction false} ParseLanSubnetsIff(primary: Option<AddressText>, fallback: Option<AddressText>, prefix: Option<nat>, a: Net, b: Net)
    ensures var bits := if prefix.Some? then prefix.value else 24;
            ParseLanSubnets(Some(LanSection(primary, fallback, prefix))) == Ok((a, b)) <==>
              && ParseLanNetwork(primary, bits, 0xC0A8_0100) == Ok(a) && ParseLanNetwork(fallback, bits, 0x0A00_0000) == Ok(b)
              && a.Valid() && b.Valid() && forall ip: Ip :: !(a.Contains(ip) && b.Contains(ip))
    ensures ParseLanSubnets(None) == ParseLanSubnets(Some(LanSection(None, None, None)))
  {
    hide ParseLanNetwork;
    var bits := if prefix.Some? then prefix.value else 24;
    if ParseLanNetwork(primary, bits, 0xC0A8_0100).Ok? && ParseLanNetwork(fallback, bits, 0x0A00_0000).Ok? {
      ParsedLanNetwork(primary, bits, 0xC0A8_0100);
      ParsedLanNetwork(fallback, bits, 0x0A00_0000);
      OverlapIffShared(ParseLanNetwork(primary, bits, 0xC0A8_0100).value, ParseLanNetwork(fallback, bits, 0x0A00_0000).value);
    }
  }

  // ---- addresses of hosts ----

  /** The check of a reservation or forwarding target, with its underflow and overflow branches. */
  predicate ValidateTargetIp(ip: Ip, lan: Net, backup: Net)
    requires lan.Valid() && backup.Valid()
  {
    && lan.Contains(ip) && ip != lan.Network() && ip != lan.Broadcast() && ip != lan.addr
    && ip >= lan.Network()
    && backup.Network() + (ip - lan.Network()) < 0x1_0000_0000
    && var backupIp: Ip := backup.Network() + (ip - lan.Network());
       backup.Contains(backupIp) && backupIp != backup.Network() && backupIp != backup.Broadcast() && backupIp != backup.addr
  }

  /** A host address of the network that is not the router's. */
  predicate IsHost(ip: Ip, net: Net)
    requires net.Valid()
  {
    net.Network() < ip < net.Broadcast() && ip != net.addr
  }

  /**
   On accepted subnets the check asks exactly that the address is a host of
   the LAN and its offset does not fall on the router of the fallback subnet.
   */
  lemma ValidateTargetIpIff(ip: Ip, lan: Net, backup: Net)
    requires IsRouterNet(lan) && IsRouterNet(backup) && lan.prefix == backup.prefix
    ensures ValidateTargetIp(ip, lan, backup) <==>
            IsHost(ip, lan) && ip - lan.Network() != backup.addr - backup.Network()
  {
    assert lan.Size() == backup.Size();
  }

  datatype StaticLease = StaticLease(mac: Mac, ip: Ip, hostname: Option<string>)

  /** A reservation as written: `mac` is `None` when malformed, the other fields when absent. */
  datatype ReservationText = ReservationText(mac: Option<Mac>, ip: Option<AddressText>, hostname: Option<string>)

  predicate IsUnicastMac(mac: Mac) {
    mac != 0 && mac != 0xFFFF_FFFF_FFFF && (mac / 0x100_0000_0000) % 2 == 0
  }

  /** The checks on a reservation by itself. */
  function ParseReservation(res: ReservationText, lan: Net, backup: Net): (r: Result<StaticLease>)
    requires lan.Valid() && backup.Valid()
  {
    if res.mac.None? || !IsUnicastMac(res.mac.value) then Err
    else if res.ip.None? || !res.ip.value.Address? then Err
    else if !ValidateTargetIp(res.ip.value.ip, lan, backup) then Err
    else match res.hostname
      case None => Ok(StaticLease(res.mac.value, res.ip.value.ip, None))
      case Some(raw) =>
        var name := Sanitize(raw);
        if name.None? || name.value == ROUTER_HOSTNAME then Err
        else Ok(StaticLease(res.mac.value, res.ip.value.ip, name))
  }

  /** A unicast MAC, by its first octet and the rest. */
  lemma UnicastMacIs(first: nat, rest: nat)
    requires first < 256 && rest < 0x100_0000_0000
    ensures IsUnicastMac(first * 0x100_0000_0000 + rest) <==> first % 2 == 0 && !(first == 0 && rest == 0)
  {
  }

  /** A reservation is accepted, as written, exactly with a unicast MAC, a valid target, and no name or one that is not the router's. */
  lemma {:induction false} ReservationIff(res: ReservationText, lan: Net, backup: Net, lease: StaticLease)
    requires lan.Valid() && backup.Valid()
    ensures ParseReservation(res, lan, backup) == Ok(lease) <==>
              && res.mac == Some(lease.mac) && IsUnicastMac(lease.mac)
              && res.ip == Some(Address(lease.ip)) && ValidateTargetIp(lease.ip, lan, backup)
              && (res.hostname.None? ==> lease.hostname == None)
              && (res.hostname.Some? ==> lease.hostname.Some? && lease.hostname == Sanitize(res.hostname.value)
                                         && lease.hostname != Some("router"))
  {
    hide Sanitize, ValidateTargetIp, IsUnicastMac;
  }

  predicate Clash(a: StaticLease, b: StaticLease) {
    a.mac == b.mac || a.ip == b.ip || (a.hostname.Some? && a.hostname == b.hostname)
  }

  /** Every reservation is valid by itself and no two share a MAC, an address or a name. */
  ghost predicate AcceptableReservations(rs: seq<ReservationText>, n: nat, lan: Net, backup: Net)
    requires lan.Valid() && backup.Valid() && n <= |rs|
  {
    && (forall i | 0 <= i < n :: ParseReservation(rs[i], lan, backup).Ok?)
    && forall i, j | 0 <= i < j < n ::
         !Clash(ParseReservation(rs[i], lan, backup).value, ParseReservation(rs[j], lan, backup).value)
  }

  ghost predicate Reservations(leases: seq<StaticLease>, rs: seq<ReservationText>, n: nat, lan: Net, backup: Net)
    requires lan.Valid() && backup.Valid() && n <= |rs|
  {
    |leases| == n && forall i | 0 <= i < n :: ParseReservation(rs[i], lan, backup) == Ok(leases[i])
  }

  method ParseDhcpReservations(rs: seq<ReservationText>, lan: Net, backup: Net) returns (r: Result<seq<StaticLease>>)
    requires lan.Valid() && backup.Valid()
    ensures r.Ok? <==> AcceptableReservations(rs, |rs|, lan, backup)
    ensures r.Ok? ==> Reservations(r.value, rs, |rs|, lan, backup)
  {
    hide ParseReservation;
    var leases: seq<StaticLease> := [];
    var seenMacs: set<Mac>, seenIps: set<Ip>, seenHostnames: set<string> := {}, {}, {};
    var i := 0;
    while i < |rs|
      invariant 0 <= i <= |rs|
      invariant Reservations(leases, rs, i, lan, backup) && AcceptableReservations(rs, i, lan, backup)
      invariant forall m :: m in seenMacs <==> exists k | 0 <= k < i :: leases[k].mac == m
      invariant forall ip :: ip in seenIps <==> exists k | 0 <= k < i :: leases[k].ip == ip
      invariant forall h :: h in seenHostnames <==> exists k | 0 <= k < i :: leases[k].hostname == Some(h)
    {
      var parsed := ParseReservation(rs[i], lan, backup);
      if parsed.Err? {
        return Err;
      }
      var lease := parsed.value;
      if lease.hostname.Some? {
        if lease.hostname.value in seenHostnames {
          var k :| 0 <= k < i && leases[k].hostname == lease.hostname;
          assert Clash(leases[k], lease);
          return Err;
        }
        seenHostnames := seenHostnames + {lease.hostname.value};
      }
      if lease.mac in seenMacs {
        var k :| 0 <= k < i && leases[k].mac == lease.mac;
        assert Clash(leases[k], lease);
        return Err;
      }
      seenMacs := seenMacs + {lease.mac};
      if lease.ip in seenIps {
        var k :| 0 <= k < i && leases[k].ip == lease.ip;
        assert Clash(leases[k], lease);
        return Err;
      }
      seenIps := seenIps + {lease.ip};
      leases := leases + [lease];
      i := i + 1;
    }
    r := Ok(leases);
  }

  // ---- port forwarding ----

  datatype Protocol = TCP | UDP

  datatype ForwardProtocol = Tcp | Udp | Both {
    predicate Covers(p: Protocol) {
      this == Both || (this == Tcp && p == TCP) || (this == Udp && p == UDP)
    }
  }

  datatype PortForwardRule = PortForwardRule(protocol: ForwardProtocol, externalPort: Port, internalIp: Ip,
                                             internalPort: Port, description: Option<string>)

  /** A rule as written; an inner `None` of `proto` is an unknown protocol name. */
  datatype PortForwardText = PortForwardText(proto: Option<Option<ForwardProtocol>>, externalPort: Option<Port>,
                                             internalIp: Option<AddressText>, internalPort: Option<Port>,
                                             description: Option<string>)

  /** The checks on a rule by itself. */
  function BuildPortForwardRule(raw: PortForwardText, lan: Net, backup: Net): (r: Result<PortForwardRule>)
    requires lan.Valid() && backup.Valid()
  {
    var protocol := if raw.proto.Some? then raw.proto.value else Some(Tcp);
    if protocol.None? then Err
    else if raw.externalPort.None? || raw.externalPort.value == 0 then Err
    else if raw.internalIp.None? || !raw.internalIp.value.Address? then Err
    else if !ValidateTargetIp(raw.internalIp.value.ip, lan, backup) then Err
    else
      var internalPort := if raw.internalPort.Some? then raw.internalPort.value else raw.externalPort.value;
      if internalPort == 0 then Err
      else Ok(PortForwardRule(protocol.value, raw.externalPort.value, raw.internalIp.value.ip, internalPort, raw.description))
  }

  /**
   A rule is accepted, as written, exactly with a known protocol (TCP if none is
   given), ports other than 0 (the internal one being the external one if none
   is given) and a valid target.
   */
  lemma {:induction false} PortForwardIff(raw: PortForwardText, lan: Net, backup: Net, rule: PortForwardRule)
    requires lan.Valid() && backup.Valid()
    ensures BuildPortForwardRule(raw, lan, backup) == Ok(rule) <==>
              && (raw.proto == Some(Some(rule.protocol)) || (raw.proto == None && rule.protocol == Tcp))
              && raw.externalPort == Some(rule.externalPort) && rule.externalPort != 0
              && raw.internalIp == Some(Address(rule.internalIp)) && ValidateTargetIp(rule.internalIp, lan, backup)
              && (raw.internalPort == Some(rule.internalPort) || (raw.internalPort == None && rule.internalPort == rule.externalPort))
              && rule.internalPort != 0 && rule.description == raw.description
  {
    hide ValidateTargetIp;
  }

  /** The rule forwards connections of this protocol to this external port. */
  predicate Binds(rule: PortForwardRule, p: Protocol, port: Port) {
    rule.protocol.Covers(p) && rule.externalPort == port
  }

  predicate SharePort(a: PortForwardRule, b: PortForwardRule) {
    exists p: Protocol :: Binds(a, p, b.externalPort) && b.protocol.Covers(p)
  }

  /** None takes the port of the DHCP client, and no two bind the same port of a protocol. */
  ghost predicate NoConflicts(rules: seq<PortForwardRule>) {
    && (forall i | 0 <= i < |rules| :: !Binds(rules[i], UDP, DHCP_CLIENT_PORT))
    && forall i, j | 0 <= i < j < |rules| :: !SharePort(rules[i], rules[j])
  }

  /** The ports of a protocol that the rules bind. */
  ghost predicate PortsOf(ports: set<Port>, rules: seq<PortForwardRule>, p: Protocol) {
    forall port :: port in ports <==> exists i | 0 <= i < |rules| :: Binds(rules[i], p, port)
  }

  method CheckPortForwardConflicts(rule: PortForwardRule, boundTcp: set<Port>, boundUdp: set<Port>)
    returns (ok: bool, boundTcp': set<Port>, boundUdp': set<Port>)
    ensures ok <==> && !Binds(rule, UDP, 68)
                    && (rule.protocol.Covers(TCP) ==> rule.externalPort !in boundTcp)
                    && (rule.protocol.Covers(UDP) ==> rule.externalPort !in boundUdp)
    ensures ok ==> boundTcp' == if rule.protocol.Covers(TCP) then boundTcp + {rule.externalPort} else boundTcp
    ensures ok ==> boundUdp' == if rule.protocol.Covers(UDP) then boundUdp + {rule.externalPort} else boundUdp
  {
    boundTcp', boundUdp' := boundTcp, boundUdp;
    if (rule.protocol == Udp || rule.protocol == Both) && rule.externalPort == DHCP_CLIENT_PORT {
      return false, boundTcp', boundUdp';
    }
    if rule.protocol == Tcp || rule.protocol == Both {
      if rule.externalPort in boundTcp' {
        return false, boundTcp', boundUdp';
      }
      boundTcp' := boundTcp' + {rule.externalPort};
    }
    if rule.protocol == Udp || rule.protocol == Both {
      if rule.externalPort in boundUdp' {
        return false, boundTcp', boundUdp';
      }
      boundUdp' := boundUdp' + {rule.externalPort};
    }
    ok := true;
  }

  ghost predicate Forwards(rules: seq<PortForwardRule>, raw: seq<PortForwardText>, n: nat, lan: Net, backup: Net)
    requires lan.Valid() && backup.Valid() && n <= |raw|
  {
    |rules| == n && forall i | 0 <= i < n :: BuildPortForwardRule(raw[i], lan, backup) == Ok(rules[i])
  }

  // A further rule conflicts with the earlier ones exactly if its check against the bound ports fails.
  lemma OneMoreRule(rules: seq<PortForwardRule>, rule: PortForwardRule, boundTcp: set<Port>, boundUdp: set<Port>)
    requires NoConflicts(rules) && PortsOf(boundTcp, rules, TCP) && PortsOf(boundUdp, rules, UDP)
    ensures NoConflicts(rules + [rule]) <==>
            && !Binds(rule, UDP, DHCP_CLIENT_PORT)
            && (rule.protocol.Covers(TCP) ==> rule.externalPort !in boundTcp)
            && (rule.protocol.Covers(UDP) ==> rule.externalPort !in boundUdp)
  {
    var more := rules + [rule];
    if rule.protocol.Covers(TCP) && rule.externalPort in boundTcp {
      var i :| 0 <= i < |rules| && Binds(rules[i], TCP, rule.externalPort);
      assert SharePort(more[i], more[|rules|]);
    }
    if rule.protocol.Covers(UDP) && rule.externalPort in boundUdp {
      var i :| 0 <= i < |rules| && Binds(rules[i], UDP, rule.externalPort);
      assert SharePort(more[i], more[|rules|]);
    }
    assert more[|rules|] == rule;
    forall i, j | 0 <= i < j < |more| && j < |rules|
      ensures !SharePort(more[i], more[j])
    {
      assert !SharePort(rules[i], rules[j]);
    }
  }

  lemma BoundPorts(rules: seq<PortForwardRule>, rule: PortForwardRule, ports: set<Port>, p: Protocol)
    requires PortsOf(ports, rules, p)
    ensures PortsOf(if rule.protocol.Covers(p) then ports + {rule.externalPort} else ports, rules + [rule], p)
  {
    var more := rules + [rule];
    forall port
      ensures (exists i | 0 <= i < |more| :: Binds(more[i], p, port))
              <==> port in ports || Binds(rule, p, port)
    {
      if port in ports {
        var i :| 0 <= i < |rules| && Binds(rules[i], p, port);
        assert Binds(more[i], p, port);
      }
      if Binds(rule, p, port) {
        assert Binds(more[|rules|], p, port);
      }
      if i :| 0 <= i < |more| && Binds(more[i], p, port) {
        assert i < |rules| ==> Binds(rules[i], p, port);
      }
    }
  }

  lemma FewerConflicts(rules: seq<PortForwardRule>, n: nat)
    requires n <= |rules| && NoConflicts(rules)
    ensures NoConflicts(rules[..n])
  {
  }

  /** Accepts exactly the lists whose rules are valid by themselves and free of conflicts. */
  method ParsePortForwardRules(raw: seq<PortForwardText>, lan: Net, backup: Net) returns (r: Result<seq<PortForwardRule>>)
    requires lan.Valid() && backup.Valid()
    ensures r.Ok? <==> exists rules :: Forwards(rules, raw, |raw|, lan, backup) && NoConflicts(rules)
    ensures r.Ok? ==> Forwards(r.value, raw, |raw|, lan, backup) && NoConflicts(r.value)
  {
    hide BuildPortForwardRule, NoConflicts, PortsOf;
    var rules: seq<PortForwardRule> := [];
    var boundTcp: set<Port>, boundUdp: set<Port> := {}, {};
    NothingConflicts();
    var i := 0;
    while i < |raw|
      invariant 0 <= i <= |raw|
      invariant Forwards(rules, raw, i, lan, backup) && NoConflicts(rules)
      invariant PortsOf(boundTcp, rules, TCP) && PortsOf(boundUdp, rules, UDP)
    {
      var built := BuildPortForwardRule(raw[i], lan, backup);
      if built.Err? {
        return Err;
      }
      OneMoreRule(rules, built.value, boundTcp, boundUdp);
      BoundPorts(rules, built.value, boundTcp, TCP);
      BoundPorts(rules, built.value, boundUdp, UDP);
      var ok;
      ok, boundTcp, boundUdp := CheckPortForwardConflicts(built.value, boundTcp, boundUdp);
      rules := rules + [built.value];
      if !ok {
        forall all | Forwards(all, raw, |raw|, lan, backup)
          ensures !NoConflicts(all)
        {
          assert all[..i + 1] == rules;
          if NoConflicts(all) {
            FewerConflicts(all, i + 1);
          }
        }
        return Err;
      }
      i := i + 1;
    }
    r := Ok(rules);
  }

  lemma NothingConflicts()
    ensures NoConflicts([]) && PortsOf({}, [], TCP) && PortsOf({}, [], UDP)
  {
  }
}
