/** Destination NAT rules for the port forwards (src/init/firewall.rs). */
module Firewall {
  import opened Options
  import opened Ipv4
  import opened RouterConfig
  import opened LanFallback

  /** Connections of `protocol` to `externalPort` on the WAN go to `target`. */
  datatype DnatRule = DnatRule(protocol: Protocol, externalPort: Port, target: (Ip, Port))

  function DnatFor(rule: PortForwardRule, p: Protocol): (r: seq<DnatRule>) {
    if rule.protocol.Covers(p) then [DnatRule(p, rule.externalPort, (rule.internalIp, rule.internalPort))] else []
  }

  ghost function DnatRules(rules: seq<PortForwardRule>): seq<DnatRule> {
    if rules == [] then []
    else
      var last := rules[|rules| - 1];
      DnatRules(rules[..|rules| - 1]) + DnatFor(last, TCP) + DnatFor(last, UDP)
  }

  method BuildDnatRules(rules: seq<PortForwardRule>) returns (nft: seq<DnatRule>)
    ensures nft == DnatRules(rules)
  {
    nft := [];
    for i := 0 to |rules|
      invariant nft == DnatRules(rules[..i])
    {
      var rule := rules[i];
      assert rules[..i + 1][..i] == rules[..i];
      if rule.protocol == Tcp || rule.protocol == Both {
        nft := nft + [DnatRule(TCP, rule.externalPort, (rule.internalIp, rule.internalPort))];
      }
      if rule.protocol == Udp || rule.protocol == Both {
        nft := nft + [DnatRule(UDP, rule.externalPort, (rule.internalIp, rule.internalPort))];
      }
    }
    assert rules[..|rules|] == rules;
  }

  /** Where the chain sends a connection: the first rule that matches decides. */
  function FirstMatch(nft: seq<DnatRule>, p: Protocol, port: Port): (r: Option<(Ip, Port)>) {
    if nft == [] then None
    else if nft[0].protocol == p && nft[0].externalPort == port then Some(nft[0].target)
    else FirstMatch(nft[1..], p, port)
  }

  /** Some configured rule sends the connection to `target`. */
  ghost predicate Configured(rules: seq<PortForwardRule>, p: Protocol, port: Port, target: (Ip, Port)) {
    exists i | 0 <= i < |rules| :: Binds(rules[i], p, port) && (rules[i].internalIp, rules[i].internalPort) == target
  }

  ghost predicate DistinctKeys(nft: seq<DnatRule>) {
    forall i, j | 0 <= i < j < |nft| :: nft[i].protocol != nft[j].protocol || nft[i].externalPort != nft[j].externalPort
  }

  lemma DnatForIsBinding(rule: PortForwardRule, p: Protocol, d: DnatRule)
    ensures d in DnatFor(rule, p) <==>
            d.protocol == p && Binds(rule, p, d.externalPort) && d.target == (rule.internalIp, rule.internalPort)
  {
    assert d == DnatRule(d.protocol, d.externalPort, d.target);
    assert forall r | r in DnatFor(rule, p) :: r == DnatFor(rule, p)[0];
    if rule.protocol.Covers(p) {
      assert DnatFor(rule, p)[0] in DnatFor(rule, p);
    }
  }

  lemma {:induction false} ConfiguredByOne(rules: seq<PortForwardRule>, p: Protocol, port: Port, t: (Ip, Port))
    requires rules != []
    ensures var init, last := rules[..|rules| - 1], rules[|rules| - 1];
            Configured(rules, p, port, t) <==>
              Configured(init, p, port, t) || (Binds(last, p, port) && t == (last.internalIp, last.internalPort))
  {
    hide Binds;
    var init := rules[..|rules| - 1];
    if Configured(init, p, port, t) {
      var i :| 0 <= i < |init| && Binds(init[i], p, port) && (init[i].internalIp, init[i].internalPort) == t;
      assert rules[i] == init[i];
    }
  }

  // The list holds a rule for every binding and nothing else.
  lemma {:induction false} DnatRulesAreBindings(rules: seq<PortForwardRule>, d: DnatRule)
    ensures d in DnatRules(rules) <==> Configured(rules, d.protocol, d.externalPort, d.target)
  {
    hide Binds, Configured, DnatFor;
    if rules == [] {
      assert !Configured(rules, d.protocol, d.externalPort, d.target) by {
        NothingConfigured(d.protocol, d.externalPort, d.target);
      }
    } else {
      var last := rules[|rules| - 1];
      DnatRulesAreBindings(rules[..|rules| - 1], d);
      DnatForIsBinding(last, TCP, d);
      DnatForIsBinding(last, UDP, d);
      ConfiguredByOne(rules, d.protocol, d.externalPort, d.target);
    }
  }

  lemma NothingConfigured(p: Protocol, port: Port, t: (Ip, Port))
    ensures !Configured([], p, port, t)
  {
  }

  lemma {:induction false} FirstMatchIsMember(nft: seq<DnatRule>, p: Protocol, port: Port)
    ensures FirstMatch(nft, p, port).Some? ==> DnatRule(p, port, FirstMatch(nft, p, port).value) in nft
    ensures FirstMatch(nft, p, port).None? ==> forall d | d in nft :: !(d.protocol == p && d.externalPort == port)
  {
    if nft != [] {
      FirstMatchIsMember(nft[1..], p, port);
    }
  }

  // Without conflicts a connection is configured to go to one place at most.
  lemma OneTarget(rules: seq<PortForwardRule>, p: Protocol, port: Port, t: (Ip, Port), u: (Ip, Port))
    requires NoConflicts(rules) && Configured(rules, p, port, t) && Configured(rules, p, port, u)
    ensures t == u && !(p == UDP && port == DHCP_CLIENT_PORT)
  {
    var i :| 0 <= i < |rules| && Binds(rules[i], p, port) && (rules[i].internalIp, rules[i].internalPort) == t;
    var j :| 0 <= j < |rules| && Binds(rules[j], p, port) && (rules[j].internalIp, rules[j].internalPort) == u;
    if i < j {
      assert SharePort(rules[i], rules[j]);
    } else if j < i {
      assert SharePort(rules[j], rules[i]);
    }
  }

  /** At most one generated rule for each protocol and external port. */
  lemma {:induction false} KeysAreDistinct(rules: seq<PortForwardRule>)
    requires NoConflicts(rules)
    ensures DistinctKeys(DnatRules(rules))
  {
    if rules != [] {
      var init, last := rules[..|rules| - 1], rules[|rules| - 1];
      FewerConflicts(rules, |rules| - 1);
      KeysAreDistinct(init);
      forall d | d in DnatRules(init)
        ensures !Binds(last, d.protocol, d.externalPort)
      {
        DnatRulesAreBindings(init, d);
        var i :| 0 <= i < |init| && Binds(init[i], d.protocol, d.externalPort);
        assert !SharePort(rules[i], rules[|rules| - 1]);
      }
    }
  }

  /**
   For an accepted configuration the generated list, in whatever order, sends
   every connection exactly where it is configured to go, and leaves the port
   of the DHCP client alone.
   */
  lemma FirstMatchIsConfigured(rules: seq<PortForwardRule>, nft: seq<DnatRule>, p: Protocol, port: Port, t: (Ip, Port))
    requires NoConflicts(rules) && multiset(nft) == multiset(DnatRules(rules))
    ensures FirstMatch(nft, p, port) == Some(t) <==> Configured(rules, p, port, t)
    ensures FirstMatch(nft, UDP, 68) == None
  {
    Decides(rules, nft, p, port, t);
    var client := FirstMatch(nft, UDP, DHCP_CLIENT_PORT);
    Decides(rules, nft, UDP, DHCP_CLIENT_PORT, if client.Some? then client.value else t);
  }

  lemma Decides(rules: seq<PortForwardRule>, nft: seq<DnatRule>, p: Protocol, port: Port, t: (Ip, Port))
    requires NoConflicts(rules) && multiset(nft) == multiset(DnatRules(rules))
    ensures FirstMatch(nft, p, port) == Some(t) <==> Configured(rules, p, port, t)
  {
    hide NoConflicts, Configured;
    var found, d := FirstMatch(nft, p, port), DnatRule(p, port, t);
    FirstMatchIsMember(nft, p, port);
    DnatRulesAreBindings(rules, d);
    SameMembers(nft, DnatRules(rules), d);
    if found.Some? {
      var d' := DnatRule(p, port, found.value);
      SameMembers(nft, DnatRules(rules), d');
      DnatRulesAreBindings(rules, d');
      if Configured(rules, p, port, t) {
        OneTarget(rules, p, port, t, found.value);
      }
    }
  }

  lemma SameMembers<T>(s: seq<T>, t: seq<T>, x: T)
    requires multiset(s) == multiset(t)
    ensures x in s <==> x in t
  {
    assert x in multiset(s) <==> x in multiset(t);
  }

  function Target(rule: PortForwardRule): (Ip, Port) {
    (rule.internalIp, rule.internalPort)
  }

  // Lists that listen on the same ports forward the same connections, by corresponding rules.
  lemma CorrespondingMatch(rules: seq<PortForwardRule>, moved: seq<PortForwardRule>, p: Protocol, port: Port)
    returns (i: nat)
    requires NoConflicts(rules) && NoConflicts(moved) && |moved| == |rules|
    requires forall k | 0 <= k < |rules| :: moved[k] == rules[k].(internalIp := moved[k].internalIp)
    ensures FirstMatch(DnatRules(rules), p, port).None? ==> FirstMatch(DnatRules(moved), p, port).None?
    ensures FirstMatch(DnatRules(rules), p, port).Some? ==>
              && i < |rules|
              && FirstMatch(DnatRules(rules), p, port) == Some(Target(rules[i]))
              && FirstMatch(DnatRules(moved), p, port) == Some(Target(moved[i]))
  {
    hide NoConflicts, DnatRules, FirstMatch;
    i := 0;
    var before, after := FirstMatch(DnatRules(rules), p, port), FirstMatch(DnatRules(moved), p, port);
    if before.Some? {
      Decides(rules, DnatRules(rules), p, port, before.value);
      i :| 0 <= i < |rules| && Binds(rules[i], p, port) && Target(rules[i]) == before.value;
      assert Binds(moved[i], p, port);
      Decides(moved, DnatRules(moved), p, port, Target(moved[i]));
    } else if after.Some? {
      Decides(moved, DnatRules(moved), p, port, after.value);
      i :| 0 <= i < |moved| && Binds(moved[i], p, port) && Target(moved[i]) == after.value;
      assert Binds(rules[i], p, port);
      Decides(rules, DnatRules(rules), p, port, Target(rules[i]));
    }
  }

  /**
   After the move to the fallback subnet the same connections are forwarded,
   to the same ports of the hosts with the same offset.
   */
  lemma ForwardingAfterMove(rules: seq<PortForwardRule>, lan: Net, backup: Net, p: Protocol, port: Port)
    requires AreLanSubnets(lan, backup) && AcceptedForwards(rules, lan, backup)
    ensures var moved := FilterMap(r => RemapForward(r, lan, backup), rules);
            var before, after := FirstMatch(DnatRules(rules), p, port), FirstMatch(DnatRules(moved), p, port);
            && (before.None? <==> after.None?)
            && (before.Some? ==> after.value.0 - backup.Network() == before.value.0 - lan.Network()
                                 && after.value.1 == before.value.1)
  {
    var moved := FilterMap(r => RemapForward(r, lan, backup), rules);
    ForwardsSurvive(rules, lan, backup);
    hide *;
    assert NoConflicts(rules) && NoConflicts(moved);
    var i := CorrespondingMatch(rules, moved, p, port);
  }

  /**
   For every accepted configuration, at home and after a move to the fallback
   subnet: one rule at most for each protocol and port, none for the port of
   the DHCP client, and every connection goes to the same host either way.
   */
  lemma AcceptedConfiguration(lan: Option<LanSection>, home: Net, backup: Net, raw: seq<PortForwardText>,
                              rules: seq<PortForwardRule>, p: Protocol, port: Port)
    requires ParseLanSubnets(lan) == Ok((home, backup)) && home.Valid() && backup.Valid()
    requires Forwards(rules, raw, |raw|, home, backup) && NoConflicts(rules)
    ensures var moved := FilterMap(r => RemapForward(r, home, backup), rules);
            && DistinctKeys(DnatRules(rules)) && DistinctKeys(DnatRules(moved))
            && FirstMatch(DnatRules(rules), UDP, 68) == FirstMatch(DnatRules(moved), UDP, 68) == None
            && var before, after := FirstMatch(DnatRules(rules), p, port), FirstMatch(DnatRules(moved), p, port);
               && (before.None? <==> after.None?)
               && (before.Some? ==> after.value.0 - backup.Network() == before.value.0 - home.Network()
                                    && after.value.1 == before.value.1)
  {
    hide FirstMatch, DnatRules, NoConflicts, RemapForward, FilterMap, Forwards, AreLanSubnets, ParseLanSubnets, DistinctKeys;
    ParsedLanSubnets(lan);
    var moved := FilterMap(r => RemapForward(r, home, backup), rules);
    ParsedForwardsAccepted(rules, raw, home, backup);
    ForwardsSurvive(rules, home, backup);
    KeysAreDistinct(rules);
    KeysAreDistinct(moved);
    FirstMatchIsConfigured(rules, DnatRules(rules), p, port, (0, 1));
    FirstMatchIsConfigured(moved, DnatRules(moved), p, port, (0, 1));
    ForwardingAfterMove(rules, home, backup, p, port);
  }
}
