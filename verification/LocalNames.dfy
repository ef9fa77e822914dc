/**
 Names of hosts on the LAN (src/services/dns_forwarder/worker.rs): the paired
 forward and reverse tables, and the queries answered from them.
 */
module LocalNames {
  import opened Options
  import opened Ipv4
  import opened Hostname

  datatype Msg = Register(name: string, ip: Ip) | Deregister(name: string)

  datatype Tables = Tables(hosts: map<string, Ip>, ips: map<Ip, string>)

  function Apply(t: Tables, msg: Msg): (r: Tables) {
    match msg
    case Register(name, ip) =>
      var ips := if name in t.hosts then t.ips - {t.hosts[name]} else t.ips;
      Tables(t.hosts[name := ip], ips[ip := name])
    case Deregister(name) =>
      if name in t.hosts then Tables(t.hosts - {name}, t.ips - {t.hosts[name]}) else t
  }

  /** The tables after the first `n` messages. */
  ghost function After(msgs: seq<Msg>, n: nat): Tables
    requires n <= |msgs|
  {
    if n == 0 then Tables(map[], map[]) else Apply(After(msgs, n - 1), msgs[n - 1])
  }

  /** Every reverse entry is the converse of a forward entry. */
  ghost predicate ReverseSound(t: Tables) {
    forall ip | ip in t.ips :: t.ips[ip] in t.hosts && t.hosts[t.ips[ip]] == ip
  }

  /** The two tables are converse to each other. */
  ghost predicate FullInverse(t: Tables) {
    ReverseSound(t) && forall name | name in t.hosts :: t.hosts[name] in t.ips && t.ips[t.hosts[name]] == name
  }

  ghost predicate SanitizedNames(msgs: seq<Msg>) {
    forall i | 0 <= i < |msgs| :: msgs[i].Register? ==> IsHostname(msgs[i].name)
  }

  // What every message keeps, even when two names share an address.
  lemma {:induction false} ReverseStaysSound(msgs: seq<Msg>, n: nat)
    requires n <= |msgs|
    ensures ReverseSound(After(msgs, n))
  {
    if n > 0 {
      ReverseStaysSound(msgs, n - 1);
    }
  }

  lemma {:induction false} NamesStaySanitized(msgs: seq<Msg>, n: nat)
    requires n <= |msgs| && SanitizedNames(msgs)
    ensures forall name | name in After(msgs, n).hosts :: IsHostname(name)
  {
    if n > 0 {
      NamesStaySanitized(msgs, n - 1);
    }
  }

  /** The message does not register an address that another name holds. */
  ghost predicate NoSharing(t: Tables, msg: Msg) {
    msg.Register? ==> forall name | name in t.hosts && name != msg.name :: t.hosts[name] != msg.ip
  }

  lemma StepKeepsInverseIff(t: Tables, msg: Msg)
    requires FullInverse(t)
    ensures FullInverse(Apply(t, msg)) <==> NoSharing(t, msg)
  {
    var t' := Apply(t, msg);
    if msg.Register? && !NoSharing(t, msg) {
      var other :| other in t.hosts && other != msg.name && t.hosts[other] == msg.ip;
      assert other in t'.hosts && t'.ips[t'.hosts[other]] != other;
    }
  }

  ghost predicate InverseThroughout(msgs: seq<Msg>) {
    forall n: nat | n <= |msgs| :: FullInverse(After(msgs, n))
  }

  ghost predicate NeverShares(msgs: seq<Msg>, n: nat)
    requires n <= |msgs|
  {
    forall k: nat | k < n :: NoSharing(After(msgs, k), msgs[k])
  }

  lemma StartsInverse(msgs: seq<Msg>)
    ensures FullInverse(After(msgs, 0))
  {
  }

  lemma {:induction false} InverseWithoutSharing(msgs: seq<Msg>, n: nat)
    requires n <= |msgs| && NeverShares(msgs, n)
    ensures FullInverse(After(msgs, n))
  {
    hide Apply, FullInverse, NoSharing;
    if n == 0 {
      StartsInverse(msgs);
    } else {
      InverseWithoutSharing(msgs, n - 1);
      StepKeepsInverseIff(After(msgs, n - 1), msgs[n - 1]);
    }
  }

  /** The tables are converse throughout a run exactly if no two names ever share an address. */
  lemma InverseThroughoutIff(msgs: seq<Msg>)
    ensures InverseThroughout(msgs) <==> NeverShares(msgs, |msgs|)
  {
    hide Apply, FullInverse, NoSharing;
    if NeverShares(msgs, |msgs|) {
      forall n: nat | n <= |msgs|
        ensures FullInverse(After(msgs, n))
      {
        InverseWithoutSharing(msgs, n);
      }
    }
    if InverseThroughout(msgs) {
      forall n: nat | n < |msgs|
        ensures NoSharing(After(msgs, n), msgs[n])
      {
        StepKeepsInverseIff(After(msgs, n), msgs[n]);
        assert FullInverse(After(msgs, n + 1));
      }
    }
  }

  /** Without that condition the tables can differ even after the sharing has ended. */
  lemma SharingLeavesAGap()
    ensures var t := After([Register("a", 1), Register("b", 1), Deregister("b")], 3);
            t.hosts == map["a" := 1] && t.ips == map[]
  {
    var msgs := [Register("a", 1), Register("b", 1), Deregister("b")];
    assert After(msgs, 1) == Tables(map["a" := 1], map[1 := "a"]);
    assert After(msgs, 2) == Tables(map["a" := 1, "b" := 1], map[1 := "b"]);
    assert After(msgs, 3).hosts == map["a" := 1];
  }

  // ---- queries ----

  datatype RecordType = A | PTR | OtherType

  /** A question; `arpa` is the network its name spells under `in-addr.arpa`, if any. */
  datatype Question = Question(name: string, qtype: RecordType, arpa: Option<Net>)

  datatype Answer = Address(ip: Ip) | Ptr(target: string) | NoData | NxDomain

  function TrimDots(s: string): (r: string) {
    if s != "" && s[|s| - 1] == '.' then TrimDots(s[..|s| - 1]) else s
  }

  predicate EndsWith(s: string, suffix: string) {
    |suffix| <= |s| && s[|s| - |suffix|..] == suffix
  }

  /** The host a name stands for, and whether the name is qualified with the local domain. */
  function ForwardName(name: string): (r: Option<(string, bool)>) {
    var lower := Lower(TrimDots(name));
    var dotSuffix := "." + LOCAL_DOMAIN;
    if lower == LOCAL_DOMAIN || lower == "" then
      None
    else if EndsWith(lower, dotSuffix) then
      var prefix := lower[..|lower| - |dotSuffix|];
      if '.' in prefix then None else Some((prefix, true))
    else if '.' in lower then
      None
    else
      Some((lower, false))
  }

  predicate IsMdnsLocal(name: string) {
    var lower := Lower(TrimDots(name));
    lower == MDNS_DOMAIN || EndsWith(lower, "." + MDNS_DOMAIN)
  }

  function TryResolveLocal(q: Question, t: Tables): (r: Option<Answer>) {
    var forward := ForwardName(q.name);
    if forward.Some? && forward.value.0 in t.hosts then
      if q.qtype == A then Some(Address(t.hosts[forward.value.0])) else Some(NoData)
    else if forward.Some? && forward.value.1 then
      Some(NxDomain)
    else if q.qtype == PTR then
      if q.arpa.Some? && q.arpa.value.prefix == 32 && q.arpa.value.addr in t.ips then
        Some(Ptr(t.ips[q.arpa.value.addr] + "." + LOCAL_DOMAIN + "."))
      else
        None
    else if IsMdnsLocal(q.name) then
      Some(NxDomain)
    else
      None
  }

  lemma QualifiedName(h: string)
    requires IsHostname(h)
    ensures ForwardName(h + "." + LOCAL_DOMAIN + ".") == Some((h, true))
  {
    var qualified := h + "." + LOCAL_DOMAIN;
    var full := qualified + ".";
    assert full[..|full| - 1] == qualified;
    assert TrimDots(full) == qualified;
    assert Lower(qualified) == qualified;
    assert EndsWith(qualified, "." + LOCAL_DOMAIN);
    assert qualified[..|qualified| - 4] == h;
  }

  /**
   After any sequence of messages with sanitized names, the name a PTR
   query is answered with resolves to the address that was asked about.
   */
  lemma PtrResolvesForward(msgs: seq<Msg>, q: Question, target: string, anyArpa: Option<Net>)
    requires SanitizedNames(msgs)
    requires TryResolveLocal(q, After(msgs, |msgs|)) == Some(Ptr(target))
    ensures q.arpa.Some?
    ensures TryResolveLocal(Question(target, A, anyArpa), After(msgs, |msgs|)) == Some(Address(q.arpa.value.addr))
  {
    ReverseStaysSound(msgs, |msgs|);
    NamesStaySanitized(msgs, |msgs|);
    QualifiedName(After(msgs, |msgs|).ips[q.arpa.value.addr]);
  }

  /** Where the tables are converse, a host found by name is also found by its address. */
  lemma ForwardResolvesBack(t: Tables, h: string, q: Question)
    requires FullInverse(t) && IsHostname(h) && h in t.hosts
    requires q.qtype == PTR && q.arpa == Some(Net(t.hosts[h], 32)) && ForwardName(q.name) == None
    ensures TryResolveLocal(q, t) == Some(Ptr(h + "." + LOCAL_DOMAIN + "."))
    ensures TryResolveLocal(Question(h + "." + LOCAL_DOMAIN + ".", A, None), t) == Some(Address(t.hosts[h]))
  {
    QualifiedName(h);
  }

  // ---- every query ----

  // Dots at the end of a name do not matter.
  lemma {:induction false} FinalDot(name: string)
    ensures TrimDots(name + ".") == TrimDots(name)
    ensures name == "" || name[|name| - 1] != '.' ==> TrimDots(name) == name
  {
    assert (name + ".")[..|name|] == name;
  }

  lemma {:induction false} FinalDotIsIgnored(q: Question, t: Tables)
    ensures TryResolveLocal(q.(name := q.name + "."), t) == TryResolveLocal(q, t)
  {
    hide TrimDots, Lower, EndsWith;
    FinalDot(q.name);
  }

  lemma {:induction false} SuffixSplits(s: string, suffix: string, prefix: string)
    ensures s == prefix + suffix <==> EndsWith(s, suffix) && s[..|s| - |suffix|] == prefix
  {
    if EndsWith(s, suffix) {
      assert s == s[..|s| - |suffix|] + s[|s| - |suffix|..];
    }
    if s == prefix + suffix {
      assert s[|s| - |suffix|..] == suffix && s[..|s| - |suffix|] == prefix;
    }
  }

  lemma {:induction false} PrefixOf(s: string, suffix: string) returns (prefix: string)
    requires EndsWith(s, suffix)
    ensures s == prefix + suffix
  {
    prefix := s[..|s| - |suffix|];
    SuffixSplits(s, suffix, prefix);
  }

  /** A name without a dot at its end stands for host `h` exactly if it is `h.lan`, or `h` alone, in any case. */
  lemma {:induction false} ForwardNameIff(name: string, h: string)
    requires name == "" || name[|name| - 1] != '.'
    ensures ForwardName(name) == Some((h, true)) <==> Lower(name) == h + ".lan" && '.' !in h
    ensures ForwardName(name) == Some((h, false)) <==> Lower(name) == h && '.' !in h && h != "" && h != "lan"
  {
    hide TrimDots, Lower, EndsWith;
    FinalDot(name);
    var lower := Lower(name);
    SuffixSplits(lower, ".lan", h);
    assert "." + LOCAL_DOMAIN == ".lan";
    if EndsWith(lower, ".lan") {
      var prefix := PrefixOf(lower, ".lan");
      SuffixSplits(lower, ".lan", prefix);
      assert lower[|prefix|] == '.';
    }
  }

  /** A host that is known is answered for by `h` and by `h.lan`: with its address, and no data of other types. */
  lemma {:induction false} KnownHostAnswers(q: Question, t: Tables, h: string)
    requires h in t.hosts && '.' !in h && h != "" && h != "lan" && q.name != "" && q.name[|q.name| - 1] != '.'
    requires Lower(q.name) == h || Lower(q.name) == h + ".lan"
    ensures TryResolveLocal(q, t) == Some(if q.qtype == A then Address(t.hosts[h]) else NoData)
  {
    hide ForwardName, Lower;
    ForwardNameIff(q.name, h);
  }

  /** A name in the local domain that nobody has does not exist. */
  lemma {:induction false} UnknownLocalName(q: Question, t: Tables, h: string)
    requires h !in t.hosts && '.' !in h && q.name != "" && q.name[|q.name| - 1] != '.' && Lower(q.name) == h + ".lan"
    ensures TryResolveLocal(q, t) == Some(NxDomain)
  {
    hide ForwardName, Lower;
    ForwardNameIff(q.name, h);
  }

  /** Not a local name, nor the name of a known host. */
  ghost predicate IsForeign(name: string, t: Tables) {
    forall h: string | '.' !in h :: Lower(name) != h + ".lan" && !(Lower(name) == h && h in t.hosts)
  }

  /**
   Any other name: the reverse name of a known address is answered with its
   host, names under `local` do not exist, and everything else is left to the
   servers upstream.
   */
  lemma {:induction false} ForeignName(q: Question, t: Tables)
    requires (q.name == "" || q.name[|q.name| - 1] != '.') && IsForeign(q.name, t)
    ensures q.qtype == PTR ==>
              TryResolveLocal(q, t) == if q.arpa.Some? && q.arpa.value.prefix == 32 && q.arpa.value.addr in t.ips
                                       then Some(Ptr(t.ips[q.arpa.value.addr] + ".lan.")) else None
    ensures q.qtype != PTR && (Lower(q.name) == "local" || exists prefix :: Lower(q.name) == prefix + ".local") ==>
              TryResolveLocal(q, t) == Some(NxDomain)
    ensures q.qtype != PTR && Lower(q.name) != "local" && (forall prefix :: Lower(q.name) != prefix + ".local") ==>
              TryResolveLocal(q, t) == None
  {
    hide TrimDots, Lower, EndsWith, ForwardName;
    FinalDot(q.name);
    var lower := Lower(q.name);
    var f := ForwardName(q.name);
    if f.Some? {
      ForwardNameIff(q.name, f.value.0);
    }
    assert "." + MDNS_DOMAIN == ".local";
    if EndsWith(lower, ".local") {
      var prefix := PrefixOf(lower, ".local");
      assert lower == prefix + ".local";
    }
    if prefix :| lower == prefix + ".local" {
      SuffixSplits(lower, ".local", prefix);
    }
    if q.arpa.Some? && q.arpa.value.addr in t.ips {
      var name := t.ips[q.arpa.value.addr];
      assert name + "." + LOCAL_DOMAIN + "." == name + ".lan.";
    }
  }

  /** From its registration on a host is found by name and by address; the other names keep their addresses. */
  lemma {:induction false} RegisteredIsFound(t: Tables, name: string, ip: Ip, q: Question)
    requires IsHostname(name) && q.qtype == PTR && q.arpa == Some(Net(ip, 32)) && ForwardName(q.name) == None
    ensures var t' := Apply(t, Register(name, ip));
            && TryResolveLocal(Question(name + ".lan.", A, None), t') == Some(Address(ip))
            && TryResolveLocal(q, t') == Some(Ptr(name + ".lan."))
            && forall other | other in t.hosts && other != name :: other in t'.hosts && t'.hosts[other] == t.hosts[other]
  {
    QualifiedName(name);
    assert name + "." + LOCAL_DOMAIN + "." == name + ".lan.";
  }

  /** From its deregistration on it is not; the other names keep their addresses. */
  lemma {:induction false} DeregisteredIsGone(t: Tables, name: string)
    requires IsHostname(name)
    ensures var t' := Apply(t, Deregister(name));
            && TryResolveLocal(Question(name + ".lan.", A, None), t') == Some(NxDomain)
            && forall other | other in t.hosts && other != name :: other in t'.hosts && t'.hosts[other] == t.hosts[other]
  {
    QualifiedName(name);
    assert name + "." + LOCAL_DOMAIN + "." == name + ".lan.";
  }

  // ---- the tables in the forwarder ----

  lemma {:induction false} PastIsFixed(msgs: seq<Msg>, msg: Msg, n: nat)
    requires n <= |msgs|
    ensures After(msgs + [msg], n) == After(msgs, n)
  {
    if n > 0 {
      PastIsFixed(msgs, msg, n - 1);
    }
  }

  /** The tables as the forwarder updates them; `log` holds the messages received. */
  class LocalDnsTable {
    var hosts: map<string, Ip>
    var ips: map<Ip, string>
    ghost var log: seq<Msg>

    ghost predicate Valid()
      reads this
    {
      Tables(hosts, ips) == After(log, |log|)
    }

    constructor ()
      ensures Valid() && log == []
    {
      hosts, ips, log := map[], map[], [];
    }

    method RegisterLocalHost(name: string, ip: Ip)
      requires Valid()
      modifies this
      ensures Valid() && log == old(log) + [Register(name, ip)]
      ensures ReverseSound(Tables(hosts, ips))
    {
      var oldIp := if name in hosts then Some(hosts[name]) else None;
      hosts := hosts[name := ip];
      if oldIp.Some? {
        ips := ips - {oldIp.value};
      }
      ips := ips[ip := name];
      PastIsFixed(log, Register(name, ip), |log|);
      log := log + [Register(name, ip)];
      ReverseStaysSound(log, |log|);
    }

    method DeregisterLocalHost(name: string)
      requires Valid()
      modifies this
      ensures Valid() && log == old(log) + [Deregister(name)]
      ensures ReverseSound(Tables(hosts, ips))
    {
      if name in hosts {
        var ip := hosts[name];
        hosts := hosts - {name};
        ips := ips - {ip};
      }
      PastIsFixed(log, Deregister(name), |log|);
      log := log + [Deregister(name)];
      ReverseStaysSound(log, |log|);
    }
  }
}
