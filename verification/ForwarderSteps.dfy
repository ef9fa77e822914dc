/**
 What each event does to the queries in flight
 (src/services/dns_forwarder/worker.rs), case by case: for every state, by the
 fields of the query and the message alone.
 */
module ForwarderSteps {
  import opened Options
  import opened Ipv4
  import opened DnsMessage
  import opened DnsCache
  import opened DnsForwarder

  // ---- upstream servers ----

  /** Which resolvers are used, by the octets of their address. */
  lemma {:induction false} ValidUpstreamOctets(a: nat, b: nat, c: nat, d: nat)
    requires a < 256 && b < 256 && c < 256 && d < 256
    ensures IsValidUpstream(a * 0x100_0000 + b * 0x1_0000 + c * 0x100 + d) <==>
            && !(a == 0 && b == 0 && c == 0 && d == 0)
            && !(a == 255 && b == 255 && c == 255 && d == 255)
            && a != 127
            && !(224 <= a <= 239)
            && !(a == 169 && b == 254)
            && !(a == 192 && b == 0 && c == 2)
            && !(a == 198 && b == 51 && c == 100)
            && !(a == 203 && b == 0 && c == 113)
  {
  }

  lemma {:induction false} ValidOnlySplits(a: seq<Ip>, b: seq<Ip>)
    ensures ValidOnly(a + b) == ValidOnly(a) + ValidOnly(b)
  {
    hide IsValidUpstream;
    if a == [] {
      assert a + b == b;
    } else {
      assert (a + b)[1..] == a[1..] + b;
      ValidOnlySplits(a[1..], b);
    }
  }

  lemma {:induction false} ValidOnlyMembers(ips: seq<Ip>, ip: Ip)
    ensures ip in ValidOnly(ips) <==> ip in ips && IsValidUpstream(ip)
  {
    hide IsValidUpstream;
    if ips != [] {
      ValidOnlyMembers(ips[1..], ip);
    }
  }

  lemma ValidOnlyOne(ip: Ip)
    ensures ValidOnly([ip]) == if IsValidUpstream(ip) then [ip] else []
  {
    hide IsValidUpstream;
  }

  /**
   The usable servers are kept, in order and as often as configured, and the
   others left out: whatever stands before and after a server, it is there
   exactly if it is usable.
   */
  lemma {:induction false} ResolversAre(before: seq<Ip>, ip: Ip, after: seq<Ip>)
    ensures IsValidUpstream(ip) ==>
              UpstreamResolvers(before + [ip] + after) == ValidOnly(before) + [ip] + ValidOnly(after)
    ensures !IsValidUpstream(ip) ==> UpstreamResolvers(before + [ip] + after) == UpstreamResolvers(before + after)
  {
    hide IsValidUpstream, ValidOnly;
    ValidOnlySplits(before + [ip], after);
    ValidOnlySplits(before, [ip]);
    ValidOnlySplits(before, after);
    ValidOnlyOne(ip);
  }

  /** Without a usable server it is the built-in one, and only then. */
  lemma {:induction false} FallbackServer(ips: seq<Ip>)
    ensures (forall i | 0 <= i < |ips| :: !IsValidUpstream(ips[i])) ==> UpstreamResolvers(ips) == [0x0808_0808]
    ensures (exists i | 0 <= i < |ips| :: IsValidUpstream(ips[i])) ==>
              UpstreamResolvers(ips) == ValidOnly(ips) && forall ip :: ip in UpstreamResolvers(ips) <==> ip in ips && IsValidUpstream(ip)
  {
    hide IsValidUpstream, ValidOnly;
    NoneOrAllValid(ips);
    forall ip
      ensures ip in ValidOnly(ips) <==> ip in ips && IsValidUpstream(ip)
    {
      ValidOnlyMembers(ips, ip);
    }
  }

  lemma {:induction false} NoneOrAllValid(ips: seq<Ip>)
    ensures (forall i | 0 <= i < |ips| :: !IsValidUpstream(ips[i])) ==> ValidOnly(ips) == []
    ensures (forall i | 0 <= i < |ips| :: IsValidUpstream(ips[i])) ==> ValidOnly(ips) == ips
  {
    hide IsValidUpstream;
    if ips != [] {
      NoneOrAllValid(ips[1..]);
    }
  }

  // ---- a query arrives ----

  /** It joins the query found for its key if that has fewer than 64 clients. */
  lemma {:induction false} ArrivalJoins(s: State, e: Event, now: Time)
    requires Sized(s) && e.Arrive? && Possible(s, e)
    requires e.found.Some? && |s.pending[e.found.value].clients| < 64
    ensures var s', q := Step(s, e, now), s.pending[e.found.value];
            && s'.pending.Keys == s.pending.Keys && s'.answers == s.answers && s'.jobs == s.jobs
            && s'.pending[e.found.value] == Query(q.clients + [Client(|s.clients|, e.udp, e.xid, e.maxPayload)], q.key, q.servers, q.idx, q.deadline)
            && forall x | x in s.pending && x != e.found.value :: s'.pending[x] == s.pending[x]
  {
  }

  /** Otherwise it is turned away if 4096 queries are in flight or it cannot be sent. */
  lemma {:induction false} ArrivalIsTurnedAway(s: State, e: Event, now: Time)
    requires Sized(s) && e.Arrive? && Possible(s, e)
    requires e.found.None? || |s.pending[e.found.value].clients| >= 64
    requires |s.pending| >= 4096 || !e.sent
    ensures var s' := Step(s, e, now);
            s'.pending == s.pending && s'.answers == s.answers && s'.jobs == s.jobs && IsDropped(s', |s.clients|)
  {
  }

  /** Otherwise it becomes a query at the first of the usable servers, due in three seconds. */
  lemma {:induction false} ArrivalIsSent(s: State, e: Event, now: Time)
    requires Sized(s) && e.Arrive? && Possible(s, e)
    requires e.found.None? || |s.pending[e.found.value].clients| >= 64
    requires |s.pending| < 4096 && e.sent
    ensures var s' := Step(s, e, now);
            && s'.pending.Keys == s.pending.Keys + {e.unused} && s'.answers == s.answers && s'.jobs == s.jobs
            && s'.pending[e.unused] == Query([Client(|s.clients|, e.udp, e.xid, e.maxPayload)], e.key, UpstreamResolvers(e.configured), 0, now + 3000)
            && forall x | x in s.pending :: s'.pending[x] == s.pending[x]
  {
    hide UpstreamResolvers;
  }

  // ---- a reply comes ----

  /** Of a full header's length, for a query in flight, from port 53 of the server the query is at. */
  predicate IsExpected(s: State, m: Message, from: Ip, port: nat) {
    && m.size >= 12 && m.id in s.pending
    && 0 <= s.pending[m.id].idx < |s.pending[m.id].servers|
    && from == s.pending[m.id].servers[s.pending[m.id].idx] && port == 53
  }

  predicate IsServerFailure(m: Message) {
    m.body.Some? && (m.body.value.rcode == ServFail || m.body.value.rcode == Refused)
  }

  lemma {:induction false} OtherRepliesAreIgnored(s: State, m: Message, from: Ip, port: nat, now: Time)
    requires Sized(s) && (!IsExpected(s, m, from, port) || (!m.truncated && m.body.None?))
    ensures Step(s, Reply(m, from, port), now) == s
  {
    AtAServer(s, m.id);
  }

  lemma {:induction false} TruncatedReplyGoesToTcp(s: State, m: Message, from: Ip, port: nat, now: Time)
    requires Sized(s) && IsExpected(s, m, from, port) && m.truncated
    ensures var s', q := Step(s, Reply(m, from, port), now), s.pending[m.id];
            && s'.pending == s.pending - {m.id} && s'.answers == s.answers
            && s'.jobs == s.jobs[s.nextJob := Job(q.key, q.clients, m)]
  {
    hide Sized;
  }

  lemma {:induction false} FailedReplyMovesOn(s: State, m: Message, from: Ip, port: nat, now: Time)
    requires Sized(s) && IsExpected(s, m, from, port) && !m.truncated && IsServerFailure(m)
    requires s.pending[m.id].idx + 1 < |s.pending[m.id].servers|
    ensures var s', q := Step(s, Reply(m, from, port), now), s.pending[m.id];
            && s'.pending == s.pending[m.id := Query(q.clients, q.key, q.servers, q.idx + 1, now + 3000)]
            && s'.answers == s.answers && s'.jobs == s.jobs
  {
    SameKeys(s);
  }

  /** What a client is sent: the message under its own ID, over UDP cut if it is larger than the client takes. */
  ghost predicate Answers(a: Answer, c: Client, m: Message) {
    && a.to == c && a.msg.id == c.xid
    && (!c.udp || m.size <= c.maxPayload ==> a.msg == m.(id := c.xid))
    && (c.udp && m.size > c.maxPayload && c.maxPayload >= 512 ==> a.msg.truncated && a.msg.size <= c.maxPayload)
  }

  /** One new answer with the message for each of the clients, in order. */
  ghost predicate AllAnswered(before: seq<Answer>, after: seq<Answer>, clients: seq<Client>, m: Message) {
    && |after| == |before| + |clients| && before <= after
    && forall i | 0 <= i < |clients| :: Answers(after[|before| + i], clients[i], m)
  }

  lemma {:induction false} RepliesAnswer(before: seq<Answer>, clients: seq<Client>, m: Message)
    ensures AllAnswered(before, before + Replies(clients, m), clients, m)
  {
    hide PrepareClientResponse;
    forall i | 0 <= i < |clients|
      ensures Answers(Replies(clients, m)[i], clients[i], m)
    {
      if clients[i].maxPayload >= 512 {
        PreparedFits(m.(id := clients[i].xid), clients[i].maxPayload);
      }
      SmallIsLeft(m.(id := clients[i].xid), clients[i].maxPayload);
    }
  }

  lemma SmallIsLeft(m: Message, maxPayload: nat)
    ensures m.size <= maxPayload ==> PrepareClientResponse(m, maxPayload) == m
  {
  }

  /** Any other reply that is expected and complete goes to everyone waiting for it. */
  lemma {:induction false} CompleteReplyIsDelivered(s: State, m: Message, from: Ip, port: nat, now: Time)
    requires Sized(s) && IsExpected(s, m, from, port) && !m.truncated && m.body.Some?
    requires !IsServerFailure(m) || s.pending[m.id].idx + 1 == |s.pending[m.id].servers|
    ensures var s' := Step(s, Reply(m, from, port), now);
            && s'.pending == s.pending - {m.id} && s'.jobs == s.jobs
            && AllAnswered(s.answers, s'.answers, s.pending[m.id].clients, m)
  {
    hide Sized, Replies, AllAnswered;
    RepliesAnswer(s.answers, s.pending[m.id].clients, m);
  }

  /** The end of a TCP fallback answers everyone it was for, with the reply if there is one, else with the truncated one. */
  lemma {:induction false} TcpFallbackAnswers(s: State, j: nat, reply: Option<Message>, now: Time)
    requires Sized(s) && j in s.jobs
    ensures var s' := Step(s, TcpDone(j, reply), now);
            && s'.pending == s.pending && s'.jobs == s.jobs - {j}
            && (reply.Some? ==> AllAnswered(s.answers, s'.answers, s.jobs[j].clients, reply.value))
            && (reply.None? ==> AllAnswered(s.answers, s'.answers, s.jobs[j].clients, s.jobs[j].fallback))
  {
    hide Sized, Replies, AllAnswered;
    RepliesAnswer(s.answers, s.jobs[j].clients, if reply.Some? then reply.value else s.jobs[j].fallback);
  }

  // ---- a sweep ----

  lemma {:induction false} SweepMovesOn(s: State, now: Time)
    requires Sized(s)
    ensures var s' := Step(s, Sweep, now);
            SweptAsDue(s.pending, s'.pending, now) && s'.answers == s.answers && s'.jobs == s.jobs
  {
    forall x | x in s.pending
      ensures s.pending[x].idx < |s.pending[x].servers|
    {
      AtAServer(s, x);
    }
  }

  /** Everyone waiting for a query that is due at its last server is dropped. */
  lemma {:induction false} SweepDrops(s: State, now: Time, x: Xid, i: nat)
    requires Sized(s) && Placed(s) && x in s.pending && i < |s.pending[x].clients|
    requires s.pending[x].deadline <= now && s.pending[x].idx + 1 == |s.pending[x].servers|
    ensures x !in Step(s, Sweep, now).pending && IsDropped(Step(s, Sweep, now), s.pending[x].clients[i].id)
  {
    assert Seated(s, s.pending[x].clients[i], Waiting(x, i));
  }

  /** Nobody else is. */
  lemma {:induction false} SweepKeepsOthers(s: State, now: Time, x: Xid, i: nat)
    requires Sized(s) && Placed(s) && x in s.pending && i < |s.pending[x].clients|
    requires s.pending[x].deadline > now || s.pending[x].idx + 1 < |s.pending[x].servers|
    ensures !IsDropped(Step(s, Sweep, now), s.pending[x].clients[i].id)
  {
    assert Seated(s, s.pending[x].clients[i], Waiting(x, i));
  }
}
