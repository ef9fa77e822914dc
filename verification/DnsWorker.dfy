/**
 What the DNS worker does with a query from a client
 (src/services/dns_forwarder/worker.rs): answer it from the local tables, from
 the cache, or not at all, or forward it.
 */
module DnsWorker {
  import opened Options
  import opened Ipv4
  import opened DnsMessage
  import opened DnsCache
  import opened DnsForwarder
  import LocalNames
  import RateLimiter

  /** The first question of a query that the codec can parse, with its cache key and EDNS payload size. */
  datatype Parsed = Parsed(question: LocalNames.Question, key: Key, edns: Option<nat>)

  /** A query as received; `peer` is `None` for a client that is not on IPv4. */
  datatype Incoming = Incoming(size: nat, id: Xid, parsed: Option<Parsed>, udp: bool, peer: Option<Ip>)

  datatype Outcome =
    | Ignored
    | FromTables(id: Xid, answer: LocalNames.Answer)
    | FromCache(msg: Message)
    | RateLimited
    | Forwarded

  /** The payload a client takes: what it says, within limits, or the classic 512 bytes. */
  function ClientMaxPayload(edns: Option<nat>): (r: nat)
    ensures 512 <= r <= 4096
    ensures edns.None? ==> r == 512
    ensures edns.Some? && 512 <= edns.value <= 4096 ==> r == edns.value
    ensures edns.Some? && edns.value > 4096 ==> r == 4096
  {
    if edns.Some? then Clamp(edns.value, RFC1035_MAX_UDP_PAYLOAD, MAX_EDNS_PAYLOAD_SIZE) else RFC1035_MAX_UDP_PAYLOAD
  }

  class Worker {
    const forwarder: Forwarder
    const names: LocalNames.LocalDnsTable
    const limiter: RateLimiter.DnsRateLimiter
    var servers: seq<Ip>

    ghost predicate Valid()
      reads this, forwarder, forwarder.cache, names, limiter
    {
      forwarder.Valid() && names.Valid() && limiter.Valid()
    }

    constructor ()
      ensures limiter.ratePerSec == 100.0 && limiter.maxBurst == 150.0
      ensures Valid() && forwarder.book == INITIAL && names.log == [] && limiter.log == [] && forwarder.cache.clock == 0
    {
      forwarder := new Forwarder();
      names := new LocalNames.LocalDnsTable();
      limiter := new RateLimiter.DnsRateLimiter(RateLimiter.DEFAULT_DNS_RATE_LIMIT_PER_SEC, RateLimiter.DEFAULT_DNS_BURST_QUOTA);
      servers := [];
    }

    /** What the local tables answer, if the query can be parsed. */
    function LocalAnswer(q: Incoming): Option<LocalNames.Answer>
      reads names
    {
      if q.parsed.None? then None
      else LocalNames.TryResolveLocal(q.parsed.value.question, LocalNames.Tables(names.hosts, names.ips))
    }

    /**
     Every immediate answer is under the ID of the query.  An answer from the
     cache is the one the unbounded reference would give.  Only queries that
     neither answers and that the rate limiter grants are forwarded, and
     nothing else touches the queries in flight.
     */
    method HandleIncomingQuery(q: Incoming, unused: Xid, sent: bool, now: Time) returns (r: Outcome)
      requires Valid() && forwarder.cache.clock <= now && unused != 0 && unused !in forwarder.pending
      modifies forwarder, forwarder.cache, limiter
      ensures Valid() && forwarder.cache.clock <= now && forwarder.cache.spec == old(forwarder.cache.spec)
      ensures r.Ignored? <==> q.size < DNS_HEADER_SIZE || q.parsed.None?
                              || (q.peer.None? && !r.FromTables? && !r.FromCache?)
      ensures r.FromTables? <==> q.size >= DNS_HEADER_SIZE && LocalAnswer(q).Some?
      ensures r.FromTables? ==> r.id == q.id && LocalAnswer(q) == Some(r.answer)
      ensures r.FromCache? ==>
                && q.parsed.Some? && r.msg.id == q.id
                && (q.udp ==> r.msg.size <= ClientMaxPayload(q.parsed.value.edns))
                && exists m :: AnswerOf(old(forwarder.cache.spec), q.parsed.value.key, now) == Some(m)
                               && r.msg == ReplyFor(m, Client(0, q.udp, q.id, ClientMaxPayload(q.parsed.value.edns)))
      ensures !forwarder.cache.overflowed && (r.RateLimited? || r.Forwarded?) ==>
                q.parsed.Some? && AnswerOf(old(forwarder.cache.spec), q.parsed.value.key, now) == None
      ensures r.RateLimited? || r.Forwarded? ==>
                && q.peer.Some?
                && limiter.log == old(limiter.log) + [RateLimiter.Op(RateLimiter.Check(q.peer.value), now as real / 1000.0)]
                && (r.Forwarded? <==> RateLimiter.Verdicts(RateLimiter.Spec(limiter.ratePerSec, limiter.maxBurst),
                                                           RateLimiter.InTokens(limiter.ratePerSec, limiter.log))[|old(limiter.log)|])
      ensures !(r.RateLimited? || r.Forwarded?) ==> limiter.log == old(limiter.log)
      ensures !r.Forwarded? ==> forwarder.book == old(forwarder.book)
      ensures r.Forwarded? ==> q.parsed.Some? && exists found ::
                var e := Arrive(q.udp, q.id, ClientMaxPayload(q.parsed.value.edns), q.parsed.value.key, found, unused, servers, sent);
                Possible(old(forwarder.book), e) && forwarder.book == Step(old(forwarder.book), e, now)
    {
      hide Sized, Placed, OwnIds, Step, Possible, Refines, Complete, RateLimiter.Verdicts, RateLimiter.InTokens,
           RateLimiter.StateAt, LocalNames.After, LocalNames.TryResolveLocal, RateLimiter.TableInTokens;
      if q.size < DNS_HEADER_SIZE || q.parsed.None? {
        return Ignored;
      }
      var parsed := q.parsed.value;
      var local := LocalAnswer(q);
      if local.Some? {
        return FromTables(q.id, local.value);
      }
      var maxPayload := ClientMaxPayload(parsed.edns);
      var hit := forwarder.cache.Lookup(parsed.key, now);
      if hit.Some? {
        PreparedFits(hit.value.(id := q.id), maxPayload);
        return FromCache(ReplyFor(hit.value, Client(0, q.udp, q.id, maxPayload)));
      }
      if q.peer.None? {
        return Ignored;
      }
      var granted := limiter.Check(q.peer.value, now as real / 1000.0);
      if !granted {
        return RateLimited;
      }
      forwarder.Forward(q.udp, q.id, maxPayload, parsed.key, unused, servers, sent, now);
      r := Forwarded;
    }
  }
}
