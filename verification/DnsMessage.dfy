/**
 DNS messages as far as the forwarder looks into them
 (src/services/dns_forwarder/worker.rs), and how long an answer may be cached.
 */
module DnsMessage {
  import opened Naturals
  import opened Options

  type Xid = x: nat | x < 0x1_0000

  const DNS_HEADER_SIZE: nat := 12
  const RFC1035_MAX_UDP_PAYLOAD: nat := 512
  const MAX_EDNS_PAYLOAD_SIZE: nat := 4096
  const MAX_TTL_SECS: nat := 3600
  const DEFAULT_NEGATIVE_TTL_SECS: nat := 60
  const MIN_NEGATIVE_TTL_SECS: nat := 5
  const MAX_NEGATIVE_TTL_SECS: nat := 300

  datatype Rcode = NoError | NXDomain | ServFail | Refused | OtherCode

  datatype Authority = Soa(ttl: nat, minimum: nat) | OtherRecord

  /**
   What the codec makes of a message: the TTLs of its answers, its authority
   records, the size it has after truncation, and the rest of its content.
   */
  datatype Body = Body(isResponse: bool, rcode: Rcode, answers: seq<nat>, authorities: seq<Authority>,
                       truncatedSize: nat, content: nat)

  /** A message on the wire; `body` is `None` where the codec cannot parse it. */
  datatype Message = Message(id: Xid, size: nat, truncated: bool, body: Option<Body>)

  function Clamp(x: nat, lo: nat, hi: nat): nat
    requires lo <= hi
  {
    if x < lo then lo else if x > hi then hi else x
  }

  // ---- replies to clients ----

  /** Cuts a response that exceeds the payload the client takes; every way of doing so keeps the ID. */
  function PrepareClientResponse(m: Message, maxPayload: nat): (r: Message) {
    if m.size <= maxPayload then m
    else if m.body.Some? && m.body.value.truncatedSize <= maxPayload then
      m.(size := m.body.value.truncatedSize, truncated := true)
    else if m.size >= DNS_HEADER_SIZE then
      m.(size := DNS_HEADER_SIZE, truncated := true, body := None)
    else m
  }

  /** Whatever is sent fits, is marked if it was cut, and is for the same question. */
  lemma PreparedFits(m: Message, maxPayload: nat)
    requires maxPayload >= RFC1035_MAX_UDP_PAYLOAD
    ensures var r := PrepareClientResponse(m, maxPayload);
            && r.size <= maxPayload && r.id == m.id && (r == m || r.truncated)
            && (r == m || m.size > maxPayload)
            && (m.size <= maxPayload ==> r == m)
            && (m.size > maxPayload && m.body.Some? && m.body.value.truncatedSize <= maxPayload ==>
                  r.body == m.body && r.size == m.body.value.truncatedSize)
            && (r.body != m.body ==> r.size == 12)
  {
  }

  // ---- TTLs ----

  /** The least of the TTLs. */
  function MinTtl(ttls: seq<nat>): (r: nat)
    requires ttls != []
  {
    if |ttls| == 1 then ttls[0] else Min(ttls[0], MinTtl(ttls[1..]))
  }

  lemma {:induction false} MinTtlIsLeast(ttls: seq<nat>)
    requires ttls != []
    ensures MinTtl(ttls) in ttls && forall i | 0 <= i < |ttls| :: MinTtl(ttls) <= ttls[i]
  {
    if |ttls| > 1 {
      MinTtlIsLeast(ttls[1..]);
    }
  }

  /** How long an answer that nothing was found is kept, from the first SOA record. */
  function NegativeTtl(authorities: seq<Authority>): (r: nat) {
    if authorities == [] then DEFAULT_NEGATIVE_TTL_SECS
    else match authorities[0]
      case Soa(ttl, minimum) => Clamp(Min(ttl, minimum), MIN_NEGATIVE_TTL_SECS, MAX_NEGATIVE_TTL_SECS)
      case OtherRecord => NegativeTtl(authorities[1..])
  }

  function CacheTtl(m: Message): (r: Option<nat>) {
    if m.body.None? || m.truncated || !m.body.value.isResponse then None
    else
      var b := m.body.value;
      match b.rcode
      case NoError =>
        if b.answers == [] then Some(NegativeTtl(b.authorities))
        else
          var raw := MinTtl(b.answers);
          if raw == 0 then None else Some(Min(MAX_TTL_SECS, raw))
      case NXDomain => Some(NegativeTtl(b.authorities))
      case _ => None
  }

  /** A response that says the name or the data does not exist. */
  predicate IsNegative(b: Body) {
    b.rcode == NXDomain || (b.rcode == NoError && b.answers == [])
  }

  // By section 5 of RFC 2308: the lesser of the SOA's TTL and its MINIMUM field, within limits.
  lemma {:induction false} NegativeTtlIs(authorities: seq<Authority>)
    ensures var r := NegativeTtl(authorities);
            || (r == DEFAULT_NEGATIVE_TTL_SECS && forall i | 0 <= i < |authorities| :: authorities[i].OtherRecord?)
            || exists i | 0 <= i < |authorities| :: FirstSoaGives(authorities, i, r)
  {
    if authorities != [] && authorities[0].OtherRecord? {
      var rest := authorities[1..];
      NegativeTtlIs(rest);
      if i :| 0 <= i < |rest| && FirstSoaGives(rest, i, NegativeTtl(rest)) {
        assert FirstSoaGives(authorities, i + 1, NegativeTtl(authorities));
      }
    } else if authorities != [] {
      assert FirstSoaGives(authorities, 0, NegativeTtl(authorities));
    }
  }

  predicate FirstSoaGives(authorities: seq<Authority>, i: nat, ttl: nat)
    requires i < |authorities|
  {
    && authorities[i].Soa? && (forall k | 0 <= k < i :: authorities[k].OtherRecord?)
    && MIN_NEGATIVE_TTL_SECS <= ttl <= MAX_NEGATIVE_TTL_SECS
    && (ttl > MIN_NEGATIVE_TTL_SECS ==> ttl <= authorities[i].ttl && ttl <= authorities[i].minimum)
    && (ttl < MAX_NEGATIVE_TTL_SECS ==> ttl >= authorities[i].ttl || ttl >= authorities[i].minimum)
  }

  /**
   Which responses are cached, and for how long: complete responses only; an
   answer for no longer than an hour or any of its records, never with a TTL
   of zero; a negative one for a minute, or as its SOA says.
   */
  lemma CacheTtlBounds(m: Message)
    ensures CacheTtl(m).Some? <==>
              && m.body.Some? && !m.truncated && m.body.value.isResponse
              && (IsNegative(m.body.value) || (m.body.value.rcode == NoError && 0 !in m.body.value.answers))
    ensures CacheTtl(m).Some? && !IsNegative(m.body.value) ==>
              && 1 <= CacheTtl(m).value <= MAX_TTL_SECS
              && (forall i | 0 <= i < |m.body.value.answers| :: CacheTtl(m).value <= m.body.value.answers[i])
              && (CacheTtl(m).value == MAX_TTL_SECS || CacheTtl(m).value in m.body.value.answers)
    ensures CacheTtl(m).Some? && IsNegative(m.body.value) ==>
              CacheTtl(m).value == DEFAULT_NEGATIVE_TTL_SECS
              || MIN_NEGATIVE_TTL_SECS <= CacheTtl(m).value <= MAX_NEGATIVE_TTL_SECS
  {
    if m.body.Some? {
      NegativeTtlIs(m.body.value.authorities);
      if m.body.value.answers != [] {
        MinTtlIsLeast(m.body.value.answers);
      }
    }
  }
}
