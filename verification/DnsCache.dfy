/**
 The bounded answer cache of the DNS forwarder
 (src/services/dns_forwarder/worker.rs).  Times are milliseconds.

 The reference is a table without bound that keeps, for every key, the last
 cacheable response until its TTL is over.
 */
module DnsCache {
  import opened Options
  import opened DnsMessage

  const MAX_CACHE_ENTRIES: nat := 4096

  type Time = nat

  /** The name, type and class asked for. */
  type Key = string

  datatype Entry = Entry(response: Message, expiry: Time)

  type Cache = map<Key, Entry>

  /** The entry a response makes at `now`, if it is cacheable. */
  function EntryFor(m: Message, now: Time): (r: Option<Entry>)
    ensures r.Some? ==> r.value.expiry > now
  {
    if m.size < DNS_HEADER_SIZE then None
    else
      var ttl := CacheTtl(m);
      CacheTtlBounds(m);
      if ttl.None? then None else Some(Entry(m, now + 1000 * ttl.value))
  }

  predicate LiveIn(c: Cache, key: Key, now: Time) {
    key in c && c[key].expiry > now
  }

  /** What a cache, bounded or not, has to say about a key. */
  function AnswerOf(c: Cache, key: Key, now: Time): Option<Message> {
    if LiveIn(c, key, now) then Some(c[key].response) else None
  }

  function Unexpired(c: Cache, now: Time): Cache {
    map key | key in c && c[key].expiry > now :: c[key]
  }

  /** `key` has an entry that expires no later than any other. */
  predicate IsOldest(c: Cache, key: Key) {
    key in c && forall k | k in c :: c[key].expiry <= c[k].expiry
  }

  /** The cache before an entry for `key` is put in; `victim` breaks ties between oldest entries. */
  function Trimmed(c: Cache, key: Key, now: Time, victim: Key): Cache {
    if |c| < MAX_CACHE_ENTRIES || key in c then c
    else
      var live := Unexpired(c, now);
      if |live| < MAX_CACHE_ENTRIES then live else live - {victim}
  }

  function Inserted(c: Cache, key: Key, m: Message, now: Time, victim: Key): Cache {
    var entry := EntryFor(m, now);
    if entry.None? then c else Trimmed(c, key, now, victim)[key := entry.value]
  }

  /** The unbounded reference after the same insertion. */
  function Remembered(spec: Cache, key: Key, m: Message, now: Time): Cache {
    var entry := EntryFor(m, now);
    if entry.None? then spec else spec[key := entry.value]
  }

  /** A full cache of unexpired entries, none for `key`, gives up an oldest one. */
  predicate VictimOk(c: Cache, key: Key, now: Time, victim: Key) {
    |c| >= MAX_CACHE_ENTRIES && key !in c && |Unexpired(c, now)| >= MAX_CACHE_ENTRIES ==>
      IsOldest(Unexpired(c, now), victim)
  }

  /** Within its bound, and holding nothing the reference would not say. */
  ghost predicate Refines(c: Cache, spec: Cache) {
    |c| <= MAX_CACHE_ENTRIES && forall key | key in c :: key in spec && c[key] == spec[key]
  }

  /** Nothing that the reference would still say is missing. */
  ghost predicate Complete(c: Cache, spec: Cache, now: Time) {
    forall key | LiveIn(spec, key, now) :: key in c
  }

  ghost function LiveKeys(c: Cache, now: Time): set<Key> {
    set key | key in c && c[key].expiry > now
  }

  // ---- how long a response is remembered ----

  /** A complete response to a query, of a full header's length. */
  predicate IsComplete(m: Message) {
    m.size >= 12 && !m.truncated && m.body.Some? && m.body.value.isResponse
  }

  /** The reference says `m` of `key` from `now` on until `secs` seconds have passed, and nothing new of other keys. */
  ghost predicate RemembersFor(spec: Cache, key: Key, m: Message, now: Time, secs: nat) {
    && (forall t: Time :: AnswerOf(Remembered(spec, key, m, now), key, t) == if t < now + 1000 * secs then Some(m) else None)
    && (forall k: Key, t: Time | k != key :: AnswerOf(Remembered(spec, key, m, now), k, t) == AnswerOf(spec, k, t))
  }

  /** An answer is remembered for the least TTL of its records, an hour at most. */
  lemma {:induction false} RemembersAnswers(spec: Cache, key: Key, m: Message, now: Time, least: nat)
    requires IsComplete(m) && m.body.value.rcode == NoError
    requires least in m.body.value.answers && least > 0 && forall i | 0 <= i < |m.body.value.answers| :: least <= m.body.value.answers[i]
    ensures RemembersFor(spec, key, m, now, if least < 3600 then least else 3600)
  {
    MinTtlIsLeast(m.body.value.answers);
    RemembersForTtl(spec, key, m, now);
  }

  /** A negative one for as long as its first SOA record says, within 5 and 300 seconds, or for 60 without one. */
  lemma {:induction false} RemembersNegatives(spec: Cache, key: Key, m: Message, now: Time, i: nat)
    requires IsComplete(m)
    requires m.body.value.rcode == NXDomain || (m.body.value.rcode == NoError && m.body.value.answers == [])
    requires i <= |m.body.value.authorities| && forall k | 0 <= k < i :: m.body.value.authorities[k].OtherRecord?
    ensures i == |m.body.value.authorities| ==> RemembersFor(spec, key, m, now, 60)
    ensures i < |m.body.value.authorities| && m.body.value.authorities[i].Soa? ==>
              var soa := m.body.value.authorities[i];
              var lesser := if soa.ttl <= soa.minimum then soa.ttl else soa.minimum;
              RemembersFor(spec, key, m, now, if lesser < 5 then 5 else if lesser > 300 then 300 else lesser)
  {
    NegativeTtlOf(m.body.value.authorities, i);
    RemembersForTtl(spec, key, m, now);
  }

  /** What is truncated, not a response, an error, or has a record with TTL zero is not remembered at all. */
  lemma {:induction false} ForgetsOthers(spec: Cache, key: Key, m: Message, now: Time)
    requires !IsComplete(m) || (m.body.value.rcode != NoError && m.body.value.rcode != NXDomain)
             || (m.body.value.rcode == NoError && 0 in m.body.value.answers)
    ensures Remembered(spec, key, m, now) == spec
  {
    CacheTtlBounds(m);
  }

  lemma {:induction false} RemembersForTtl(spec: Cache, key: Key, m: Message, now: Time)
    requires m.size >= 12 && CacheTtl(m).Some?
    ensures RemembersFor(spec, key, m, now, CacheTtl(m).value)
  {
    hide CacheTtl;
  }

  lemma {:induction false} NegativeTtlOf(authorities: seq<Authority>, i: nat)
    requires i <= |authorities| && forall k | 0 <= k < i :: authorities[k].OtherRecord?
    ensures i == |authorities| ==> NegativeTtl(authorities) == 60
    ensures i < |authorities| && authorities[i].Soa? ==>
              var lesser := if authorities[i].ttl <= authorities[i].minimum then authorities[i].ttl else authorities[i].minimum;
              NegativeTtl(authorities) == if lesser < 5 then 5 else if lesser > 300 then 300 else lesser
  {
    if i > 0 {
      NegativeTtlOf(authorities[1..], i - 1);
    }
  }

  // ---- the bounded cache against the reference ----

  /** Every hit is what the reference says; with nothing missing, so is every miss. */
  lemma AnswersAgree(c: Cache, spec: Cache, key: Key, now: Time)
    requires Refines(c, spec)
    ensures AnswerOf(c, key, now).Some? ==> AnswerOf(c, key, now) == AnswerOf(spec, key, now)
    ensures Complete(c, spec, now) ==> AnswerOf(c, key, now) == AnswerOf(spec, key, now)
  {
  }

  lemma UnexpiredKeys(c: Cache, now: Time)
    ensures Unexpired(c, now).Keys == LiveKeys(c, now) && |Unexpired(c, now)| == |LiveKeys(c, now)|
    ensures |Unexpired(c, now)| <= |c|
  {
    assert Unexpired(c, now).Keys == LiveKeys(c, now);
    SubsetSize(LiveKeys(c, now), c.Keys);
  }

  lemma {:induction false} SubsetSize<T>(a: set<T>, b: set<T>)
    requires a <= b
    ensures |a| <= |b|
    decreases |a|
  {
    if x :| x in a {
      SubsetSize(a - {x}, b - {x});
    }
  }

  lemma TrimmedRefines(c: Cache, spec: Cache, key: Key, now: Time, victim: Key)
    requires Refines(c, spec) && VictimOk(c, key, now, victim)
    ensures Refines(Trimmed(c, key, now, victim), spec)
    ensures key in c || |Trimmed(c, key, now, victim)| < MAX_CACHE_ENTRIES
  {
    UnexpiredKeys(c, now);
    var live := Unexpired(c, now);
    if |c| >= MAX_CACHE_ENTRIES && key !in c && |live| >= MAX_CACHE_ENTRIES {
      assert (live - {victim}).Keys == live.Keys - {victim};
    }
  }

  /** Insertion keeps the cache within its bound and true to the reference, whatever it gives up. */
  lemma {:induction false} InsertRefines(c: Cache, spec: Cache, key: Key, m: Message, now: Time, victim: Key)
    requires Refines(c, spec) && (EntryFor(m, now).Some? ==> VictimOk(c, key, now, victim))
    ensures Refines(Inserted(c, key, m, now, victim), Remembered(spec, key, m, now))
  {
    hide Trimmed, Refines, VictimOk, EntryFor;
    var entry := EntryFor(m, now);
    if entry.Some? {
      TrimmedRefines(c, spec, key, now, victim);
      TrimmedKeeps(c, key, now, victim);
      PutRefines(Trimmed(c, key, now, victim), spec, key, entry.value);
    }
  }

  lemma {:induction false} TrimmedKeeps(c: Cache, key: Key, now: Time, victim: Key)
    ensures key in c ==> Trimmed(c, key, now, victim) == c
  {
  }

  lemma {:induction false} PutRefines(c: Cache, spec: Cache, key: Key, entry: Entry)
    requires Refines(c, spec) && (key in c || |c| < MAX_CACHE_ENTRIES)
    ensures Refines(c[key := entry], spec[key := entry])
  {
    var c' := c[key := entry];
    assert c'.Keys == c.Keys + {key};
    if key in c {
      assert c'.Keys == c.Keys;
    }
  }

  /**
   Insertion costs at most one unexpired entry, and only in a cache that holds
   4096 of them; that one expires no later than any that is kept.
   */
  lemma {:induction false} InsertLosesOne(c: Cache, key: Key, m: Message, now: Time, victim: Key, k: Key)
    requires |c| <= 4096 && EntryFor(m, now).Some? && VictimOk(c, key, now, victim)
    requires k != key && k in c && c[k].expiry > now
    ensures var c' := Inserted(c, key, m, now, victim);
            && key in c' && c'[key] == EntryFor(m, now).value
            && (k in c' ==> c'[k] == c[k])
            && (k !in c' ==> && k == victim && |LiveKeys(c, now)| == 4096 && key !in c
                             && forall other | other in c && c[other].expiry > now :: c[k].expiry <= c[other].expiry)
  {
    UnexpiredKeys(c, now);
    var live := Unexpired(c, now);
    assert forall other | other in c && c[other].expiry > now :: other in live && live[other] == c[other];
  }

  lemma CompleteLiveKeys(c: Cache, spec: Cache, now: Time)
    requires Refines(c, spec) && Complete(c, spec, now)
    ensures LiveKeys(c, now) == LiveKeys(spec, now)
  {
    forall key
      ensures key in LiveKeys(c, now) <==> key in LiveKeys(spec, now)
    {
      if LiveIn(spec, key, now) {
        assert key in c;
      }
    }
  }

  lemma LiveAfterInsert(spec: Cache, key: Key, entry: Entry, now: Time)
    requires entry.expiry > now
    ensures LiveKeys(spec[key := entry], now) == LiveKeys(spec, now) + {key}
  {
  }

  /**
   Insertion loses nothing the reference would still say exactly if the
   reference then holds no more unexpired keys than the cache has room for.
   */
  lemma InsertCompleteIff(c: Cache, spec: Cache, key: Key, m: Message, now: Time, victim: Key)
    requires Refines(c, spec) && Complete(c, spec, now) && (EntryFor(m, now).Some? ==> VictimOk(c, key, now, victim))
    ensures Complete(Inserted(c, key, m, now, victim), Remembered(spec, key, m, now), now)
            <==> |LiveKeys(Remembered(spec, key, m, now), now)| <= MAX_CACHE_ENTRIES
  {
    InsertRefines(c, spec, key, m, now, victim);
    CompleteLiveKeys(c, spec, now);
    UnexpiredKeys(c, now);
    var entry := EntryFor(m, now);
    var c', spec' := Inserted(c, key, m, now, victim), Remembered(spec, key, m, now);
    if entry.None? {
      return;
    }
    LiveAfterInsert(spec, key, entry.value, now);
    var live := LiveKeys(spec, now);
    if |c| < MAX_CACHE_ENTRIES || key in c {
      KeepsAll(c, spec, key, entry.value, now);
    } else if |live| < MAX_CACHE_ENTRIES {
      KeepsAll(Unexpired(c, now), spec, key, entry.value, now);
    } else {
      assert victim in live && LiveIn(spec', victim, now) && victim !in c';
      assert |live + {key}| == |live| + 1;
    }
  }

  // Putting an entry into a cache with room for it that misses nothing leaves nothing missing.
  lemma KeepsAll(c: Cache, spec: Cache, key: Key, entry: Entry, now: Time)
    requires LiveKeys(spec, now) <= c.Keys && entry.expiry > now
    requires key in c || |c| < MAX_CACHE_ENTRIES
    requires |c| <= MAX_CACHE_ENTRIES
    ensures Complete(c[key := entry], spec[key := entry], now)
    ensures |LiveKeys(spec[key := entry], now)| <= MAX_CACHE_ENTRIES
  {
    LiveAfterInsert(spec, key, entry, now);
    var c' := c[key := entry];
    assert c'.Keys == c.Keys + {key};
    forall k | LiveIn(spec[key := entry], k, now)
      ensures k in c'
    {
      assert k in LiveKeys(spec[key := entry], now);
    }
    SubsetSize(LiveKeys(spec, now) + {key}, c'.Keys);
  }

  /** Dropping what has expired, at once or on lookup, keeps both properties from then on. */
  lemma DropExpired(c: Cache, spec: Cache, dropped: set<Key>, now: Time, later: Time)
    requires Refines(c, spec) && now <= later
    requires forall key | key in dropped && key in c :: c[key].expiry <= now
    ensures Refines(c - dropped, spec)
    ensures Complete(c, spec, now) ==> Complete(c - dropped, spec, later)
  {
    assert (c - dropped).Keys == c.Keys - dropped;
    SubsetSize(c.Keys - dropped, c.Keys);
    if Complete(c, spec, now) {
      forall key | LiveIn(spec, key, later)
        ensures key in c - dropped
      {
        assert LiveIn(spec, key, now);
      }
    }
  }

  // ---- the cache itself ----

  /**
   The cache beside its reference.  `overflowed` records whether an insertion
   ever left the reference with more unexpired keys than there is room for.
   */
  class AnswerCache {
    var cache: Cache
    ghost var spec: Cache
    ghost var clock: Time
    ghost var overflowed: bool

    ghost predicate Valid()
      reads this
    {
      Refines(cache, spec) && (!overflowed ==> Complete(cache, spec, clock))
    }

    constructor ()
      ensures Valid() && spec == map[] && !overflowed && clock == 0
    {
      cache, spec, clock, overflowed := map[], map[], 0, false;
    }

    method EvictExpired(now: Time)
      requires Valid() && clock <= now
      modifies this
      ensures Valid() && clock == now && spec == old(spec) && overflowed == old(overflowed)
      ensures cache == Unexpired(old(cache), now)
    {
      ghost var expired := set key | key in cache && cache[key].expiry <= now;
      CompleteLater(cache, spec, clock, now);
      DropExpired(cache, spec, expired, now, now);
      assert Unexpired(cache, now) == cache - expired;
      cache := Unexpired(cache, now);
      clock := now;
    }

    method Lookup(key: Key, now: Time) returns (r: Option<Message>)
      requires Valid() && clock <= now
      modifies this
      ensures Valid() && clock == now && spec == old(spec) && overflowed == old(overflowed)
      ensures r.Some? ==> r == AnswerOf(spec, key, now)
      ensures !overflowed ==> r == AnswerOf(spec, key, now)
    {
      CompleteLater(cache, spec, clock, now);
      AnswersAgree(cache, spec, key, now);
      r := AnswerOf(cache, key, now);
      if key in cache && r.None? {
        DropExpired(cache, spec, {key}, now, now);
        cache := cache - {key};
      }
      clock := now;
    }

    method Insert(key: Key, m: Message, now: Time)
      requires Valid() && clock <= now
      modifies this
      ensures Valid() && clock == now && |cache| <= MAX_CACHE_ENTRIES
      ensures spec == Remembered(old(spec), key, m, now)
      ensures overflowed <==> old(overflowed) || |LiveKeys(spec, now)| > MAX_CACHE_ENTRIES
    {
      hide Refines, Complete, Inserted, Remembered, LiveKeys, VictimOk;
      CompleteLater(cache, spec, clock, now);
      ghost var before := cache;
      cache := InsertCache(key, m, cache, now);
      ghost var victim :| (EntryFor(m, now).Some? ==> VictimOk(before, key, now, victim))
                          && cache == Inserted(before, key, m, now, victim);
      InsertRefines(before, spec, key, m, now, victim);
      if !overflowed {
        InsertCompleteIff(before, spec, key, m, now, victim);
      }
      spec := Remembered(spec, key, m, now);
      overflowed := overflowed || |LiveKeys(spec, now)| > MAX_CACHE_ENTRIES;
      clock := now;
      RefinesIsBounded(cache, spec);
    }
  }

  method InsertCache(key: Key, m: Message, c: Cache, now: Time) returns (c': Cache)
    ensures exists victim :: (EntryFor(m, now).Some? ==> VictimOk(c, key, now, victim)) && c' == Inserted(c, key, m, now, victim)
  {
    c' := c;
    ghost var victim := "";
    var entry := EntryFor(m, now);
    if entry.None? {
      assert c' == Inserted(c, key, m, now, victim);
      return;
    }
    if |c'| >= MAX_CACHE_ENTRIES && key !in c' {
      c' := Unexpired(c', now);
      if |c'| >= MAX_CACHE_ENTRIES {
        var oldest := Oldest(c');
        c' := c' - {oldest};
        victim := oldest;
      }
    }
    c' := c'[key := entry.value];
    assert VictimOk(c, key, now, victim) && c' == Inserted(c, key, m, now, victim);
  }

  lemma RefinesIsBounded(c: Cache, spec: Cache)
    requires Refines(c, spec)
    ensures |c| <= MAX_CACHE_ENTRIES
  {
  }

  lemma CompleteLater(c: Cache, spec: Cache, now: Time, later: Time)
    requires now <= later
    ensures Complete(c, spec, now) ==> Complete(c, spec, later)
  {
    assert forall key | LiveIn(spec, key, later) :: LiveIn(spec, key, now);
  }

  /** A key with the least expiry. */
  method Oldest(c: Cache) returns (oldest: Key)
    ensures c != map[] ==> IsOldest(c, oldest)
  {
    oldest := "";
    var todo := c.Keys;
    if todo == {} {
      return;
    }
    oldest :| oldest in todo;
    todo := todo - {oldest};
    while todo != {}
      invariant todo <= c.Keys && oldest in c
      invariant forall k | k in c && k !in todo :: c[oldest].expiry <= c[k].expiry
      decreases |todo|
    {
      var k :| k in todo;
      todo := todo - {k};
      if c[k].expiry < c[oldest].expiry {
        oldest := k;
      }
    }
  }
}
