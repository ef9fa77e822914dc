/**
 Forwarding of DNS queries (src/services/dns_forwarder/worker.rs): queries in
 flight under transaction IDs of the forwarder's own, clients joined to them,
 failover from one upstream server to the next, the fallback to TCP, and the
 fan-out of the answer.  Times are milliseconds.
 */
module DnsForwarder {
  import opened Options
  import opened Ipv4
  import opened DnsMessage
  import opened DnsCache

  const UPSTREAM_TIMEOUT: nat := 3000
  const CLEANUP_INTERVAL: nat := 1000
  const MAX_PENDING_QUERIES: nat := 4096
  const MAX_JOINED_CLIENTS_PER_QUERY: nat := 64
  const DNS_PORT: nat := 53
  const FALLBACK_DNS_SERVER: Ip := 0x0808_0808

  /** A client waiting for an answer; `id` numbers the clients accepted for forwarding as they come. */
  datatype Client = Client(id: nat, udp: bool, xid: Xid, maxPayload: nat)

  /** A query in flight: at `servers[idx]`, until `deadline`. */
  datatype Query = Query(clients: seq<Client>, key: Key, servers: seq<Ip>, idx: nat, deadline: Time)

  /** A query being repeated over TCP, with the truncated reply to fall back on. */
  datatype Job = Job(key: Key, clients: seq<Client>, fallback: Message)

  datatype Answer = Answer(to: Client, msg: Message)

  // ---- upstream servers ----

  predicate IsValidUpstream(ip: Ip) {
    && ip != 0 && ip != 0xFFFF_FFFF
    && !(0x7F00_0000 <= ip <= 0x7FFF_FFFF)      // loopback
    && !(0xE000_0000 <= ip <= 0xEFFF_FFFF)      // multicast
    && !(0xA9FE_0000 <= ip <= 0xA9FE_FFFF)      // link-local
    && !(0xC000_0200 <= ip <= 0xC000_02FF)      // documentation
    && !(0xC633_6400 <= ip <= 0xC633_64FF)
    && !(0xCB00_7100 <= ip <= 0xCB00_71FF)
  }

  function ValidOnly(ips: seq<Ip>): seq<Ip> {
    if ips == [] then []
    else if IsValidUpstream(ips[0]) then [ips[0]] + ValidOnly(ips[1..])
    else ValidOnly(ips[1..])
  }

  /** The usable ones of the configured servers, or the built-in one if there is none. */
  function UpstreamResolvers(configured: seq<Ip>): (r: seq<Ip>)
    ensures r != []
  {
    var valid := ValidOnly(configured);
    if valid != [] then valid else [FALLBACK_DNS_SERVER]
  }

  // ---- answers ----

  /** The reply as one client gets it: under its own ID and, over UDP, cut to what it takes. */
  function ReplyFor(m: Message, c: Client): (r: Message)
    ensures r.id == c.xid
  {
    var own := m.(id := c.xid);
    if c.udp then PrepareClientResponse(own, c.maxPayload) else own
  }

  function Replies(clients: seq<Client>, m: Message): (r: seq<Answer>)
    ensures |r| == |clients|
  {
    seq(|clients|, i requires 0 <= i < |clients| => Answer(clients[i], ReplyFor(m, clients[i])))
  }

  // ---- the state, with the book kept beside it ----

  /** Where an accepted client is. */
  datatype Place = Waiting(xid: Xid, i: nat) | OverTcp(job: nat, i: nat) | Answered(k: nat) | Dropped

  /** When a query was first sent, and the servers it has been sent to over UDP. */
  datatype Record = Record(born: Time, sent: seq<Ip>)

  /**
   The queries in flight, the TCP fallbacks running and the answers given;
   beside them the clients accepted so far, where each of them is, a record of
   each query in flight, and the time of the last timeout sweep.
   */
  datatype State = State(pending: map<Xid, Query>, jobs: map<nat, Job>, nextJob: nat, answers: seq<Answer>,
                         clients: seq<Client>, place: map<nat, Place>, records: map<Xid, Record>, lastSweep: Time)

  const INITIAL := State(map[], map[], 0, [], [], map[], map[], 0)

  /**
   `Arrive` is a query that was not answered locally or from the cache and
   passed the rate limit.  `found` is a query in flight for the same key, if
   there is one, `unused` a random ID, and `sent` whether sending succeeded.
   */
  datatype Event =
    | Arrive(udp: bool, xid: Xid, maxPayload: nat, key: Key, found: Option<Xid>, unused: Xid, configured: seq<Ip>, sent: bool)
    | Reply(msg: Message, from: Ip, port: nat)
    | Sweep
    | TcpDone(job: nat, reply: Option<Message>)

  /** The choices left to chance are made as the code makes them. */
  predicate Possible(s: State, e: Event) {
    e.Arrive? ==>
      && (match e.found
          case None => forall x | x in s.pending :: s.pending[x].key != e.key
          case Some(x) => x in s.pending && s.pending[x].key == e.key)
      && e.unused != 0 && e.unused !in s.pending
  }

  function Join(s: State, x: Xid, c: Client): State
    requires x in s.pending
  {
    var q := s.pending[x];
    s.(pending := s.pending[x := q.(clients := q.clients + [c])],
       clients := s.clients + [c], place := s.place[c.id := Waiting(x, |q.clients|)])
  }

  function Open(s: State, x: Xid, c: Client, key: Key, servers: seq<Ip>, now: Time): State
    requires servers != []
  {
    s.(pending := s.pending[x := Query([c], key, servers, 0, now + UPSTREAM_TIMEOUT)],
       records := s.records[x := Record(now, [servers[0]])],
       clients := s.clients + [c], place := s.place[c.id := Waiting(x, 0)])
  }

  function TurnAway(s: State, c: Client): State {
    s.(clients := s.clients + [c], place := s.place[c.id := Dropped])
  }

  function Arrived(s: State, e: Event, now: Time): State
    requires e.Arrive? && Possible(s, e)
  {
    var c := Client(|s.clients|, e.udp, e.xid, e.maxPayload);
    if e.found.Some? && |s.pending[e.found.value].clients| < MAX_JOINED_CLIENTS_PER_QUERY then
      Join(s, e.found.value, c)
    else if |s.pending| >= MAX_PENDING_QUERIES || !e.sent then
      TurnAway(s, c)
    else
      Open(s, e.unused, c, e.key, UpstreamResolvers(e.configured), now)
  }

  /** The query moved on to the next server. */
  function Advanced(q: Query, now: Time): Query {
    q.(idx := q.idx + 1, deadline := now + UPSTREAM_TIMEOUT)
  }

  function Failover(s: State, x: Xid, now: Time): State
    requires x in s.pending && x in s.records && s.pending[x].idx + 1 < |s.pending[x].servers|
  {
    var q, r := s.pending[x], s.records[x];
    s.(pending := s.pending[x := Advanced(q, now)],
       records := s.records[x := r.(sent := r.sent + [q.servers[q.idx + 1]])])
  }

  function ToTcp(s: State, x: Xid, m: Message): State
    requires x in s.pending
  {
    var q := s.pending[x];
    s.(pending := s.pending - {x}, records := s.records - {x},
       jobs := s.jobs[s.nextJob := Job(q.key, q.clients, m)], nextJob := s.nextJob + 1,
       place := map id | id in s.place ::
                  if s.place[id].Waiting? && s.place[id].xid == x then OverTcp(s.nextJob, s.place[id].i) else s.place[id])
  }

  function AnswerWaiting(s: State, x: Xid, m: Message): State
    requires x in s.pending
  {
    s.(pending := s.pending - {x}, records := s.records - {x},
       answers := s.answers + Replies(s.pending[x].clients, m),
       place := map id | id in s.place ::
                  if s.place[id].Waiting? && s.place[id].xid == x then Answered(|s.answers| + s.place[id].i) else s.place[id])
  }

  function AnswerJob(s: State, j: nat, m: Message): State
    requires j in s.jobs
  {
    s.(jobs := s.jobs - {j}, answers := s.answers + Replies(s.jobs[j].clients, m),
       place := map id | id in s.place ::
                  if s.place[id].OverTcp? && s.place[id].job == j then Answered(|s.answers| + s.place[id].i) else s.place[id])
  }

  /** What to do with a datagram from upstream. */
  datatype Verdict = Ignore | RepeatOverTcp | TryNext | Deliver

  function Judge(s: State, m: Message, from: Ip, port: nat): (r: Verdict)
    requires Sized(s)
    ensures r != Ignore ==> m.id in s.pending
    ensures r == TryNext ==> s.pending[m.id].idx + 1 < |s.pending[m.id].servers|
  {
    if m.size < DNS_HEADER_SIZE || m.id !in s.pending then Ignore
    else
      var q := s.pending[m.id];
      if from != q.servers[q.idx] || port != DNS_PORT then Ignore
      else if m.truncated then RepeatOverTcp
      else if m.body.None? then Ignore
      else if (m.body.value.rcode == ServFail || m.body.value.rcode == Refused) && q.idx + 1 < |q.servers| then TryNext
      else Deliver
  }

  function Replied(s: State, m: Message, from: Ip, port: nat, now: Time): State
    requires Sized(s)
  {
    match Judge(s, m, from, port)
    case Ignore => s
    case RepeatOverTcp => ToTcp(s, m.id, m)
    case TryNext => Failover(s, m.id, now)
    case Deliver => AnswerWaiting(s, m.id, m)
  }

  predicate Overdue(q: Query, now: Time) {
    q.deadline <= now
  }

  /** Timed out at its last server. */
  predicate GivesUp(q: Query, now: Time) {
    Overdue(q, now) && q.idx + 1 >= |q.servers|
  }

  function Swept(s: State, now: Time): State
    requires Sized(s)
  {
    s.(pending := map x | x in s.pending && !GivesUp(s.pending[x], now) ::
                    if Overdue(s.pending[x], now) then Advanced(s.pending[x], now) else s.pending[x],
       records := map x | x in s.pending && !GivesUp(s.pending[x], now) ::
                    if Overdue(s.pending[x], now)
                    then s.records[x].(sent := s.records[x].sent + [s.pending[x].servers[s.pending[x].idx + 1]])
                    else s.records[x],
       place := map id | id in s.place ::
                  if s.place[id].Waiting? && s.place[id].xid in s.pending && GivesUp(s.pending[s.place[id].xid], now)
                  then Dropped else s.place[id],
       lastSweep := now)
  }

  function Step(s: State, e: Event, now: Time): State
    requires Sized(s) && Possible(s, e)
  {
    match e
    case Arrive(_, _, _, _, _, _, _, _) => Arrived(s, e, now)
    case Reply(m, from, port) => Replied(s, m, from, port, now)
    case Sweep => Swept(s, now)
    case TcpDone(j, reply) =>
      if j !in s.jobs then s else AnswerJob(s, j, if reply.Some? then reply.value else s.jobs[j].fallback)
  }

  // ---- bounds ----

  /** A query in flight has clients, not too many, and is at one of its servers; it went to each up to that once. */
  predicate SizedQuery(q: Query, r: Record) {
    && 1 <= |q.clients| <= MAX_JOINED_CLIENTS_PER_QUERY
    && q.idx < |q.servers|
    && r.sent == q.servers[..q.idx + 1]
  }

  ghost predicate Sized(s: State) {
    && |s.pending| <= MAX_PENDING_QUERIES
    && s.records.Keys == s.pending.Keys
    && forall x | x in s.pending :: x != 0 && SizedQuery(s.pending[x], s.records[x])
  }

  lemma {:induction false} AdvancedIsSized(q: Query, r: Record, now: Time)
    requires SizedQuery(q, r) && q.idx + 1 < |q.servers|
    ensures SizedQuery(Advanced(q, now), r.(sent := r.sent + [q.servers[q.idx + 1]]))
  {
    assert q.servers[..q.idx + 1] + [q.servers[q.idx + 1]] == q.servers[..q.idx + 2];
  }

  lemma {:induction false} SubmapSize<K, V>(m: map<K, V>, n: map<K, V>)
    requires m.Keys <= n.Keys
    ensures |m| <= |n|
  {
    SubsetSize(m.Keys, n.Keys);
  }

  lemma {:induction false} JoinIsSized(s: State, x: Xid, c: Client)
    requires Sized(s) && x in s.pending && |s.pending[x].clients| < MAX_JOINED_CLIENTS_PER_QUERY
    ensures Sized(Join(s, x, c))
  {
    assert Join(s, x, c).pending.Keys == s.pending.Keys;
    SubmapSize(Join(s, x, c).pending, s.pending);
  }

  lemma {:induction false} OpenIsSized(s: State, x: Xid, c: Client, key: Key, servers: seq<Ip>, now: Time)
    requires Sized(s) && |s.pending| < MAX_PENDING_QUERIES && x != 0 && x !in s.pending && servers != []
    ensures Sized(Open(s, x, c, key, servers, now))
  {
    assert Open(s, x, c, key, servers, now).pending.Keys == s.pending.Keys + {x};
    assert servers[..1] == [servers[0]];
  }

  lemma {:induction false} FailoverIsSized(s: State, x: Xid, now: Time)
    requires Sized(s) && x in s.pending && s.pending[x].idx + 1 < |s.pending[x].servers|
    ensures Sized(Failover(s, x, now))
  {
    hide SizedQuery;
    AdvancedIsSized(s.pending[x], s.records[x], now);
    assert Failover(s, x, now).pending.Keys == s.pending.Keys;
    SubmapSize(Failover(s, x, now).pending, s.pending);
  }

  lemma {:induction false} RemovalIsSized(s: State, x: Xid, s': State)
    requires Sized(s) && s'.pending == s.pending - {x} && s'.records == s.records - {x}
    ensures Sized(s')
  {
    SubmapSize(s'.pending, s.pending);
  }

  lemma {:induction false} SweptIsSized(s: State, now: Time)
    requires Sized(s)
    ensures Sized(Swept(s, now))
  {
    var s' := Swept(s, now);
    SubmapSize(s'.pending, s.pending);
    forall x | x in s'.pending
      ensures SizedQuery(s'.pending[x], s'.records[x])
    {
      if Overdue(s.pending[x], now) {
        AdvancedIsSized(s.pending[x], s.records[x], now);
      }
    }
  }

  lemma {:induction false} SameIsSized(s: State, s': State)
    requires Sized(s) && s'.pending == s.pending && s'.records == s.records
    ensures Sized(s')
  {
  }

  lemma {:induction false} StepIsSized(s: State, e: Event, now: Time)
    requires Sized(s) && Possible(s, e)
    ensures Sized(Step(s, e, now))
  {
    hide SizedQuery, Join, Open, Swept, UpstreamResolvers, Judge;
    match e {
      case Arrive(udp, xid, maxPayload, key, found, unused, configured, sent) =>
        var c := Client(|s.clients|, udp, xid, maxPayload);
        if found.Some? && |s.pending[found.value].clients| < MAX_JOINED_CLIENTS_PER_QUERY {
          JoinIsSized(s, found.value, c);
        } else if |s.pending| >= MAX_PENDING_QUERIES || !sent {
          SameIsSized(s, Step(s, e, now));
        } else {
          OpenIsSized(s, unused, c, key, UpstreamResolvers(configured), now);
        }
      case Reply(m, from, port) =>
        match Judge(s, m, from, port) {
          case TryNext => FailoverIsSized(s, m.id, now);
          case RepeatOverTcp => RemovalIsSized(s, m.id, Step(s, e, now));
          case Deliver => RemovalIsSized(s, m.id, Step(s, e, now));
          case Ignore =>
        }
      case Sweep =>
        SweptIsSized(s, now);
      case TcpDone(j, reply) =>
        SameIsSized(s, Step(s, e, now));
    }
  }

  // ---- where the clients are ----

  ghost predicate Seated(s: State, c: Client, p: Place) {
    c.id < |s.clients| && s.clients[c.id] == c && c.id in s.place && s.place[c.id] == p
  }

  /** The place of a client has that client in it. */
  ghost predicate Occupied(s: State, id: nat, p: Place) {
    match p
    case Waiting(x, i) => x in s.pending && i < |s.pending[x].clients| && s.pending[x].clients[i].id == id
    case OverTcp(j, i) => j in s.jobs && i < |s.jobs[j].clients| && s.jobs[j].clients[i].id == id
    case Answered(k) => k < |s.answers| && s.answers[k].to.id == id
    case Dropped => true
  }

  /** Every client waiting, over TCP or answered is in the place the book names. */
  ghost predicate AllSeated(s: State) {
    && (forall x, i | x in s.pending && 0 <= i < |s.pending[x].clients| ::
          Seated(s, s.pending[x].clients[i], Waiting(x, i)))
    && (forall j, i | j in s.jobs && 0 <= i < |s.jobs[j].clients| :: Seated(s, s.jobs[j].clients[i], OverTcp(j, i)))
    && (forall k | 0 <= k < |s.answers| :: Seated(s, s.answers[k].to, Answered(k)))
  }

  /** The book has one place for every accepted client, and that client is in it. */
  ghost predicate AllOccupied(s: State) {
    && (forall id: nat :: id in s.place <==> id < |s.clients|)
    && (forall id | 0 <= id < |s.clients| :: s.clients[id].id == id)
    && (forall id | id in s.place :: Occupied(s, id, s.place[id]))
    && (forall j | j in s.jobs :: j < s.nextJob)
  }

  ghost predicate Placed(s: State) {
    AllSeated(s) && AllOccupied(s)
  }

  /** Every answer is under the ID of the client it went to. */
  ghost predicate OwnIds(s: State) {
    forall k | 0 <= k < |s.answers| :: s.answers[k].msg.id == s.answers[k].to.xid
  }

  lemma {:induction false} JoinSeats(s: State, x: Xid, c: Client)
    requires Placed(s) && x in s.pending && c.id == |s.clients|
    ensures AllSeated(Join(s, x, c))
  {
  }

  lemma {:induction false} JoinOccupies(s: State, x: Xid, c: Client)
    requires Placed(s) && x in s.pending && c.id == |s.clients|
    ensures AllOccupied(Join(s, x, c))
  {
  }

  lemma {:induction false} JoinKeepsPlaced(s: State, x: Xid, c: Client)
    requires Placed(s) && x in s.pending && c.id == |s.clients|
    ensures Placed(Join(s, x, c))
  {
    hide AllSeated, AllOccupied;
    JoinSeats(s, x, c);
    JoinOccupies(s, x, c);
  }

  lemma {:induction false} OpenSeats(s: State, x: Xid, c: Client, key: Key, servers: seq<Ip>, now: Time)
    requires Placed(s) && x !in s.pending && servers != [] && c.id == |s.clients|
    ensures AllSeated(Open(s, x, c, key, servers, now))
  {
  }

  lemma {:induction false} OpenOccupies(s: State, x: Xid, c: Client, key: Key, servers: seq<Ip>, now: Time)
    requires Placed(s) && x !in s.pending && servers != [] && c.id == |s.clients|
    ensures AllOccupied(Open(s, x, c, key, servers, now))
  {
  }

  lemma {:induction false} OpenKeepsPlaced(s: State, x: Xid, c: Client, key: Key, servers: seq<Ip>, now: Time)
    requires Placed(s) && x !in s.pending && servers != [] && c.id == |s.clients|
    ensures Placed(Open(s, x, c, key, servers, now))
  {
    hide AllSeated, AllOccupied;
    OpenSeats(s, x, c, key, servers, now);
    OpenOccupies(s, x, c, key, servers, now);
  }

  lemma {:induction false} TurnAwayKeepsPlaced(s: State, c: Client)
    requires Placed(s) && c.id == |s.clients|
    ensures Placed(TurnAway(s, c))
  {
  }

  lemma {:induction false} ToTcpSeats(s: State, x: Xid, m: Message)
    requires Placed(s) && x in s.pending
    ensures AllSeated(ToTcp(s, x, m))
  {
  }

  lemma {:induction false} ToTcpOccupies(s: State, x: Xid, m: Message)
    requires Placed(s) && x in s.pending
    ensures AllOccupied(ToTcp(s, x, m))
  {
  }

  lemma {:induction false} ToTcpKeepsPlaced(s: State, x: Xid, m: Message)
    requires Placed(s) && x in s.pending
    ensures Placed(ToTcp(s, x, m))
  {
    hide AllSeated, AllOccupied;
    ToTcpSeats(s, x, m);
    ToTcpOccupies(s, x, m);
  }

  lemma {:induction false} AnswerWaitingSeats(s: State, x: Xid, m: Message)
    requires Placed(s) && x in s.pending
    ensures AllSeated(AnswerWaiting(s, x, m))
  {
    hide ReplyFor;
    var s' := AnswerWaiting(s, x, m);
    forall k | 0 <= k < |s'.answers|
      ensures Seated(s', s'.answers[k].to, Answered(k))
    {
      if k < |s.answers| {
        assert Seated(s, s.answers[k].to, Answered(k));
      }
    }
  }

  lemma {:induction false} AnswerWaitingOccupies(s: State, x: Xid, m: Message)
    requires Placed(s) && x in s.pending
    ensures AllOccupied(AnswerWaiting(s, x, m))
  {
    hide ReplyFor;
  }

  lemma {:induction false} AnswerWaitingKeepsPlaced(s: State, x: Xid, m: Message)
    requires Placed(s) && x in s.pending
    ensures Placed(AnswerWaiting(s, x, m))
  {
    hide AllSeated, AllOccupied;
    AnswerWaitingSeats(s, x, m);
    AnswerWaitingOccupies(s, x, m);
  }

  lemma {:induction false} AnswerJobSeats(s: State, j: nat, m: Message)
    requires Placed(s) && j in s.jobs
    ensures AllSeated(AnswerJob(s, j, m))
  {
    hide ReplyFor;
    var s' := AnswerJob(s, j, m);
    forall k | 0 <= k < |s'.answers|
      ensures Seated(s', s'.answers[k].to, Answered(k))
    {
      if k < |s.answers| {
        assert Seated(s, s.answers[k].to, Answered(k));
      }
    }
  }

  lemma {:induction false} AnswerJobOccupies(s: State, j: nat, m: Message)
    requires Placed(s) && j in s.jobs
    ensures AllOccupied(AnswerJob(s, j, m))
  {
    hide ReplyFor;
  }

  lemma {:induction false} AnswerJobKeepsPlaced(s: State, j: nat, m: Message)
    requires Placed(s) && j in s.jobs
    ensures Placed(AnswerJob(s, j, m))
  {
    hide AllSeated, AllOccupied;
    AnswerJobSeats(s, j, m);
    AnswerJobOccupies(s, j, m);
  }

  lemma {:induction false} FailoverKeepsPlaced(s: State, x: Xid, now: Time)
    requires Sized(s) && Placed(s) && x in s.pending && s.pending[x].idx + 1 < |s.pending[x].servers|
    ensures Placed(Failover(s, x, now))
  {
  }

  lemma {:induction false} SweptSeats(s: State, now: Time)
    requires Sized(s) && Placed(s)
    ensures AllSeated(Swept(s, now))
  {
  }

  lemma {:induction false} SweptOccupies(s: State, now: Time)
    requires Sized(s) && Placed(s)
    ensures AllOccupied(Swept(s, now))
  {
  }

  lemma {:induction false} SweptKeepsPlaced(s: State, now: Time)
    requires Sized(s) && Placed(s)
    ensures Placed(Swept(s, now))
  {
    hide AllSeated, AllOccupied;
    SweptSeats(s, now);
    SweptOccupies(s, now);
  }

  lemma {:induction false} StepKeepsPlaced(s: State, e: Event, now: Time)
    requires Sized(s) && Placed(s) && Possible(s, e)
    ensures Placed(Step(s, e, now))
  {
    hide Placed, Join, Open, TurnAway, Swept, ToTcp, AnswerWaiting, AnswerJob, Failover, UpstreamResolvers, Judge, SizedQuery;
    match e {
      case Arrive(udp, xid, maxPayload, key, found, unused, configured, sent) =>
        var c := Client(|s.clients|, udp, xid, maxPayload);
        if found.Some? && |s.pending[found.value].clients| < MAX_JOINED_CLIENTS_PER_QUERY {
          JoinKeepsPlaced(s, found.value, c);
        } else if |s.pending| >= MAX_PENDING_QUERIES || !sent {
          TurnAwayKeepsPlaced(s, c);
        } else {
          OpenKeepsPlaced(s, unused, c, key, UpstreamResolvers(configured), now);
        }
      case Reply(m, from, port) =>
        match Judge(s, m, from, port) {
          case TryNext => FailoverKeepsPlaced(s, m.id, now);
          case RepeatOverTcp => ToTcpKeepsPlaced(s, m.id, m);
          case Deliver => AnswerWaitingKeepsPlaced(s, m.id, m);
          case Ignore =>
        }
      case Sweep =>
        SweptKeepsPlaced(s, now);
      case TcpDone(j, reply) =>
        if j in s.jobs {
          AnswerJobKeepsPlaced(s, j, if reply.Some? then reply.value else s.jobs[j].fallback);
        }
    }
  }

  lemma {:induction false} SameAnswers(s: State, s': State)
    requires OwnIds(s) && s'.answers == s.answers
    ensures OwnIds(s')
  {
  }

  lemma {:induction false} MoreAnswers(s: State, s': State, clients: seq<Client>, m: Message)
    requires OwnIds(s) && s'.answers == s.answers + Replies(clients, m)
    ensures OwnIds(s') && s.answers <= s'.answers
  {
  }

  // Answers and accepted clients are only ever added, and every answer is under the client's own ID.
  lemma {:induction false} StepOnlyAdds(s: State, e: Event, now: Time)
    requires Sized(s) && Possible(s, e) && OwnIds(s)
    ensures s.answers <= Step(s, e, now).answers && s.clients <= Step(s, e, now).clients
    ensures OwnIds(Step(s, e, now))
    ensures e.Arrive? ==> Step(s, e, now).clients == s.clients + [Client(|s.clients|, e.udp, e.xid, e.maxPayload)]
  {
    hide Sized, OwnIds, UpstreamResolvers, Judge, Replies;
    var s' := Step(s, e, now);
    match e {
      case Reply(m, from, port) =>
        match Judge(s, m, from, port) {
          case Deliver => MoreAnswers(s, s', s.pending[m.id].clients, m);
          case _ => SameAnswers(s, s');
        }
      case TcpDone(j, reply) =>
        if j in s.jobs {
          MoreAnswers(s, s', s.jobs[j].clients, if reply.Some? then reply.value else s.jobs[j].fallback);
        }
      case _ => SameAnswers(s, s');
    }
  }

  // Being answered and being dropped are final.
  lemma {:induction false} FinalPlaces(s: State, e: Event, now: Time, id: nat)
    requires Sized(s) && Placed(s) && Possible(s, e)
    requires id in s.place && (s.place[id].Answered? || s.place[id].Dropped?)
    ensures id in Step(s, e, now).place && Step(s, e, now).place[id] == s.place[id]
  {
    hide SizedQuery, UpstreamResolvers, Judge;
  }

  /** Is waiting for an answer over UDP, being served over TCP, or has been answered, by the tables themselves. */
  ghost predicate IsWaiting(s: State, id: nat) {
    exists x, i | x in s.pending && 0 <= i < |s.pending[x].clients| :: s.pending[x].clients[i].id == id
  }

  ghost predicate IsOverTcp(s: State, id: nat) {
    exists j, i | j in s.jobs && 0 <= i < |s.jobs[j].clients| :: s.jobs[j].clients[i].id == id
  }

  ghost predicate IsAnswered(s: State, id: nat) {
    exists k | 0 <= k < |s.answers| :: s.answers[k].to.id == id
  }

  /** Was turned away, or its query given up, as the book records. */
  ghost predicate IsDropped(s: State, id: nat) {
    id in s.place && s.place[id].Dropped?
  }

  /** The tables and the book agree on every accepted client. */
  lemma {:induction false} PlacesByTheTables(s: State, id: nat)
    requires Placed(s) && id < |s.clients|
    ensures IsWaiting(s, id) <==> s.place[id].Waiting?
    ensures IsOverTcp(s, id) <==> s.place[id].OverTcp?
    ensures IsAnswered(s, id) <==> s.place[id].Answered?
  {
    assert Occupied(s, id, s.place[id]);
    if x, i :| x in s.pending && 0 <= i < |s.pending[x].clients| && s.pending[x].clients[i].id == id {
      assert Seated(s, s.pending[x].clients[i], Waiting(x, i));
    }
    if j, i :| j in s.jobs && 0 <= i < |s.jobs[j].clients| && s.jobs[j].clients[i].id == id {
      assert Seated(s, s.jobs[j].clients[i], OverTcp(j, i));
    }
    if k :| 0 <= k < |s.answers| && s.answers[k].to.id == id {
      assert Seated(s, s.answers[k].to, Answered(k));
    }
  }

  /** A client is dropped only when it comes and cannot be taken, or when its query times out at the last server. */
  lemma {:induction false} DroppedOnlyBy(s: State, e: Event, now: Time, id: nat)
    requires Sized(s) && Placed(s) && Possible(s, e)
    requires !IsDropped(s, id) && IsDropped(Step(s, e, now), id)
    ensures e.Arrive? || e.Sweep?
    ensures e.Arrive? ==> id == |s.clients| && (|s.pending| >= MAX_PENDING_QUERIES || !e.sent)
    ensures e.Sweep? ==> exists x, i | x in s.pending && 0 <= i < |s.pending[x].clients| ::
                           && s.pending[x].clients[i].id == id
                           && s.pending[x].deadline <= now && s.pending[x].idx + 1 == |s.pending[x].servers|
  {
    hide Sized, Placed, Step, Possible;
    DroppedPlace(s, e, now, id);
    if e.Sweep? {
      SeatOf(s, id);
      AtAServer(s, s.place[id].xid);
    }
  }

  lemma {:induction false} DroppedPlace(s: State, e: Event, now: Time, id: nat)
    requires Sized(s) && Possible(s, e)
    requires !IsDropped(s, id) && IsDropped(Step(s, e, now), id)
    ensures e.Arrive? || e.Sweep?
    ensures e.Arrive? ==> id == |s.clients| && (|s.pending| >= MAX_PENDING_QUERIES || !e.sent)
    ensures e.Sweep? ==> && id in s.place && s.place[id].Waiting? && s.place[id].xid in s.pending
                         && GivesUp(s.pending[s.place[id].xid], now)
  {
    hide Sized, Possible, Swept, Arrived, Replied, AnswerJob;
    match e {
      case Arrive(_, _, _, _, _, _, _, _) => DroppedOnArrival(s, e, now, id);
      case Reply(m, from, port) => RepliesDropNobody(s, m, from, port, now, id);
      case Sweep => DroppedBySweep(s, now, id);
      case TcpDone(j, reply) => JobsDropNobody(s, j, reply, id);
    }
  }

  lemma {:induction false} DroppedOnArrival(s: State, e: Event, now: Time, id: nat)
    requires e.Arrive? && Possible(s, e) && !IsDropped(s, id) && IsDropped(Arrived(s, e, now), id)
    ensures id == |s.clients| && (|s.pending| >= MAX_PENDING_QUERIES || !e.sent)
  {
    hide UpstreamResolvers;
  }

  lemma {:induction false} RepliesDropNobody(s: State, m: Message, from: Ip, port: nat, now: Time, id: nat)
    requires Sized(s) && !IsDropped(s, id)
    ensures !IsDropped(Replied(s, m, from, port, now), id)
  {
    hide SizedQuery, Judge, Replies;
  }

  lemma {:induction false} JobsDropNobody(s: State, j: nat, reply: Option<Message>, id: nat)
    requires !IsDropped(s, id) && j in s.jobs
    ensures !IsDropped(AnswerJob(s, j, if reply.Some? then reply.value else s.jobs[j].fallback), id)
  {
    hide Replies;
  }

  lemma {:induction false} DroppedBySweep(s: State, now: Time, id: nat)
    requires Sized(s) && !IsDropped(s, id) && IsDropped(Swept(s, now), id)
    ensures && id in s.place && s.place[id].Waiting? && s.place[id].xid in s.pending
            && GivesUp(s.pending[s.place[id].xid], now)
  {
    hide SizedQuery, GivesUp;
  }

  lemma {:induction false} SeatOf(s: State, id: nat)
    requires Placed(s) && id in s.place && s.place[id].Waiting?
    ensures var p := s.place[id];
            p.xid in s.pending && p.i < |s.pending[p.xid].clients| && s.pending[p.xid].clients[p.i].id == id
  {
    assert Occupied(s, id, s.place[id]);
  }

  // ---- what is answered ----

  /** `asked` lists what the accepted clients asked for: everyone waiting for a query asked for its key. */
  ghost predicate Asked(s: State, asked: seq<Key>) {
    && |asked| == |s.clients|
    && (forall x, i | x in s.pending && 0 <= i < |s.pending[x].clients| :: AskedFor(asked, s.pending[x].clients[i], s.pending[x].key))
    && (forall j, i | j in s.jobs && 0 <= i < |s.jobs[j].clients| :: AskedFor(asked, s.jobs[j].clients[i], s.jobs[j].key))
  }

  predicate AskedFor(asked: seq<Key>, c: Client, key: Key) {
    c.id < |asked| && asked[c.id] == key
  }

  function AskedThen(asked: seq<Key>, e: Event): seq<Key> {
    if e.Arrive? then asked + [e.key] else asked
  }

  lemma {:induction false} StepKeepsAsked(s: State, e: Event, now: Time, asked: seq<Key>)
    requires Sized(s) && Possible(s, e) && Asked(s, asked)
    ensures Asked(Step(s, e, now), AskedThen(asked, e))
  {
    hide Sized, Possible, SizedQuery, UpstreamResolvers, Judge, Asked, Arrived;
    match e {
      case Arrive(_, _, _, _, _, _, _, _) => ArriveKeepsAsked(s, e, now, asked);
      case Reply(m, from, port) =>
        match Judge(s, m, from, port) {
          case RepeatOverTcp => ToTcpKeepsAsked(s, m.id, m, asked);
          case TryNext => FewerAsked(s, Step(s, e, now), asked);
          case Deliver => FewerAsked(s, Step(s, e, now), asked);
          case Ignore =>
        }
      case Sweep => FewerAsked(s, Step(s, e, now), asked);
      case TcpDone(j, reply) => FewerAsked(s, Step(s, e, now), asked);
    }
  }

  lemma {:induction false} ArriveKeepsAsked(s: State, e: Event, now: Time, asked: seq<Key>)
    requires e.Arrive? && Possible(s, e) && Asked(s, asked)
    ensures Asked(Arrived(s, e, now), asked + [e.key])
  {
    hide UpstreamResolvers;
  }

  lemma {:induction false} ToTcpKeepsAsked(s: State, x: Xid, m: Message, asked: seq<Key>)
    requires x in s.pending && Asked(s, asked)
    ensures Asked(ToTcp(s, x, m), asked)
  {
  }

  lemma {:induction false} FewerAsked(s: State, s': State, asked: seq<Key>)
    requires Asked(s, asked) && s'.clients == s.clients
    requires forall x | x in s'.pending :: x in s.pending && s'.pending[x].clients == s.pending[x].clients && s'.pending[x].key == s.pending[x].key
    requires forall j | j in s'.jobs :: j in s.jobs && s'.jobs[j] == s.jobs[j]
    ensures Asked(s', asked)
  {
  }

  /** A new answer goes to a client of the query that the reply is for, which the server it was sent to gave, or of the TCP fallback. */
  ghost predicate RightlyAnswered(s: State, e: Event, a: Answer, asked: seq<Key>) {
    match e
    case Reply(m, from, port) =>
      && m.id in s.pending && a.to in s.pending[m.id].clients && a.msg == ReplyFor(m, a.to)
      && s.pending[m.id].idx < |s.pending[m.id].servers| && from == s.pending[m.id].servers[s.pending[m.id].idx] && port == DNS_PORT
      && AskedFor(asked, a.to, s.pending[m.id].key)
    case TcpDone(j, reply) =>
      && j in s.jobs && a.to in s.jobs[j].clients
      && a.msg == ReplyFor(if reply.Some? then reply.value else s.jobs[j].fallback, a.to)
      && AskedFor(asked, a.to, s.jobs[j].key)
    case _ => false
  }

  lemma {:induction false} NewAnswers(s: State, e: Event, now: Time, asked: seq<Key>, k: nat)
    requires Sized(s) && Possible(s, e) && Asked(s, asked)
    requires |s.answers| <= k < |Step(s, e, now).answers|
    ensures RightlyAnswered(s, e, Step(s, e, now).answers[k], asked)
  {
    hide Sized, Possible, UpstreamResolvers, ReplyFor;
    var i := k - |s.answers|;
    match e {
      case Reply(m, from, port) =>
        AtAServer(s, m.id);
        assert s.pending[m.id].clients[i] in s.pending[m.id].clients;
      case TcpDone(j, reply) =>
        assert s.jobs[j].clients[i] in s.jobs[j].clients;
      case _ =>
    }
  }

  // ---- timeouts ----

  /** Up to `n` servers, each given the timeout and up to one sweep interval more. */
  function TimeFor(n: nat): nat {
    n * (UPSTREAM_TIMEOUT + CLEANUP_INTERVAL)
  }

  /** A query is due after the last sweep, and within the time for the servers it has been at. */
  ghost predicate TimelyQuery(q: Query, r: Record, lastSweep: Time) {
    lastSweep < q.deadline <= r.born + TimeFor(q.idx) + UPSTREAM_TIMEOUT
  }

  ghost predicate Timely(s: State)
    requires Sized(s)
  {
    forall x | x in s.pending :: TimelyQuery(s.pending[x], s.records[x], s.lastSweep)
  }

  /** Sweeps come at least every cleanup interval. */
  predicate Punctual(s: State, now: Time) {
    s.lastSweep <= now <= s.lastSweep + CLEANUP_INTERVAL
  }

  // What a step does to one query that stays in flight: nothing that matters here, or on to the next server.
  lemma {:induction false} StepOnQuery(s: State, e: Event, now: Time, x: Xid)
    requires Sized(s) && Possible(s, e)
    ensures Sized(Step(s, e, now))
    ensures var s' := Step(s, e, now);
            x in s'.pending && x in s.pending ==>
              && s'.records[x].born == s.records[x].born
              && ((s'.pending[x].idx == s.pending[x].idx && s'.pending[x].deadline == s.pending[x].deadline
                   && (e.Sweep? ==> s.pending[x].deadline > now))
                  || (s'.pending[x].idx == s.pending[x].idx + 1 && s'.pending[x].deadline == now + UPSTREAM_TIMEOUT))
    ensures var s' := Step(s, e, now);
            x in s'.pending && x !in s.pending ==>
              s'.pending[x].idx == 0 && s'.records[x].born == now && s'.pending[x].deadline == now + UPSTREAM_TIMEOUT
    ensures Step(s, e, now).lastSweep == if e.Sweep? then now else s.lastSweep
  {
    hide SizedQuery, UpstreamResolvers, Judge;
    StepIsSized(s, e, now);
  }

  lemma {:induction false} StepIsTimely(s: State, e: Event, now: Time)
    requires Sized(s) && Timely(s) && Possible(s, e) && Punctual(s, now)
    ensures Sized(Step(s, e, now)) && Timely(Step(s, e, now))
  {
    hide Sized, Step, Possible;
    StepIsSized(s, e, now);
    var s' := Step(s, e, now);
    SameKeys(s);
    SameKeys(s');
    forall x | x in s'.pending
      ensures TimelyQuery(s'.pending[x], s'.records[x], s'.lastSweep)
    {
      StepOnQuery(s, e, now, x);
      assert x in s.pending ==> TimelyQuery(s.pending[x], s.records[x], s.lastSweep);
    }
  }

  lemma {:induction false} SameKeys(s: State)
    requires Sized(s)
    ensures s.records.Keys == s.pending.Keys
  {
  }

  /** A query leaves the table within three seconds and a sweep interval for each of its servers. */
  lemma {:induction false} LeavesInTime(s: State, x: Xid, now: Time)
    requires Sized(s) && Timely(s) && Punctual(s, now) && x in s.pending
    ensures now < s.records[x].born + |s.pending[x].servers| * (UPSTREAM_TIMEOUT + CLEANUP_INTERVAL)
  {
    assert TimelyQuery(s.pending[x], s.records[x], s.lastSweep);
    assert SizedQuery(s.pending[x], s.records[x]);
  }

  // ---- every run ----

  datatype Timed = Timed(event: Event, at: Time)

  /** The states a run of events goes through from the start. */
  ghost predicate IsRun(run: seq<Timed>, states: seq<State>) {
    && |states| == |run| + 1 && states[0] == INITIAL
    && forall i: nat | i < |run| :: Follows(states[i], run[i], states[i + 1])
  }

  ghost predicate Follows(s: State, t: Timed, s': State) {
    Possible(s, t.event) && (Sized(s) ==> s' == Step(s, t.event, t.at))
  }

  lemma {:induction false} InvariantAtFirst()
    ensures Sized(INITIAL) && Placed(INITIAL) && OwnIds(INITIAL) && Timely(INITIAL)
  {
  }

  lemma {:induction false} InvariantInEveryRun(run: seq<Timed>, states: seq<State>, n: nat)
    requires IsRun(run, states) && n <= |run|
    ensures Sized(states[n]) && Placed(states[n]) && OwnIds(states[n])
  {
    hide Sized, Placed, OwnIds, Step, Possible;
    if n == 0 {
      InvariantAtFirst();
    } else {
      InvariantInEveryRun(run, states, n - 1);
      assert Follows(states[n - 1], run[n - 1], states[(n - 1) + 1]);
      StepIsSized(states[n - 1], run[n - 1].event, run[n - 1].at);
      StepKeepsPlaced(states[n - 1], run[n - 1].event, run[n - 1].at);
      StepOnlyAdds(states[n - 1], run[n - 1].event, run[n - 1].at);
    }
  }

  /**
   In every run, each accepted client is in exactly one of four places: waiting,
   over TCP, answered or dropped.  It is answered at most once, under the ID it
   asked with.
   */
  lemma {:induction false} EveryClientIsServedOnce(run: seq<Timed>, states: seq<State>, n: nat, id: nat)
    requires IsRun(run, states) && n <= |run| && id < |states[n].clients|
    ensures var s := states[n];
            && (IsWaiting(s, id) ==> !IsOverTcp(s, id) && !IsAnswered(s, id))
            && (IsOverTcp(s, id) ==> !IsAnswered(s, id))
            && (IsDropped(s, id) <==> !IsWaiting(s, id) && !IsOverTcp(s, id) && !IsAnswered(s, id))
            && (forall k, l | 0 <= k < |s.answers| && 0 <= l < |s.answers| ::
                  s.answers[k].to.id == id == s.answers[l].to.id ==> k == l)
            && (forall k | 0 <= k < |s.answers| && s.answers[k].to.id == id ::
                  s.answers[k].to == s.clients[id] && s.answers[k].msg.id == s.clients[id].xid)
  {
    InvariantInEveryRun(run, states, n);
    var s := states[n];
    PlacesByTheTables(s, id);
    forall k | 0 <= k < |s.answers|
      ensures Seated(s, s.answers[k].to, Answered(k))
    {
    }
  }

  /** Once answered or dropped, a client stays so. */
  lemma {:induction false} FinalInEveryRun(run: seq<Timed>, states: seq<State>, m: nat, n: nat, id: nat)
    requires IsRun(run, states) && m <= n <= |run|
    requires id in states[m].place && (states[m].place[id].Answered? || states[m].place[id].Dropped?)
    ensures id in states[n].place && states[n].place[id] == states[m].place[id]
    decreases n
  {
    hide Sized, Placed, OwnIds, Step, Possible;
    if m < n {
      FinalInEveryRun(run, states, m, n - 1, id);
      InvariantInEveryRun(run, states, n - 1);
      assert Follows(states[n - 1], run[n - 1], states[(n - 1) + 1]);
      FinalPlaces(states[n - 1], run[n - 1].event, run[n - 1].at, id);
    }
  }

  /** Answers given and clients accepted are never taken back. */
  lemma {:induction false} OnlyAddsInEveryRun(run: seq<Timed>, states: seq<State>, m: nat, n: nat)
    requires IsRun(run, states) && m <= n <= |run|
    ensures states[m].answers <= states[n].answers && states[m].clients <= states[n].clients
    decreases n
  {
    hide Sized, Placed, OwnIds, Step, Possible;
    if m < n {
      OnlyAddsInEveryRun(run, states, m, n - 1);
      InvariantInEveryRun(run, states, n - 1);
      assert Follows(states[n - 1], run[n - 1], states[(n - 1) + 1]);
      StepOnlyAdds(states[n - 1], run[n - 1].event, run[n - 1].at);
    }
  }

  /** What the clients accepted in the first `n` events asked for, in order. */
  ghost function AskedIn(run: seq<Timed>, n: nat): seq<Key>
    requires n <= |run|
  {
    if n == 0 then [] else AskedThen(AskedIn(run, n - 1), run[n - 1].event)
  }

  lemma {:induction false} AskedInEveryRun(run: seq<Timed>, states: seq<State>, n: nat)
    requires IsRun(run, states) && n <= |run|
    ensures Asked(states[n], AskedIn(run, n))
  {
    hide Sized, Placed, OwnIds, Step, Possible, AskedThen;
    if n > 0 {
      AskedInEveryRun(run, states, n - 1);
      InvariantInEveryRun(run, states, n - 1);
      assert Follows(states[n - 1], run[n - 1], states[(n - 1) + 1]);
      StepKeepsAsked(states[n - 1], run[n - 1].event, run[n - 1].at, AskedIn(run, n - 1));
    }
  }

  /**
   In every run, whoever is answered had asked for the key of the query the
   answer is to, and the answer is what came from the server that query was at
   or, over TCP, the reply or else the truncated reply that led there.
   */
  lemma {:induction false} AnswersAreForTheAsker(run: seq<Timed>, states: seq<State>, n: nat, k: nat)
    requires IsRun(run, states) && n < |run| && |states[n].answers| <= k < |states[n + 1].answers|
    ensures RightlyAnswered(states[n], run[n].event, states[n + 1].answers[k], AskedIn(run, n))
  {
    hide Sized, Placed, OwnIds, Step, Possible, Asked, RightlyAnswered, AskedIn;
    AskedInEveryRun(run, states, n);
    InvariantInEveryRun(run, states, n);
    assert Follows(states[n], run[n], states[n + 1]);
    NewAnswers(states[n], run[n].event, run[n].at, AskedIn(run, n), k);
  }

  ghost predicate PunctualRun(run: seq<Timed>, states: seq<State>, n: nat)
    requires n <= |run| && n < |states|
  {
    forall i: nat | i < n :: Punctual(states[i], run[i].at)
  }

  /** With a sweep every interval, no query is ever in flight for longer than its servers are given. */
  lemma {:induction false} TimelyInEveryRun(run: seq<Timed>, states: seq<State>, n: nat)
    requires IsRun(run, states) && n <= |run| && PunctualRun(run, states, n)
    ensures Sized(states[n]) && Timely(states[n])
  {
    hide Sized, Timely, Step, Possible;
    if n == 0 {
      InvariantAtFirst();
    } else {
      TimelyInEveryRun(run, states, n - 1);
      assert Follows(states[n - 1], run[n - 1], states[(n - 1) + 1]);
      StepIsTimely(states[n - 1], run[n - 1].event, run[n - 1].at);
    }
  }

  /** In such a run, and at any time before the next sweep is due, a query in flight is not older than its servers are given. */
  lemma {:induction false} QueriesLeaveInTime(run: seq<Timed>, states: seq<State>, n: nat, x: Xid, now: Time)
    requires IsRun(run, states) && n <= |run| && PunctualRun(run, states, n) && Punctual(states[n], now)
    requires x in states[n].pending
    ensures x in states[n].records
    ensures now < states[n].records[x].born + |states[n].pending[x].servers| * (UPSTREAM_TIMEOUT + CLEANUP_INTERVAL)
  {
    hide Timely, Step, Possible, SizedQuery;
    TimelyInEveryRun(run, states, n);
    LeavesInTime(states[n], x, now);
  }

  lemma {:induction false} AtAServer(s: State, x: Xid)
    requires Sized(s)
    ensures x in s.pending ==> s.pending[x].idx < |s.pending[x].servers|
  {
  }

  /** The tables of the forwarder, without the book. */
  ghost predicate TablesAre(s: State, pending: map<Xid, Query>, jobs: map<nat, Job>, nextJob: nat, answers: seq<Answer>,
                            accepted: nat)
  {
    && s.pending == pending && s.jobs == jobs && s.nextJob == nextJob && s.answers == answers && |s.clients| == accepted
  }

  // What a reply does to the tables, by what is to be done with it.
  lemma {:induction false} ReplyTables(s: State, m: Message, from: Ip, port: nat, now: Time)
    requires Sized(s)
    ensures var s' := Step(s, Reply(m, from, port), now);
            match Judge(s, m, from, port)
            case Ignore => TablesAre(s', s.pending, s.jobs, s.nextJob, s.answers, |s.clients|)
            case RepeatOverTcp =>
              TablesAre(s', s.pending - {m.id}, s.jobs[s.nextJob := Job(s.pending[m.id].key, s.pending[m.id].clients, m)],
                        s.nextJob + 1, s.answers, |s.clients|)
            case TryNext =>
              TablesAre(s', s.pending[m.id := Advanced(s.pending[m.id], now)], s.jobs, s.nextJob, s.answers, |s.clients|)
            case Deliver =>
              TablesAre(s', s.pending - {m.id}, s.jobs, s.nextJob, s.answers + Replies(s.pending[m.id].clients, m), |s.clients|)
  {
    hide SizedQuery, Judge, Replies;
  }

  /** A query stays as it is until it is due, then goes to the next server for three seconds, and from the last one away. */
  ghost predicate SweptAsDue(before: map<Xid, Query>, swept: map<Xid, Query>, now: Time) {
    && swept.Keys <= before.Keys
    && forall x | x in before ::
         var q := before[x];
         if q.deadline > now then x in swept && swept[x] == q
         else if q.idx + 1 < |q.servers| then
           x in swept && swept[x] == Query(q.clients, q.key, q.servers, q.idx + 1, now + 3000)
         else x !in swept
  }

  lemma {:induction false} MovedOnIsSwept(before: map<Xid, Query>, kept: map<Xid, Query>, retry: seq<Xid>, swept: map<Xid, Query>, now: Time)
    requires kept == map x | x in before && (before[x].deadline > now || before[x].idx + 1 < |before[x].servers|) :: before[x]
    requires forall x :: x in retry <==> x in kept && kept[x].deadline <= now
    requires swept.Keys == kept.Keys
    requires forall x | x in kept :: swept[x] == if x in retry then Advanced(kept[x], now) else kept[x]
    ensures SweptAsDue(before, swept, now)
  {
  }

  lemma {:induction false} SweepTables(s: State, pending: map<Xid, Query>, now: Time)
    requires Sized(s)
    requires SweptAsDue(s.pending, pending, now)
    ensures var s' := Step(s, Sweep, now);
            && s'.pending == pending && s'.jobs == s.jobs && s'.nextJob == s.nextJob
            && s'.answers == s.answers && s'.clients == s.clients
  {
    hide SizedQuery;
  }

  // ---- the forwarder itself ----

  /** The part of the forwarder's loop that keeps queries in flight, with the book beside it. */
  class Forwarder {
    var pending: map<Xid, Query>
    var jobs: map<nat, Job>
    var nextJob: nat
    var answers: seq<Answer>
    var accepted: nat
    const cache: AnswerCache
    ghost var book: State

    ghost predicate Valid()
      reads this, cache
    {
      && Sized(book) && Placed(book) && OwnIds(book)
      && TablesAre(book, pending, jobs, nextJob, answers, accepted)
      && cache.Valid()
    }

    constructor ()
      ensures Valid() && book == INITIAL && fresh(cache) && cache.clock == 0
    {
      pending, jobs, nextJob, answers, accepted, book := map[], map[], 0, [], 0, INITIAL;
      cache := new AnswerCache();
    }

    /** Records a step in the book. */
    ghost method Account(e: Event, now: Time)
      requires Sized(book) && Placed(book) && OwnIds(book) && Possible(book, e)
      modifies this`book
      ensures book == Step(old(book), e, now) && Sized(book) && Placed(book) && OwnIds(book)
    {
      hide Sized, Placed, OwnIds, Step, Possible;
      StepIsSized(book, e, now);
      StepKeepsPlaced(book, e, now);
      StepOnlyAdds(book, e, now);
      book := Step(book, e, now);
    }

    /** Joins a query in flight for the same key if one is found that has room. */
    method TryJoin(key: Key, c: Client) returns (joined: bool, found: Option<Xid>)
      modifies this`pending
      ensures match found
              case None => forall x | x in old(pending) :: old(pending)[x].key != key
              case Some(x) => x in old(pending) && old(pending)[x].key == key
      ensures joined <==> found.Some? && |old(pending)[found.value].clients| < MAX_JOINED_CLIENTS_PER_QUERY
      ensures pending == if joined
                         then var q := old(pending)[found.value];
                              old(pending)[found.value := q.(clients := q.clients + [c])]
                         else old(pending)
    {
      if x :| x in pending && pending[x].key == key {
        found := Some(x);
        var q := pending[x];
        joined := |q.clients| < MAX_JOINED_CLIENTS_PER_QUERY;
        if joined {
          pending := pending[x := q.(clients := q.clients + [c])];
        }
      } else {
        joined, found := false, None;
      }
    }

    /**
     A query to be forwarded: joined to one in flight, or sent on under the
     random ID `unused`.  `sent` says whether sending succeeds.
     */
    method Forward(udp: bool, xid: Xid, maxPayload: nat, key: Key, unused: Xid, configured: seq<Ip>, sent: bool, now: Time)
      requires Valid() && unused != 0 && unused !in pending
      modifies this`pending, this`accepted, this`book
      ensures Valid()
      ensures exists found :: var e := Arrive(udp, xid, maxPayload, key, found, unused, configured, sent);
                              Possible(old(book), e) && book == Step(old(book), e, now)
    {
      hide Placed, OwnIds, Sized, UpstreamResolvers;
      var c := Client(accepted, udp, xid, maxPayload);
      accepted := accepted + 1;
      var joined, found := TryJoin(key, c);
      ghost var e := Arrive(udp, xid, maxPayload, key, found, unused, configured, sent);
      if !joined && |pending| < MAX_PENDING_QUERIES && sent {
        var servers := UpstreamResolvers(configured);
        pending := pending[unused := Query([c], key, servers, 0, now + UPSTREAM_TIMEOUT)];
      }
      assert Possible(book, e);
      Account(e, now);
    }

    /** Moves a query on to its next server, if it has one. */
    method TryFailover(x: Xid, now: Time) returns (ok: bool)
      requires x in pending
      modifies this`pending
      ensures ok <==> old(pending)[x].idx + 1 < |old(pending)[x].servers|
      ensures pending == if ok then old(pending)[x := Advanced(old(pending)[x], now)] else old(pending)
    {
      var q := pending[x];
      if q.idx + 1 >= |q.servers| {
        return false;
      }
      pending := pending[x := q.(idx := q.idx + 1, deadline := now + UPSTREAM_TIMEOUT)];
      ok := true;
    }

    method FanOut(clients: seq<Client>, m: Message)
      modifies this`answers
      ensures answers == old(answers) + Replies(clients, m)
    {
      hide ReplyFor;
      for i := 0 to |clients|
        invariant answers == old(answers) + Replies(clients, m)[..i]
      {
        answers := answers + [Answer(clients[i], ReplyFor(m, clients[i]))];
      }
    }

    method SpawnTcpFallback(m: Message)
      requires m.id in pending
      modifies this`pending, this`jobs, this`nextJob
      ensures pending == old(pending) - {m.id} && nextJob == old(nextJob) + 1
      ensures jobs == old(jobs)[old(nextJob) := Job(old(pending)[m.id].key, old(pending)[m.id].clients, m)]
    {
      var q := pending[m.id];
      pending := pending - {m.id};
      jobs := jobs[nextJob := Job(q.key, q.clients, m)];
      nextJob := nextJob + 1;
    }

    /** A complete reply: on to the next server if this one failed, else to the cache and the clients. */
    method FailOverOrDeliver(m: Message, now: Time)
      requires m.id in pending && m.body.Some? && cache.Valid() && cache.clock <= now
      modifies this`pending, this`answers, cache
      ensures cache.Valid() && cache.clock <= now
      ensures var q := old(pending)[m.id];
              if (m.body.value.rcode == ServFail || m.body.value.rcode == Refused) && q.idx + 1 < |q.servers|
              then && pending == old(pending)[m.id := Advanced(q, now)] && answers == old(answers)
                   && cache.spec == old(cache.spec)
              else && pending == old(pending) - {m.id} && answers == old(answers) + Replies(q.clients, m)
                   && cache.spec == Remembered(old(cache.spec), q.key, m, now)
    {
      hide Replies, Advanced, Remembered, LiveKeys, Refines, Complete;
      var q := pending[m.id];
      if m.body.value.rcode == ServFail || m.body.value.rcode == Refused {
        var ok := TryFailover(m.id, now);
        if ok {
          return;
        }
      }
      pending := pending - {m.id};
      cache.Insert(q.key, m, now);
      FanOut(q.clients, m);
    }

    method HandleUpstreamReply(m: Message, from: Ip, port: nat, now: Time)
      requires Valid() && cache.clock <= now
      modifies this, cache
      ensures Valid() && cache.clock <= now
      ensures book == Step(old(book), Reply(m, from, port), now)
      ensures cache.spec == if Judge(old(book), m, from, port) == Deliver
                            then Remembered(old(cache.spec), old(pending)[m.id].key, m, now)
                            else old(cache.spec)
    {
      hide Sized, Placed, OwnIds, Step, Replies, Refines, Complete, Advanced, Remembered;
      ReplyTables(book, m, from, port, now);
      AtAServer(book, m.id);
      Account(Reply(m, from, port), now);
      if m.size < DNS_HEADER_SIZE || m.id !in pending {
        return;
      }
      var q := pending[m.id];
      var expected := q.servers[q.idx];
      if from != expected || port != DNS_PORT {
        return;
      }
      if m.truncated {
        SpawnTcpFallback(m);
      } else if m.body.Some? {
        FailOverOrDeliver(m, now);
      }
    }

    /** The end of a TCP fallback: with the full reply, or without one. */
    method HandleTcpEvent(j: nat, reply: Option<Message>, now: Time)
      requires Valid() && j in jobs && cache.clock <= now
      modifies this, cache
      ensures Valid() && cache.clock <= now
      ensures book == Step(old(book), TcpDone(j, reply), now)
      ensures cache.spec == if reply.Some? then Remembered(old(cache.spec), old(jobs)[j].key, reply.value, now) else old(cache.spec)
    {
      hide Placed, OwnIds, Sized, Remembered, LiveKeys, Refines, Complete;
      var job := jobs[j];
      jobs := jobs - {j};
      match reply {
        case Some(m) =>
          cache.Insert(job.key, m, now);
          FanOut(job.clients, m);
        case None =>
          FanOut(job.clients, job.fallback);
      }
      Account(TcpDone(j, reply), now);
    }

    method CheckPendingTimeouts(now: Time)
      requires Valid()
      modifies this`pending, this`book
      ensures Valid()
      ensures SweptAsDue(old(pending), pending, now)
      ensures book == Step(old(book), Sweep, now)
    {
      hide Placed, OwnIds, Sized, Step, Advanced, SweptAsDue;
      var kept, retry := RetainUnexpired(pending, now);
      pending := kept;
      for i := 0 to |retry|
        invariant book == old(book) && pending.Keys == kept.Keys
        invariant forall x | x in kept :: pending[x] == if x in retry[..i] then Advanced(kept[x], now) else kept[x]
      {
        assert retry[..i + 1] == retry[..i] + [retry[i]] && retry[i] !in retry[..i];
        var _ := TryFailover(retry[i], now);
      }
      assert retry[..|retry|] == retry;
      MovedOnIsSwept(old(pending), kept, retry, pending, now);
      SweepTables(book, pending, now);
      Account(Sweep, now);
    }
  }

  /** The queries that stay, and among them those to be moved on. */
  method RetainUnexpired(pending: map<Xid, Query>, now: Time) returns (kept: map<Xid, Query>, retry: seq<Xid>)
    ensures kept == map x | x in pending && (pending[x].deadline > now || pending[x].idx + 1 < |pending[x].servers|) :: pending[x]
    ensures forall x :: x in retry <==> x in kept && kept[x].deadline <= now
    ensures forall i, j | 0 <= i < j < |retry| :: retry[i] != retry[j]
  {
    kept, retry := map[], [];
    var todo := pending.Keys;
    while todo != {}
      invariant todo <= pending.Keys
      invariant kept == map x | x in pending && x !in todo && (pending[x].deadline > now || pending[x].idx + 1 < |pending[x].servers|)
                          :: pending[x]
      invariant forall x :: x in retry <==> x in kept && kept[x].deadline <= now
      invariant forall i, j | 0 <= i < j < |retry| :: retry[i] != retry[j]
      decreases |todo|
    {
      var x :| x in todo;
      assert x !in retry;
      todo := todo - {x};
      var q := pending[x];
      if q.deadline > now {
        kept := kept[x := q];
      } else if q.idx + 1 < |q.servers| {
        retry := retry + [x];
        kept := kept[x := q];
      }
    }
  }
}
