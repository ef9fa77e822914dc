/**
 What each command does to the leases (src/services/dhcp_server/lease_table.rs),
 case by case: for every table, by its contents alone.
 */
module LeaseSteps {
  import opened Options
  import opened Ipv4
  import opened RouterConfig
  import opened DhcpLeases

  /** Nobody but the client has an unexpired lease for the address. */
  ghost predicate FreeForClient(t: Table, ip: Ip, mac: Mac, now: Time) {
    forall other | other in t.byMac && other != mac && t.byMac[other].expiry > now :: t.byMac[other].ip != ip
  }

  /** Nobody but the client has an unexpired lease with the name. */
  ghost predicate NameFreeForClient(t: Table, name: string, mac: Mac, now: Time) {
    forall other | other in t.byMac && other != mac && t.byMac[other].expiry > now :: t.byMac[other].hostname != Some(name)
  }

  lemma {:induction false} FreeMeansNotTaken(t: Table, ip: Ip, mac: Mac, now: Time)
    ensures FreeForClient(t, ip, mac, now) <==> !TakenByOther(t, ip, mac, now)
  {
    assert forall other :: Live(t, other, now) <==> other in t.byMac && t.byMac[other].expiry > now;
  }

  lemma {:induction false} NameFreeMeansNotTaken(t: Table, name: string, mac: Mac, now: Time)
    ensures NameFreeForClient(t, name, mac, now) <==> !HostnameTaken(t, name, mac, now)
  {
    assert forall other :: Live(t, other, now) <==> other in t.byMac && t.byMac[other].expiry > now;
  }

  // ---- requests ----

  /** Whether a client may have the address: its reservation, or without one an address that is not reserved. */
  predicate Permitted(t: Table, mac: Mac, ip: Ip) {
    if mac in t.statics then t.statics[mac].ip == ip else ip !in t.reserved
  }

  /**
   A request for `target` is confirmed exactly if it is inside the network and
   neither end of it nor the server's, nobody else has it, and it may be the
   client's; then it is confirmed with that address.
   */
  lemma {:induction false} ConfirmIff(t: Table, mac: Mac, target: Ip, server: Ip, net: Cidr, hostname: Option<string>, now: Time)
    ensures var c := Confirm(t, mac, Some(target), server, net, hostname, now);
            && (c.Some? <==> && net.Network() < target < net.Broadcast() && target != server
                             && FreeForClient(t, target, mac, now) && Permitted(t, mac, target))
            && (c.Some? ==> c.value.ip == target)
  {
    hide HostnameTaken, TakenByOther;
    FreeMeansNotTaken(t, target, mac, now);
  }

  /** A request that names no address is for the one on record, expired or not, and refused if there is none. */
  lemma {:induction false} ConfirmOnRecord(t: Table, mac: Mac, server: Ip, net: Cidr, hostname: Option<string>, now: Time)
    ensures mac !in t.byMac ==> Confirm(t, mac, None, server, net, hostname, now) == None
    ensures mac in t.byMac ==>
              Confirm(t, mac, None, server, net, hostname, now) == Confirm(t, mac, Some(t.byMac[mac].ip), server, net, hostname, now)
  {
    hide HostnameTaken, TakenByOther;
  }

  /**
   The name given is that of the reservation if that has one, else the one the
   client sent, unless another client has it.  A name the client had before is
   to be deregistered exactly if it is another one than it is given now.
   */
  lemma {:induction false} ConfirmedNames(t: Table, mac: Mac, requested: Option<Ip>, server: Ip, net: Cidr, hostname: Option<string>, now: Time)
    requires Confirm(t, mac, requested, server, net, hostname, now).Some?
    ensures var c := Confirm(t, mac, requested, server, net, hostname, now).value;
            && (mac in t.statics && t.statics[mac].hostname.Some? ==>
                  var name := t.statics[mac].hostname.value;
                  c.hostname == if NameFreeForClient(t, name, mac, now) then Some(name) else None)
            && (!(mac in t.statics && t.statics[mac].hostname.Some?) && hostname.Some? ==>
                  c.hostname == if NameFreeForClient(t, hostname.value, mac, now) then hostname else None)
            && (!(mac in t.statics && t.statics[mac].hostname.Some?) && hostname.None? ==> c.hostname == None)
            && (forall name :: c.deregister == Some(name) <==>
                  mac in t.byMac && t.byMac[mac].hostname == Some(name) && c.hostname != Some(name))
  {
    hide HostnameTaken, Confirmable;
    if mac in t.statics && t.statics[mac].hostname.Some? {
      NameFreeMeansNotTaken(t, t.statics[mac].hostname.value, mac, now);
    }
    if hostname.Some? {
      NameFreeMeansNotTaken(t, hostname.value, mac, now);
    }
  }

  // ---- candidates ----

  /** A client with a reservation is offered that address or none, and the address exactly if it is in the network and free. */
  lemma {:induction false} ReservedCandidate(t: Table, mac: Mac, net: Cidr, server: Ip, now: Time)
    requires mac in t.statics
    ensures var ip := t.statics[mac].ip;
            Candidate(t, mac, net, server, now) ==
            if net.Network() <= ip <= net.Broadcast() && ip != server && FreeForClient(t, ip, mac, now) then Some(ip) else None
  {
    hide TakenByOther;
    FreeMeansNotTaken(t, t.statics[mac].ip, mac, now);
  }

  // ---- the leases after a command ----

  /** Discovers and requests are confirmed for as long as they say, with the name they say. */
  lemma {:induction false} LeaseAfterConfirm(t: Table, mac: Mac, ip: Ip, duration: nat, hostname: Option<string>, now: Time)
    ensures var t' := Step(t, ConfirmLease(mac, ip, duration, hostname), now);
            && t'.byMac.Keys == t.byMac.Keys + {mac} && t'.byMac[mac] == Lease(ip, now + duration, hostname)
            && forall m | m in t.byMac && m != mac :: t'.byMac[m] == t.byMac[m]
  {
  }

  lemma {:induction false} LeaseAfterRequest(t: Table, mac: Mac, requested: Option<Ip>, server: Ip, net: Cidr, duration: nat,
                                             hostname: Option<string>, now: Time)
    ensures var t' := Step(t, ValidateAndConfirm(mac, requested, server, net, duration, hostname), now);
            match Confirm(t, mac, requested, server, net, hostname, now)
            case None => t' == t
            case Some(c) =>
              && t'.byMac.Keys == t.byMac.Keys + {mac} && t'.byMac[mac] == Lease(c.ip, now + duration, c.hostname)
              && forall m | m in t.byMac && m != mac :: t'.byMac[m] == t.byMac[m]
  {
    hide Confirm;
  }

  /** A candidate is held for ten seconds; a client without a reservation gets no name with it, and expired leases go. */
  lemma {:induction false} LeaseAfterAllocation(t: Table, mac: Mac, net: Cidr, server: Ip, now: Time)
    ensures var t' := Step(t, AllocateCandidate(mac, net, server), now);
            match Candidate(t, mac, net, server, now)
            case None => forall m | m in t'.byMac :: m in t.byMac && t'.byMac[m] == t.byMac[m]
            case Some(ip) =>
              && mac in t'.byMac
              && t'.byMac[mac] == Lease(ip, now + 10_000, if mac in t.statics then t.statics[mac].hostname else None)
              && (forall m | m in t.byMac && m != mac && t.byMac[m].expiry > now :: m in t'.byMac)
              && (forall m | m in t'.byMac && m != mac :: m in t.byMac && t'.byMac[m] == t.byMac[m])
  {
    hide Candidate;
  }

  /**
   A device seen on the network is entered for five minutes, unless it has no
   proper MAC, is on record with that address already, or has a reservation
   for another one.
   */
  lemma {:induction false} LeaseAfterNeighbor(t: Table, mac: Mac, ip: Ip, now: Time)
    ensures var t' := Step(t, AddNeighbor(mac, ip), now);
            if mac == 0 || mac == 0xFFFF_FFFF_FFFF || (mac in t.byMac && t.byMac[mac].ip == ip)
               || (mac in t.statics && t.statics[mac].ip != ip)
            then t' == t
            else && t'.byMac.Keys == t.byMac.Keys + {mac}
                 && t'.byMac[mac] == Lease(ip, now + 300_000, if mac in t.statics then t.statics[mac].hostname else None)
                 && forall m | m in t.byMac && m != mac :: t'.byMac[m] == t.byMac[m]
  {
  }

  lemma {:induction false} LeasesAfterOthers(t: Table, mac: Mac, ip: Ip, duration: nat, now: Time)
    ensures Step(t, Release(mac), now).byMac == t.byMac - {mac}
    ensures Step(t, RecordConflict(ip, duration), now) == t.(conflicts := t.conflicts[ip := now + duration])
    ensures var t' := Step(t, EvictExpired, now);
            && (forall m :: m in t'.byMac <==> m in t.byMac && t.byMac[m].expiry > now)
            && (forall m | m in t'.byMac :: t'.byMac[m] == t.byMac[m])
            && (forall x :: x in t'.conflicts <==> x in t.conflicts && t.conflicts[x] > now)
            && (forall x | x in t'.conflicts :: t'.conflicts[x] == t.conflicts[x])
  {
  }

  /** The line for a client: its unexpired lease with the whole seconds left, else its reservation with none. */
  lemma {:induction false} InfoIs(t: Table, mac: Mac, now: Time)
    requires Known(t, mac, now)
    ensures var info := InfoFor(t, mac, now);
            && info.mac == mac && (info.isStatic <==> mac in t.statics)
            && (mac in t.byMac && t.byMac[mac].expiry > now ==>
                  && info.ip == t.byMac[mac].ip && info.hostname == t.byMac[mac].hostname
                  && now + 1000 * info.expiresInSeconds <= t.byMac[mac].expiry < now + 1000 * info.expiresInSeconds + 1000)
            && (!(mac in t.byMac && t.byMac[mac].expiry > now) ==>
                  info.ip == t.statics[mac].ip && info.hostname == t.statics[mac].hostname && info.expiresInSeconds == 0)
  {
  }
}
