# Verification of trimrouter

A Dafny model of the parts of trimrouter, a router that runs as PID 1, that have
algorithms or state machines of their own, with proofs about every input, every
run and every reachable state of that model. `dafny verify dfyconfig.toml`
checks all of it.

What is modelled, file by file:

- **Kernel modules** (`Wildcard`, `ModuleDeps`): the glob matcher with one saved
  backtrack point against the recursive definition of a match, and the
  depth-limited dependency walk against reachability and load order.
- **DNS forwarder** (`DnsMessage`, `DnsCache`, `LocalNames`, `RateLimiter`,
  `DnsForwarder`, `ForwarderSteps`, `DnsWorker`): queries in flight, joining,
  failover, TCP fallback and fan-out as one state machine; the bounded cache
  against an unbounded one; the two host tables; the token bucket against an ideal bucket
  that is never dropped; and the path of a query through all of these.
- **DHCP server** (`DhcpLeases` in `LeaseTable.dfy`, `LeaseSteps`, `LeaseNames`,
  `DhcpServer`): the lease table with its index, expiry, conflict holds,
  reservations and host names under a stream of commands; the probing loop and
  the handling of discovers and requests while other commands interleave.
- **DHCP client** (`LeaseRenewal`, `ClientRun`, `ClientAnswers`, `ClientExpiry`,
  `DhcpClient`): the retry arithmetic of a renewal nobody answers, the whole
  client as a run against an environment that answers, refuses or stays silent,
  what ends each phase and what follows, and when exactly a lease that nobody
  extends is cleared.
- **Subnets, fallback and configuration** (`Ipv4`, `Hostname`, `RouterConfig`,
  `LanFallback`, `Firewall`): CIDR blocks and masks, what configuration parsing
  accepts, what becomes of it when the LAN moves to its fallback subnet, and
  the NAT rules made of it.

How the model is built:

- Objects that the source updates in place are classes. Each method is proved
  equal to a step of a specification on values, and what holds of every run is
  proved about those steps. A ghost `log`, `book` or `seen` ties the object to
  the run it has been through. What a step does is also stated case by case, by
  the contents of the state and the message alone (`ForwarderSteps`, `LeaseSteps`,
  `ClientAnswers`, and lemmas beside the functions of the other modules).
- The clock, the network, random IDs, jitter, the order of hash map iteration
  and commands from elsewhere are parameters or arbitrary choices. A clock
  never goes back unless a contract says otherwise. Times are milliseconds in
  the DNS and DHCP modules, seconds in `LeaseRenewal`, and real seconds in the
  class of `RateLimiter`; the run lemmas of that module measure time in tokens,
  and `OrderedInTokens`, `EveryRunInSeconds` and `WindowBoundInSeconds` carry
  them over to seconds.
- Text is parsed already: addresses, MACs, ports and DNS messages come as values
  with the outcome of parsing where the code branches on it.

Where the code does something other than it or its comments promise, the model
follows the code, a lemma names a case, and another lemma says exactly when the
promise holds:

- The comment at src/services/dhcp_server/lease_table.rs:20-24 says that an
  address is in the index if and only if the table has a live lease for it.
  Two MACs with one address break this (`IndexCanMissALease`). `StepExactIff` says
  which commands keep it, `IndexExactIff` in which runs it holds throughout. What
  every run keeps is `IndexInEveryRun`, and that is enough for allocation.
- A discover confirms the address on record without looking whether it is still
  free, so two clients can hold one address (`DiscoverCanShare`). `NeverSharedIff`
  gives the exact condition on runs, `HandleDiscover` the condition for one
  discover; the path through the search is safe while its hold lasts
  (`CandidateStaysSafe`, used in `HandleDiscover`).
- The server probes an address while the client already holds it, and the check
  that follows looks at whichever unexpired holder comes first in hash order
  (src/services/dhcp_server/lease_table.rs:168-173). So a device that answers the
  probe may be missed and the address acknowledged or offered all the same
  (`ProbeCanMiss`, and `ProbeIsUndecided` for every such table). `CheckIsRightIff`
  gives the exact condition for the check to be right: not both the client and
  another hold the address. After a request that means that the check is certain
  to be right exactly if there is nothing for it to find (`RequestCheckIsRightIff`).
- A request that is refused because the probe did find another device leaves the
  lease of an hour in the table that was entered before the probe, so the client's
  next discover is offered the same address again (`HandleRequest`).
- Requests are confirmed only with host names that no other client has, but
  discovers, candidates for reserved clients and neighbour entries are not looked
  at, so two clients can have one name (`DiscoversCanShareAName`).
  `NamesNeverSharedIff` gives the exact condition on runs.
- A pattern `*` that meets a literal `*` in the input is consumed as a literal,
  so some matches are missed: for every input with a `*` there is one
  (`RejectedMatch`), for every other input there is none (`WildcardMatch`).
- The DHCP client counts whole seconds since the bind, rounded down. A packet that
  cuts one of its sleeps short leaves it off the whole second, and a lease that
  nobody extends is then cleared late by as much: `LateRun` is a whole run with a
  lease of 2 s cleared after 2.5 s. `UnextendedLease` gives the time for every
  lease, namely late by the sum of the cut sleeps modulo a second. A renewal is
  certain to end in time, whatever comes, exactly if it starts on a whole second
  (`EndsInTimeIff`), and in every run a lease is kept too long by at most what the
  last request to extend it was off the whole second (`GoodTraceMeans`).
- Dropping idle buckets could show, and the window bound could fail, for rates
  too low to fill a bucket within the idle timeout: `DroppingIsInvisibleIff` and
  `WindowBoundIff` give the exact condition, which the default rate meets.
- The host tables are inverse of each other exactly as long as no name is
  registered for an address that another name has (`InverseThroughoutIff`).

## Model

| member | source | states |
|---|---|---|
| `Wildcard.WildcardMatch` | src/init/kmod.rs:453-479 | true only for a glob match; true for every glob match of an input without a literal star; on inputs that the pattern spells literally, true exactly if the rest of the pattern is stars; fewer than (input length + 1)·(pattern length + 1) rounds |
| `Wildcard.RejectedMatch` | src/init/kmod.rs:453-479 | every input with a literal star has a pattern that matches it and is rejected, so the condition of the converse is exact |
| `ModuleDeps.ResolveInternal` | src/init/kmod.rs:204-230 | the recursion that fills the two collections in place computes the walk of the specification |
| `ModuleDeps.ResolveDeps` | src/init/kmod.rs:195-202 | the result holds the file names of the load order of the walk |
| `ModuleDeps.NormalizeIff` | src/init/kmod.rs:218 | names count as one exactly if they differ at most in `-` and `_`, and stand for themselves without `_` |
| `ModuleDeps.LoadOrderIsSound` | src/init/kmod.rs:193-230 | on any map, cyclic or not, each module is listed at most once, and only known modules reachable over at most 64 edges |
| `ModuleDeps.LoadOrderIsComplete` | src/init/kmod.rs:193-230 | where no chain from the root is longer than 64 edges, the list is exactly the known reachable modules, each after all its known dependencies |
| `ModuleDeps.ShortChainsAreBounded` | src/init/kmod.rs:204-230 | a bound on all chains of the graph is a bound on the depth of the recursion |
| `ModuleDeps.CompleteOrderNeeds` | src/init/kmod.rs:193-230 | a complete order with dependencies first is only possible if what is reachable is acyclic and within 64 edges |
| `RateLimiter.DnsRateLimiter.constructor` | src/services/dns_forwarder/rate_limiter.rs:22-28 | rate and burst are at least 1; no buckets |
| `RateLimiter.DnsRateLimiter.Check` | src/services/dns_forwarder/rate_limiter.rs:30-52 | answers with the verdict of the token clock for the whole run so far |
| `RateLimiter.DnsRateLimiter.RetainRecent` | src/services/dns_forwarder/rate_limiter.rs:54-58 | drops exactly the buckets not used for more than ten seconds, and leaves the others as they are |
| `RateLimiter.VerdictsAreIdeal` | src/services/dns_forwarder/rate_limiter.rs:30-58 | with the refill condition, every verdict of every run is that of a bucket of the client's own that is never dropped and sees no call of others |
| `RateLimiter.ConformingIsGranted` | src/services/dns_forwarder/rate_limiter.rs:30-58 | a client whose calls keep within burst and rate in every window is always granted, whatever the timeout and whatever others do |
| `RateLimiter.AlwaysGrantedIff` | src/services/dns_forwarder/rate_limiter.rs:30-58 | with the refill condition exactly those clients are always granted |
| `RateLimiter.ConformingInSeconds` | src/services/dns_forwarder/rate_limiter.rs:30-58 | the same in seconds: never more than burst + rate·(t − s) calls between s and t means all are granted |
| `RateLimiter.Conservation` | src/services/dns_forwarder/rate_limiter.rs:30-52 | grants in a window plus the tokens left never exceed the burst plus the tokens earned in it |
| `RateLimiter.IdealWindowBound` | src/services/dns_forwarder/rate_limiter.rs:30-52 | the window bound for buckets that are never dropped, whatever the rate |
| `RateLimiter.LateRefillShows` | src/services/dns_forwarder/rate_limiter.rs:30-58 | without the refill condition, a run that exceeds the window bound and whose verdicts differ from the ideal ones |
| `RateLimiter.DroppingIsInvisibleIff` | src/services/dns_forwarder/rate_limiter.rs:54-58 | dropping idle buckets never changes a verdict in any run exactly if the timeout earns at least a burst |
| `RateLimiter.WindowBoundIff` | src/services/dns_forwarder/rate_limiter.rs:30-58 | every client in every run keeps to the window bound exactly under the same condition |
| `RateLimiter.OrderedInTokens` | src/services/dns_forwarder/rate_limiter.rs:30-52 | runs are in order in seconds exactly if they are in tokens |
| `RateLimiter.EveryRunInSeconds` | src/services/dns_forwarder/rate_limiter.rs:30-52 | every run on the token clock is a run in seconds |
| `RateLimiter.WindowBoundInSeconds` | src/services/dns_forwarder/rate_limiter.rs:22-58 | at most burst + rate·(t − s) grants of one client between s and t, over any run |
| `RateLimiter.DefaultsRefill` | src/services/dns_forwarder/rate_limiter.rs:61-65 | the default rate and burst meet the refill condition |
| `Ipv4.OverlapIffShared` | src/services/lan/manager.rs:435-437 | the overlap test holds exactly if the two blocks share an address |
| `Ipv4.MaskRoundTrip` | src/services/utils.rs:119-140 | the prefix length of the mask of a prefix length is that length |
| `Ipv4.ContiguousMask` | src/services/utils.rs:119-140 | a mask has a prefix length exactly if it is the mask of one, and then of that one |
| `Hostname.SanitizeYieldsHostnames` | src/services/utils.rs:63-75 | what comes out is a lower-case label; exactly such labels come out unchanged |
| `Hostname.SanitizeIsIdempotent` | src/services/utils.rs:63-75 | sanitizing twice is sanitizing once |
| `Hostname.SanitizeAccepts` | src/services/utils.rs:63-75 | every label of letters, digits and inner dashes is accepted in lower case, whatever white space is around it and whatever follows a dot |
| `Hostname.SanitizedFrom` | src/services/utils.rs:63-75 | nothing else is accepted |
| `LocalNames.LocalDnsTable.RegisterLocalHost` | src/services/dns_forwarder/worker.rs:192-197 | the two maps follow the specification of the run, and the reverse map stays sound |
| `LocalNames.LocalDnsTable.DeregisterLocalHost` | src/services/dns_forwarder/worker.rs:198-202 | likewise for a removal |
| `LocalNames.ReverseStaysSound` | src/services/dns_forwarder/worker.rs:192-202 | after any messages, the name an address maps to maps back to that address |
| `LocalNames.StepKeepsInverseIff` | src/services/dns_forwarder/worker.rs:192-202 | a message keeps the maps inverse exactly if it does not give an address to a second name |
| `LocalNames.InverseThroughoutIff` | src/services/dns_forwarder/worker.rs:192-202 | the maps are inverse throughout a run exactly if no message in it does |
| `LocalNames.SharingLeavesAGap` | src/services/dns_forwarder/worker.rs:192-202 | two names for one address leave a name whose address does not lead back |
| `LocalNames.QualifiedName` | src/services/dns_forwarder/worker.rs:873-889 | a sanitized name with the local domain and a final dot is taken apart into that name |
| `LocalNames.PtrResolvesForward` | src/services/dns_forwarder/worker.rs:897-944 | after any messages with sanitized names, the target of every PTR answer resolves, as an A query, to the address asked about |
| `LocalNames.ForwardResolvesBack` | src/services/dns_forwarder/worker.rs:897-944 | where the maps are inverse, a host found by name is found by its address, and the other way round |
| `LocalNames.FinalDotIsIgnored` | src/services/dns_forwarder/worker.rs:873-895 | a dot at the end of a name changes no answer |
| `LocalNames.ForwardNameIff` | src/services/dns_forwarder/worker.rs:873-889 | a name stands for a host exactly if it is the host's name, alone or with the local domain, in any case |
| `LocalNames.KnownHostAnswers` | src/services/dns_forwarder/worker.rs:911-918 | a known host is answered for with its address, and with no data for other types |
| `LocalNames.UnknownLocalName` | src/services/dns_forwarder/worker.rs:918-921 | an unknown name in the local domain does not exist |
| `LocalNames.ForeignName` | src/services/dns_forwarder/worker.rs:923-944 | of all other names, reverse names of known addresses are answered, names under `local` do not exist, the rest is left to upstream |
| `LocalNames.RegisteredIsFound` | src/services/dns_forwarder/worker.rs:192-197 | from its registration on a host is found by name and address, and no other name changes its address |
| `LocalNames.DeregisteredIsGone` | src/services/dns_forwarder/worker.rs:198-202 | from its deregistration on it is not, and no other name changes its address |
| `RouterConfig.ParsedLanNetwork` | src/config.rs:207-259 | the router gets a host address strictly inside its block, also if the network address was given, and the prefix asked for |
| `RouterConfig.ParseLanNetworkIs` | src/config.rs:207-259 | exactly which fields are refused, and which address the router gets |
| `RouterConfig.ParsedLanSubnets` | src/config.rs:261-292 | an accepted pair is of the same size and shares no address |
| `RouterConfig.ParseLanSubnetsIff` | src/config.rs:261-292 | the primary subnet comes first and the fallback second, with their defaults; refused exactly if either is or they share an address |
| `RouterConfig.ValidateTargetIpIff` | src/config.rs:294-338 | a target is accepted exactly if it is a host of the LAN other than the router, and its offset is not that of the router in the fallback subnet |
| `RouterConfig.UnicastMacIs` | src/config.rs:172-177 | a MAC is unicast by the lowest bit of its first octet |
| `RouterConfig.ReservationIff` | src/config.rs:413-477 | exactly when a reservation is accepted by itself, and as what |
| `RouterConfig.PortForwardIff` | src/config.rs:485-527 | exactly when a port forward is accepted by itself, and as what, with the defaults for protocol and internal port |
| `RouterConfig.ParseDhcpReservations` | src/config.rs:396-483 | accepted exactly if every entry is valid by itself and no two clash in MAC, address or hostname; the result is the entries in order |
| `RouterConfig.CheckPortForwardConflicts` | src/config.rs:529-562 | accepts exactly if the rule leaves UDP 68 alone and its ports are unbound for each protocol it covers, and then binds those |
| `RouterConfig.OneMoreRule` | src/config.rs:529-562 | the two port sets decide exactly whether one more rule conflicts with any before it |
| `RouterConfig.ParsePortForwardRules` | src/config.rs:485-581 | accepted exactly if some list of valid rules without conflicts comes from the text; that list is the result |
| `LanFallback.LanRunner.CheckAndResolve` | src/services/lan/manager.rs:354-416 | moves as specified; afterwards a conflict remains only where the fallback conflicts too |
| `LanFallback.ConflictsIff` | src/services/lan/manager.rs:354-381 | a WAN lease is in conflict exactly if it has an address and a mask of 8 to 30 bits whose block shares an address with the LAN |
| `LanFallback.MovesAtMostOnce` | src/services/lan/manager.rs:354-416 | over any WAN leases the LAN moves at most once, from the initial to the fallback subnet, on a lease that overlaps the one and not the other |
| `LanFallback.TranslateIff` | src/services/lan/manager.rs:444-465 | translation keeps the offset, and fails exactly outside the subnets or at the router's or the last address |
| `LanFallback.AcceptedTranslates` | src/services/lan/manager.rs:444-465 | every accepted target translates, keeps its offset, is a valid target there, and translates back |
| `LanFallback.RemapStaticLeases` | src/services/lan/manager.rs:467-491 | the loop yields the translations in order, leaving out what has none |
| `LanFallback.RemapPortForwards` | src/services/lan/manager.rs:493-515 | likewise for port forwards |
| `LanFallback.ParsedLeasesAccepted` | src/config.rs:396-483 | reservations from parsing meet what survival needs |
| `LanFallback.ParsedForwardsAccepted` | src/config.rs:485-581 | port forwards from parsing meet what survival needs |
| `LanFallback.LeasesSurvive` | src/services/lan/manager.rs:467-491 | no accepted reservation is lost: order, MACs, names and offsets are kept, addresses stay distinct and valid, and moving back restores the list |
| `LanFallback.ForwardsSurvive` | src/services/lan/manager.rs:493-515 | no accepted port forward is lost: all but the address is kept, the offset too, there are still no conflicts, and moving back restores the list |
| `Firewall.BuildDnatRules` | src/init/firewall.rs:115-144 | the loop builds the specified list |
| `Firewall.DnatRulesAreBindings` | src/init/firewall.rs:115-144 | the list has a rule exactly for every protocol and port a configured rule covers, with its target |
| `Firewall.KeysAreDistinct` | src/init/firewall.rs:115-144 | at most one rule for each protocol and external port |
| `Firewall.FirstMatchIsConfigured` | src/init/firewall.rs:115-144 | in whatever order the rules stand, the first match sends a connection exactly where the configuration does, and UDP 68 nowhere |
| `Firewall.ForwardingAfterMove` | src/services/lan/manager.rs:493-515 | after a move to the fallback subnet the rules send every connection to the same host offset as before |
| `Firewall.AcceptedConfiguration` | src/config.rs:564-581 | for every accepted configuration, at home and after a move: distinct protocol and port in the rules, none for UDP 68, and every connection goes to the same host offset and port |
| `DhcpLeases.LeaseTable.constructor` | src/services/dhcp_server/lease_table.rs:39-41 | an empty table |
| `DhcpLeases.LeaseTable.WithStaticLeases` | src/services/dhcp_server/lease_table.rs:44-58 | an empty table given the reservations |
| `DhcpLeases.LeaseTable.SetStaticLeases` | src/services/dhcp_server/lease_table.rs:61-75 | the new state of the table |
| `DhcpLeases.LeaseTable.IsHostnameTakenByOther` | src/services/dhcp_server/lease_table.rs:83-89 | true exactly if another MAC has an unexpired lease with the name |
| `DhcpLeases.LeaseTable.Insert` | src/services/dhcp_server/lease_table.rs:92-98 | the new state of the table |
| `DhcpLeases.LeaseTable.Remove` | src/services/dhcp_server/lease_table.rs:101-105 | the new state of the table, and the lease that was there |
| `DhcpLeases.LeaseTable.IsIpTakenByOther` | src/services/dhcp_server/lease_table.rs:130-134 | true exactly if another MAC has an unexpired lease for the address |
| `DhcpLeases.LeaseTable.Evict` | src/services/dhcp_server/lease_table.rs:137-153 | the new state of the table, and exactly the names of the expired leases |
| `DhcpLeases.LeaseTable.NextAvailableIp` | src/services/dhcp_server/lease_table.rs:157-165 | evicts, and answers with the lowest assignable address, none only if there is none |
| `DhcpLeases.LeaseTable.GetActiveLeases` | src/services/dhcp_server/lease_table.rs:302-332 | one line for each client with an unexpired lease or a reservation, and no other |
| `DhcpLeases.LeaseTable.IsHeldByOther` | src/services/dhcp_server/lease_table.rs:168-173 | answers by any one unexpired holder; true only if another MAC holds the address; true if so and the client itself does not |
| `DhcpLeases.CheckIsRightIff` | src/services/dhcp_server/lease_table.rs:657-667 | whichever holder is looked at, the check for others is right exactly if not both the client and another hold the address; else either answer may come |
| `DhcpLeases.LeaseTable.AllocateCandidate` | src/services/dhcp_server/lease_table.rs:177-212 | the candidate and the new state of the table |
| `DhcpLeases.LeaseTable.ValidateAndConfirm` | src/services/dhcp_server/lease_table.rs:216-272 | the confirmation or refusal, and the new state of the table |
| `DhcpLeases.LeaseTable.UpdateFromNeighbor` | src/services/dhcp_server/lease_table.rs:275-299 | the new state of the table |
| `DhcpLeases.LeaseActor.Handle` | src/services/dhcp_server/lease_table.rs:595-690 | every command is one step of the run, with the answer that belongs to it |
| `LeaseSteps.ConfirmIff` | src/services/dhcp_server/lease_table.rs:226-243 | a request is confirmed exactly if its address is strictly inside the network, not the server's, in nobody else's unexpired lease, and the client's reservation or, without one, not reserved |
| `LeaseSteps.ConfirmOnRecord` | src/services/dhcp_server/lease_table.rs:225 | a request without an address is for the one on record, and refused without one |
| `LeaseSteps.ConfirmedNames` | src/services/dhcp_server/lease_table.rs:245-258 | which name is given, and exactly which old name is to be deregistered |
| `LeaseSteps.ReservedCandidate` | src/services/dhcp_server/lease_table.rs:182-200 | a client with a reservation gets that address exactly if it is in the network, not the server's and free |
| `LeaseSteps.LeaseAfterConfirm` | src/services/dhcp_server/lease_table.rs:624-638 | the lease a confirmation leaves, and that no other changes |
| `LeaseSteps.LeaseAfterRequest` | src/services/dhcp_server/lease_table.rs:216-272 | the lease a request leaves, and that no other changes |
| `LeaseSteps.LeaseAfterAllocation` | src/services/dhcp_server/lease_table.rs:177-212 | a candidate is held for ten seconds; only expired leases go |
| `LeaseSteps.LeaseAfterNeighbor` | src/services/dhcp_server/lease_table.rs:275-299 | exactly which devices are entered, for five minutes, and that no other lease changes |
| `LeaseSteps.LeasesAfterOthers` | src/services/dhcp_server/lease_table.rs:101-153 | what release, conflict holds and eviction leave |
| `LeaseSteps.InfoIs` | src/services/dhcp_server/lease_table.rs:302-332 | what the line for a client says |
| `DhcpLeases.StepKeepsIndex` | src/services/dhcp_server/lease_table.rs:61-153 | every command keeps the index within the addresses of the table; eviction makes it exact |
| `DhcpLeases.IndexInEveryRun` | src/services/dhcp_server/lease_table.rs:595-690 | the same in every run |
| `DhcpLeases.InsertExactIff` | src/services/dhcp_server/lease_table.rs:92-98 | an insertion leaves an exact index exact exactly if no other lease is for the address given up |
| `DhcpLeases.RemoveExactIff` | src/services/dhcp_server/lease_table.rs:101-105 | likewise for a removal |
| `DhcpLeases.SetStaticsExactIff` | src/services/dhcp_server/lease_table.rs:61-75 | new reservations leave it exact exactly if no lease that stays is for the address of one that they drop |
| `DhcpLeases.StepExactIff` | src/services/dhcp_server/lease_table.rs:595-690 | every command leaves an exact index exact exactly if it gives up no address that another lease is for |
| `DhcpLeases.IndexExactIff` | src/services/dhcp_server/lease_table.rs:20-24 | the index is exact throughout a run exactly if every command in it is such a command |
| `DhcpLeases.IndexCanMissALease` | src/services/dhcp_server/lease_table.rs:20-24 | a run after which the index misses an address in the table |
| `DhcpLeases.LowestFreeIsLowest` | src/services/dhcp_server/lease_table.rs:157-165 | the search yields the lowest free address of a range, and none only if there is none |
| `DhcpLeases.HostRange` | src/services/dhcp_server/lease_table.rs:163 | the search goes over exactly the addresses strictly inside the block, or over the whole block if it has no more than two |
| `DhcpLeases.SearchIsLowest` | src/services/dhcp_server/lease_table.rs:157-165 | the search after eviction yields the lowest assignable address |
| `DhcpLeases.CandidateIsLowest` | src/services/dhcp_server/lease_table.rs:108-212 | allocation yields the lowest address strictly inside the block (or in a block of one or two) that is not the server's, reserved, in conflict or in an unexpired lease, and none only if there is none |
| `DhcpLeases.InsertSafeIff` | src/services/dhcp_server/lease_table.rs:92-98 | an insertion keeps leases apart exactly if no other MAC holds the address |
| `DhcpLeases.StepSafeIff` | src/services/dhcp_server/lease_table.rs:595-690 | a command keeps leases apart exactly if, being a confirmation or a neighbour entry, it names an address no other MAC holds |
| `DhcpLeases.NeverSharedIff` | src/services/dhcp_server/lease_table.rs:92-299 | in every run in order, no two unexpired leases of different MACs ever share an address exactly if every confirmation and neighbour entry is safe in that sense |
| `DhcpLeases.DiscoverCanShare` | src/services/dhcp_server/worker.rs:379-419 | a run in which confirming the address on record makes two clients share it |
| `DhcpLeases.SetStaticsKeepsIff` | src/services/dhcp_server/lease_table.rs:61-75 | any new reservations are kept from the start exactly if no client without one has a lease for an address in them |
| `DhcpLeases.StepKeepsReservationsIff` | src/services/dhcp_server/lease_table.rs:61-299 | every command, a change of reservations included, keeps all leases within the reservations exactly if, being one of the three that do not look, it respects them |
| `DhcpLeases.ReservationsThroughoutIff` | src/services/dhcp_server/lease_table.rs:595-690 | in every run, with whatever changes of reservations, all leases fit them throughout exactly if every command respects them |
| `DhcpLeases.StaticsInEveryRun` | src/services/dhcp_server/lease_table.rs:61-75 | the reservations of the table are those of the last change, consistently indexed, if changes have distinct ones |
| `DhcpLeases.ReservedAddressIsKept` | src/services/dhcp_server/lease_table.rs:61-272 | in every run that respects its reservations a lease is for an address reserved at the time exactly if it is the lease of the MAC it is reserved for |
| `LeaseNames.InsertNameSafeIff` | src/services/dhcp_server/lease_table.rs:92-98 | an insertion keeps names apart exactly if no other client has the name |
| `LeaseNames.ConfirmedNameIsFree` | src/services/dhcp_server/lease_table.rs:240-250 | the name a request is confirmed with is nobody else's |
| `LeaseNames.StepNameSafeIff` | src/services/dhcp_server/lease_table.rs:595-690 | a command keeps names apart exactly if, being one of the three that give out a name without looking, it gives one that no other client has |
| `LeaseNames.NamesNeverSharedIff` | src/services/dhcp_server/lease_table.rs:92-299 | in every run in order no two unexpired leases ever have one name exactly if every command is safe in that sense |
| `LeaseNames.DiscoversCanShareAName` | src/services/dhcp_server/worker.rs:394-419 | a run in which two discovers give one name to two clients |
| `DhcpServer.StepKeepsHolding` | src/services/dhcp_server/lease_table.rs:108-153 | no command of others takes away a conflict hold that is still on |
| `DhcpServer.CandidateIsNew` | src/services/dhcp_server/lease_table.rs:177-212 | a candidate is a host, not the server, and none of those on hold |
| `DhcpServer.ProbeAndAllocate` | src/services/dhcp_server/worker.rs:350-377 | whatever interleaves, no candidate is tried twice while the holds last, so the loop ends within the number of hosts; what it yields is a host, not the server, not refused before, taken and then checked with a negative answer, so that if another holds it the client does too; it yields none only if no address is assignable |
| `DhcpServer.CandidateStaysSafe` | src/services/dhcp_server/worker.rs:394-419 | confirming a candidate before its hold runs out is safe, whatever safe commands for other clients come in between |
| `DhcpServer.HandleDiscover` | src/services/dhcp_server/worker.rs:379-430 | offers the reservation, else the address on record, else the one found, and confirms it for an hour with the name sent; in a run that was safe so far leases stay apart exactly if no other MAC holds it by then, which is certain after a search while its hold lasts and nothing else concerns the client |
| `DhcpServer.ProbeIsUndecided` | src/services/dhcp_server/lease_table.rs:168-173 | in every table in which the client holds the address, a device recorded with it leaves the check undecided |
| `DhcpServer.ProbeCanMiss` | src/services/dhcp_server/worker.rs:432-455 | a run in which the probe turns up another device and the check may miss it |
| `DhcpServer.RequestCheckIsRightIff` | src/services/dhcp_server/worker.rs:432-455 | in every run in order, the check after a confirmed request that nothing else concerned is certain to be right exactly if no other MAC holds the address |
| `DhcpServer.HandleRequest` | src/services/dhcp_server/worker.rs:432-550 | silent exactly if for another server; refused without a trace if it cannot be confirmed; refused with a hold of five minutes on the address if another MAC is found to have it; acknowledged otherwise, with the address asked for, strictly inside the network, and then if another holds it the client does too, and in a safe run no other does; either way the lease stays on record |
| `DhcpServer.AcceptedReservations` | src/config.rs:396-483 | accepted reservations are distinct in MAC and address, at home and after a move, which is what the runs with reservations start from |
| `LeaseRenewal.WaitsInBounds` | src/services/dhcp_client/worker.rs:551-576 | a wait is at least a second, and never goes past T2 while renewing nor past expiry while rebinding (section 4.4.5 of RFC 2131) |
| `LeaseRenewal.TimersAre` | src/services/dhcp_client/worker.rs:220-248 | T1 is half the lease and T2 seven eighths of it, rounded down (section 4.4.5 of RFC 2131) |
| `LeaseRenewal.IntervalIs` | src/services/dhcp_client/worker.rs:551-576 | a wait is half of what is left of its state, a minute at least until the last minute |
| `LeaseRenewal.UnansweredRequests` | src/services/dhcp_client/worker.rs:266-321 | requests are broadcast exactly from T2 on, and follow each other by their interval at least |
| `LeaseRenewal.EndsAtExpiry` | src/services/dhcp_client/worker.rs:266-321 | unanswered, the loop ends at expiry to the second |
| `LeaseRenewal.AlwaysRebinds` | src/services/dhcp_client/worker.rs:266-321 | at least one rebinding request goes out before expiry |
| `LeaseRenewal.RebindingCount` | src/services/dhcp_client/worker.rs:266-321 | requests while rebinding are logarithmic in the time left |
| `LeaseRenewal.RenewingCount` | src/services/dhcp_client/worker.rs:266-321 | and so are those while renewing |
| `LeaseRenewal.UnansweredRenewal` | src/services/dhcp_client/worker.rs:266-321 | for every lease from 1 s to 2^32 − 1 s an unanswered renewal from T1 rebinds before expiry, ends at expiry and sends at most 62 requests |
| `ClientRun.DelaysDouble` | src/services/dhcp_client/worker.rs:536-543 | the delays are 4 s doubled for every attempt, up to 64 s (section 4.1 of RFC 2131) |
| `ClientRun.RetrySends` | src/services/dhcp_client/worker.rs:143-205 | one attempt for each wait until one is interrupted by what it waits for |
| `ClientRun.Backoff` | src/services/dhcp_client/worker.rs:143-205 | in either phase attempt k + 1 comes 4·2^k s after attempt k, at most 64 s, with the jitter of that wait |
| `ClientRun.RenewalFine` | src/services/dhcp_client/worker.rs:266-321 | a renewal keeps the trace good whatever comes |
| `ClientRun.RunFine` | src/services/dhcp_client/worker.rs:92-135 | so does the whole run, for every environment and however long it is followed |
| `DhcpClient.Client.WaitFor` | src/services/dhcp_client/worker.rs:323-397 | waits the full time, or less if something comes that ends the wait |
| `DhcpClient.Client.DiscoverPhase` | src/services/dhcp_client/worker.rs:143-163 | follows the run: attempts, their delays and the outcome; no lease is applied during it |
| `DhcpClient.Client.RequestPhase` | src/services/dhcp_client/worker.rs:181-205 | likewise |
| `DhcpClient.Client.RenewLease` | src/services/dhcp_client/worker.rs:266-321 | follows the run and keeps the trace good; ends no later than expiry and what it started off the whole second, and in silence exactly then, with the requests of the schedule off by as much |
| `DhcpClient.Client.Sleep` | src/services/dhcp_client/worker.rs:222-242 | one sleep towards T1, cut short by any packet |
| `DhcpClient.Client.ApplyLease` | src/services/dhcp_client/worker.rs:399-415 | the lease is in force from now |
| `DhcpClient.Client.BoundPhase` | src/services/dhcp_client/worker.rs:207-264 | follows the run over any number of renewals and keeps the trace good; ends with the lease cleared unless the parent is gone |
| `DhcpClient.Client.ExecutePhases` | src/services/dhcp_client/worker.rs:107-112 | follows the run through the three phases |
| `DhcpClient.Client.HandlePhaseFailure` | src/services/dhcp_client/worker.rs:114-135 | follows the run; afterwards no lease is applied |
| `DhcpClient.Client.Run` | src/services/dhcp_client/worker.rs:92-105 | the whole loop follows the run and keeps the trace good |
| `DhcpClient.Follow` | src/services/dhcp_client/worker.rs:92-135 | for every environment the trace is that of the run and good, and so is the time it ends at |
| `ClientRun.GoodTraceMeans` | src/services/dhcp_client/worker.rs:207-264 | in a good trace no discover is sent while a lease is applied, and a lease is replaced or cleared by the time it runs out and what the last request to extend it was off the whole second since the bind; in time if these requests were on whole seconds |
| `ClientExpiry.FractionOvershoots` | src/services/dhcp_client/worker.rs:266-321 | a wait goes past expiry exactly if it is the last one and the client is off the whole second |
| `ClientExpiry.UnansweredRenewalRun` | src/services/dhcp_client/worker.rs:266-321 | from any start a renewal nobody answers sends the requests of the schedule and ends after expiry, both off by what it started off the whole second |
| `ClientExpiry.RenewalEndsBy` | src/services/dhcp_client/worker.rs:266-321 | whatever answers come, it ends no later than that |
| `ClientExpiry.EndsInTimeIff` | src/services/dhcp_client/worker.rs:266-321 | over all that may come, a renewal is certain to end by expiry exactly if it starts on a whole second since the bind |
| `ClientExpiry.OffByCuts` | src/services/dhcp_client/worker.rs:222-242 | the client is off the whole second by the sum of its sleeps that were cut short |
| `ClientExpiry.UnextendedLease` | src/services/dhcp_client/worker.rs:207-264 | the exact messages from applying a lease that nobody extends to clearing it, late by that sum modulo a second |
| `ClientExpiry.LateRun` | src/services/dhcp_client/worker.rs:92-135 | a whole run that clears a lease of 2 s after 2.5 s |
| `ClientExpiry.ScheduleRound` | src/services/dhcp_client/worker.rs:266-321 | one round of the loop against the schedule of the retry arithmetic |
| `ClientAnswers.DiscoverResult` | src/services/dhcp_client/worker.rs:143-163 | an offer or the loss of the parent ends the discovery, and nothing else |
| `ClientAnswers.OfferIsTaken` | src/services/dhcp_client/worker.rs:143-163 | and does so at the moment it comes |
| `ClientAnswers.SelectedResult` | src/services/dhcp_client/worker.rs:166-205 | an ACK, a NAK or the loss of the parent ends the wait for an ACK, each with its own outcome |
| `ClientAnswers.AnswerIsTaken` | src/services/dhcp_client/worker.rs:166-205 | and does so at the moment it comes |
| `ClientAnswers.RenewalResult` | src/services/dhcp_client/worker.rs:266-321 | a renewal ends with an answer, each with its own outcome, the loss of the parent or the end of the lease, and with nothing else |
| `ClientAnswers.RenewalEndsAt` | src/services/dhcp_client/worker.rs:266-321 | an answer in any wait of a renewal ends it at that moment with its outcome |
| `ClientAnswers.SleepsLeadToRenewal` | src/services/dhcp_client/worker.rs:220-252 | whatever cuts them short, the sleeps lead to the renewal |
| `ClientAnswers.ParentLostAsleep` | src/services/dhcp_client/worker.rs:229-241 | the loss of the parent during a sleep ends the period at once |
| `ClientAnswers.PeriodIsActedOn` | src/services/dhcp_client/worker.rs:207-264 | during a lease only requests to extend it are sent; an ACK has the new lease applied at that moment, anything else has it cleared at that moment |
| `ClientAnswers.NotApplied` | src/services/dhcp_client/worker.rs:207-209 | a lease that does not reach the parent ends the phase |
| `ClientAnswers.AnsweredRenewal` | src/services/dhcp_client/worker.rs:207-321 | from a lease being applied to the answer to its renewal: with an ACK the next lease is applied at that moment without a clear in between, with a NAK it is cleared |
| `ClientAnswers.PhasesFollow` | src/services/dhcp_client/worker.rs:107-112 | a request follows an offer at once, and the lease is applied at once when acknowledged |
| `ClientAnswers.StartsOver` | src/services/dhcp_client/worker.rs:92-135 | after a failure the lease is cleared and discovery starts over after five seconds, counted anew from a packet; the loss of the parent ends the run |
| `DnsMessage.PreparedFits` | src/services/dns_forwarder/worker.rs:731-748 | what goes to a client fits its payload, keeps the ID, is left alone if it fits and marked if cut, down to the header only if need be |
| `DnsMessage.MinTtlIsLeast` | src/services/dns_forwarder/worker.rs:782-807 | the TTL taken is one of the answers' and at most each of them |
| `DnsMessage.NegativeTtlIs` | src/services/dns_forwarder/worker.rs:809-820 | the negative TTL is the default without an SOA record, else the clamped lesser of the first one's TTL and minimum (section 5 of RFC 2308) |
| `DnsMessage.CacheTtlBounds` | src/services/dns_forwarder/worker.rs:782-807 | exactly which messages are cacheable; at most 3600 s and each answer's TTL; 60 s or 5 to 300 s for negative ones |
| `DnsCache.RemembersAnswers` | src/services/dns_forwarder/worker.rs:782-847 | an answer is remembered for exactly the least TTL of its records, an hour at most, and other keys are not touched |
| `DnsCache.RemembersNegatives` | src/services/dns_forwarder/worker.rs:809-847 | a negative answer for exactly what its first SOA record says within 5 and 300 s, or 60 s without one (section 5 of RFC 2308) |
| `DnsCache.ForgetsOthers` | src/services/dns_forwarder/worker.rs:782-847 | anything truncated, not a response, an error, or with a TTL of zero is not remembered |
| `DnsCache.AnswersAgree` | src/services/dns_forwarder/worker.rs:771-780 | every hit is what the unbounded cache answers; a complete cache misses nothing |
| `DnsCache.InsertRefines` | src/services/dns_forwarder/worker.rs:822-847 | insertion with eviction of the entry that expires first refines remembering in the unbounded cache, within 4096 entries |
| `DnsCache.InsertCompleteIff` | src/services/dns_forwarder/worker.rs:822-847 | a complete cache stays complete exactly if at most 4096 keys are live |
| `DnsCache.InsertLosesOne` | src/services/dns_forwarder/worker.rs:822-847 | an insertion costs at most one unexpired entry, only among 4096, and one that expires no later than any other |
| `DnsCache.DropExpired` | src/services/dns_forwarder/worker.rs:750-753 | dropping expired entries changes no answer, now or later |
| `DnsCache.Oldest` | src/services/dns_forwarder/worker.rs:822-847 | a key with the least expiry |
| `DnsCache.InsertCache` | src/services/dns_forwarder/worker.rs:822-847 | the new cache, with an entry that expires first as the victim if one is needed |
| `DnsCache.AnswerCache.EvictExpired` | src/services/dns_forwarder/worker.rs:750-753 | keeps exactly the live entries and the refinement |
| `DnsCache.AnswerCache.Lookup` | src/services/dns_forwarder/worker.rs:771-780 | a hit is the answer of the unbounded cache; unless more than 4096 keys were ever live, so is a miss |
| `DnsCache.AnswerCache.Insert` | src/services/dns_forwarder/worker.rs:822-847 | follows the unbounded cache within 4096 entries |
| `DnsForwarder.StepIsSized` | src/services/dns_forwarder/worker.rs:436-720 | every event keeps at most 4096 queries under nonzero IDs, each with 1 to 64 clients and at a server of its list, sent to the servers up to there once each in order |
| `DnsForwarder.StepKeepsPlaced` | src/services/dns_forwarder/worker.rs:436-720 | every event keeps every accepted client in the one place the book names |
| `DnsForwarder.StepOnlyAdds` | src/services/dns_forwarder/worker.rs:436-720 | answers and accepted clients are only added, each answer under its client's own ID |
| `DnsForwarder.FinalPlaces` | src/services/dns_forwarder/worker.rs:436-720 | being answered and being dropped are final |
| `DnsForwarder.PlacesByTheTables` | src/services/dns_forwarder/worker.rs:436-720 | the tables themselves show a client exactly where the book has it |
| `DnsForwarder.DroppedOnlyBy` | src/services/dns_forwarder/worker.rs:461-720 | a client is dropped only on arrival at a full table or when sending fails, or when the deadline of its query has passed at the last of its servers |
| `DnsForwarder.StepKeepsAsked` | src/services/dns_forwarder/worker.rs:436-645 | everyone waiting for a query asked for its key |
| `DnsForwarder.NewAnswers` | src/services/dns_forwarder/worker.rs:506-668 | who is answered by an event, with what, and on whose word |
| `DnsForwarder.StepOnQuery` | src/services/dns_forwarder/worker.rs:571-593 | a query that stays in flight stays as due, or moves to the next server with a new deadline |
| `DnsForwarder.StepIsTimely` | src/services/dns_forwarder/worker.rs:697-720 | with sweeps in time, every event keeps every query within the time for the servers it has been at |
| `DnsForwarder.LeavesInTime` | src/services/dns_forwarder/worker.rs:697-720 | a query is never in flight for (number of servers)·(3 s + sweep interval) |
| `DnsForwarder.InvariantInEveryRun` | src/services/dns_forwarder/worker.rs:369-720 | bounds, places and IDs hold in every state of every run |
| `DnsForwarder.EveryClientIsServedOnce` | src/services/dns_forwarder/worker.rs:369-720 | in every run each accepted client is in exactly one of waiting, TCP fallback, answered and dropped, is answered at most once, and under its own transaction ID |
| `DnsForwarder.FinalInEveryRun` | src/services/dns_forwarder/worker.rs:369-720 | once answered or dropped, a client stays so in every run |
| `DnsForwarder.OnlyAddsInEveryRun` | src/services/dns_forwarder/worker.rs:369-720 | no run takes back an answer or a client |
| `DnsForwarder.AskedInEveryRun` | src/services/dns_forwarder/worker.rs:436-504 | in every run clients share a query only if they asked for the same key |
| `DnsForwarder.AnswersAreForTheAsker` | src/services/dns_forwarder/worker.rs:506-668 | in every run an answer goes to a client that asked for the key, and is what came from port 53 of the server the query was at, or over TCP the full reply or else the truncated one |
| `DnsForwarder.TimelyInEveryRun` | src/services/dns_forwarder/worker.rs:697-720 | in every run with sweeps in time, queries are within their time |
| `DnsForwarder.QueriesLeaveInTime` | src/services/dns_forwarder/worker.rs:697-720 | in every such run no query in flight is ever as old as (number of servers)·(3 s + sweep interval) |
| `DnsForwarder.RetainUnexpired` | src/services/dns_forwarder/worker.rs:697-712 | the queries that stay, namely those not due or with a server left, and those among them to be moved on, each once |
| `DnsForwarder.Forwarder.TryJoin` | src/services/dns_forwarder/worker.rs:436-459 | joins a query for the same key exactly if the one found has room |
| `DnsForwarder.Forwarder.Forward` | src/services/dns_forwarder/worker.rs:461-504 | one step of the state machine |
| `DnsForwarder.Forwarder.HandleUpstreamReply` | src/services/dns_forwarder/worker.rs:506-569 | one step of the state machine; the reply is cached under the key of its query exactly if it is delivered |
| `DnsForwarder.Forwarder.FailOverOrDeliver` | src/services/dns_forwarder/worker.rs:551-568 | on to the next server exactly if this one failed and there is one; else cached and delivered |
| `DnsForwarder.Forwarder.TryFailover` | src/services/dns_forwarder/worker.rs:571-593 | moves on exactly if there is a next server |
| `DnsForwarder.Forwarder.FanOut` | src/services/dns_forwarder/worker.rs:595-607 | one answer to each client, in order |
| `DnsForwarder.Forwarder.SpawnTcpFallback` | src/services/dns_forwarder/worker.rs:609-645 | the query becomes a TCP job with the same clients and key, and the truncated reply to fall back on |
| `DnsForwarder.Forwarder.HandleTcpEvent` | src/services/dns_forwarder/worker.rs:647-668 | one step of the state machine; a full reply is cached under the key of the job |
| `DnsForwarder.Forwarder.CheckPendingTimeouts` | src/services/dns_forwarder/worker.rs:697-720 | queries not due stay, those due go to the next server for three seconds, and from the last one away; one step of the state machine |
| `ForwarderSteps.ValidUpstreamOctets` | src/services/utils.rs:54-61 | which resolvers are usable, by their octets |
| `ForwarderSteps.ResolversAre` | src/services/dns_forwarder/worker.rs:849-860 | a configured server is used exactly if it is usable, in its place |
| `ForwarderSteps.FallbackServer` | src/services/dns_forwarder/worker.rs:849-860 | the built-in server is used exactly if no configured one is usable |
| `ForwarderSteps.ArrivalJoins` | src/services/dns_forwarder/worker.rs:436-459 | a query for a key in flight with fewer than 64 clients joins it and changes nothing else |
| `ForwarderSteps.ArrivalIsTurnedAway` | src/services/dns_forwarder/worker.rs:461-475 | else it is dropped if 4096 are in flight or sending fails |
| `ForwarderSteps.ArrivalIsSent` | src/services/dns_forwarder/worker.rs:461-504 | else it is sent to the first usable server, due in three seconds |
| `ForwarderSteps.OtherRepliesAreIgnored` | src/services/dns_forwarder/worker.rs:515-545 | a reply that is too short, unknown, from elsewhere or unreadable changes nothing |
| `ForwarderSteps.TruncatedReplyGoesToTcp` | src/services/dns_forwarder/worker.rs:533-545 | an expected truncated reply makes a TCP job of its query |
| `ForwarderSteps.FailedReplyMovesOn` | src/services/dns_forwarder/worker.rs:551-561 | an expected SERVFAIL or REFUSED moves the query to the next server if there is one |
| `ForwarderSteps.CompleteReplyIsDelivered` | src/services/dns_forwarder/worker.rs:563-607 | any other expected complete reply goes to everyone waiting, under their own IDs and cut only if too large |
| `ForwarderSteps.TcpFallbackAnswers` | src/services/dns_forwarder/worker.rs:647-668 | the end of a TCP job answers everyone it was for, with the full reply or else the truncated one |
| `ForwarderSteps.SweepMovesOn` | src/services/dns_forwarder/worker.rs:697-720 | what a sweep leaves of every query in every state |
| `ForwarderSteps.SweepDrops` | src/services/dns_forwarder/worker.rs:697-720 | everyone waiting for a query due at its last server is dropped |
| `ForwarderSteps.SweepKeepsOthers` | src/services/dns_forwarder/worker.rs:697-720 | and nobody else |
| `DnsWorker.ClientMaxPayload` | src/services/dns_forwarder/worker.rs:722-729 | what the client says, within 512 and 4096 bytes, and 512 if it says nothing |
| `DnsWorker.Worker.HandleIncomingQuery` | src/services/dns_forwarder/worker.rs:369-434 | immediate answers are under the query's own ID, from the tables exactly if they have one, from the cache only as the unbounded cache would answer; forwarded exactly if none answers and the rate limiter grants it, and nothing else touches the queries in flight |

## Left out

- Netlink, raw sockets, BPF, seccomp, chroot, process supervision, storage, watchdog, power button, SNTP, kmsg: foreign calls or plumbing without visible semantics.
- The wire codecs of DNS and DHCP and the IPC encoding: messages are values; of the DNS codec only truncation, which keeps the ID, is modelled.
- TOML and text parsing of addresses, MACs, ports and of the files `modules.dep` and `modules.alias`; loading the modules in the order found.
- The dashboard, statistics, logging and heartbeats: they only report.
- TCP connections of DNS clients and their framing: a TCP client is one that is sent the whole reply.
- Deregistration of host names on expiry: evictions inside allocation and by the timer discard the names they return, so there is no clean relation between leases and names over a run.
- The 16-bit choice of transaction IDs: any unused nonzero ID; that the random draw ends is not claimed.
- The distribution of the jitter of retransmissions: it is arbitrary.
- Floating-point rounding: tokens are real numbers.
- ModuleDeps.LoadOrderIsComplete: within the depth limit only; beyond it what is found depends on the order of the walk, and `CompleteOrderNeeds` gives conditions that are necessary rather than the exact one.
- DhcpServer.ProbeAndAllocate: for clients without a reservation and as long as the holds it records last; a client with a reservation has an address on record and does not get there.
- DhcpServer.HandleDiscover: the offer itself and its broadcast flag are not modelled.
- DhcpServer.HandleRequest: order of the messages to the parent and their transport are not modelled.
- DnsForwarder.LeavesInTime: for runs whose timeout sweeps come at least every second, as the interval timer intends.
