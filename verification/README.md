# GaleLB: verified core

A Dafny model of the parts of the GaleLB load balancer in which correctness is hard to see from any single function:

- **The consistent-hash ring** (`Sorting`, `Labels`, `Ring`, `RingHistory`, `HashSpace`). A slice of virtual-node hashes is searched; a map from hash to node says who owns what. The hash function is an arbitrary parameter. The ring is a class whose methods are proved against value-level functions, and the laws are stated over every sequence of additions and removals.
- **The health-check protocol** (`Registry`, `HealthStream`, `HealthSystem`, `HealthTiming`, `HealthProgress`, `StreamOutcomes`, `NoFalseTimeout`, `MarginExact`, `ClosedStream`). Listener, two one-slot channels, multiplexer, timer and shared registry are a timed transition system. Each step that another goroutine could come between is its own action, so the check, the timer reset and the failure report of one message are three steps. A run is a list of events executed by a total function in which an event that is not possible changes nothing; a statement over all lists is a statement over all interleavings.
- **The node's dispatcher** (`Dispatcher`, `DispatcherLoops`, `DispatcherDrain`). Start calls, Stop calls and report loops interleave over the shared status and context.
- **The address-translation programs** (`Checksum`, `Nat`). Both packet programs over one connection table with arbitrary evictions, with one's-complement checksums (RFC 1071) updated as in section 3 of RFC 1624.

Check everything with `dafny verify dfyconfig.toml`.

## Findings

Where the code does not give a property, the model keeps the code and the exact condition is proved.

- A new ring holds 8192 zero entries that nobody owns. Until the first removal they serve the wrap-around arc, and requests there get the address `0:0` (`RingHistory.PlaceholderServesExactly`), on a new ring all of them (`RingHistory.NewRingServesNobody`). After a removal that leaves nothing, a lookup panics (`RingHistory.PanicsExactlyWhenEmptied`, `RingHistory.RemovalEmptiesNewRing`).
- Addresses that differ only in padding print alike, so they share all virtual hashes; freedom from collisions is therefore asked only of the nodes a history mentions.
- Adding and then removing a node is undone exactly when its hashes were free before (`RingHistory.AddThenRemoveUndoes`; `RingHistory.CollisionLosesAnEntry` has a case where they were not), and additions commute on the map exactly when no two of the nodes share a hash (`RingHistory.AddOrderSameMapExactly`).
- A recoverable receive error is followed by a nil request, which reads as status 0 and counts as a health check. Reported checks are the node's own reports exactly when there was no such error (`HealthSystem.CountsOnlyReportsExactly`). io.EOF is one, so a stream that its node has closed can stay healthy for any length of time although every timer fires when it runs out (`ClosedStream.ClosedStreamStaysHealthy`). The comment at pkg/lbnetwork/nodemanager/node_manager.go:67-68 says that such a node is removed.
- A Stop that falls between the acceptance of a Start and the making of its context does not stop the loops of that Start (`DispatcherDrain.StopSilencesExactly`, `DispatcherDrain.StopCanComeTooEarly`). On the very first Start it calls a nil function (`Dispatcher.StopPanicsExactly`, `Dispatcher.StopPanicsAtFirstStart`).
- A Start that fails on a later target returns while the loops of the earlier ones go on reporting, and Stop is then refused (`DispatcherDrain.LeakedLoopKeepsReporting`). No other returned Start has live loops (`Dispatcher.OnlyFailedStartsLeak`), a failed one leaves at most one loop fewer than it has targets (`DispatcherDrain.LeakBounded`), and such a leak is possible exactly with two targets or more (`DispatcherDrain.LeaksExactly`).
- The egress program writes back the value stored under the reversed tuple. That value is always the tuple's own source, so a rewritten packet leaves with its destination address as its source (`Nat.RewriteReversesAnEntry`). Answers to translated packets are looked up under the translated addresses and find the entry of their request only if the request already had those (`Nat.AnswerFindsEntryExactly`); over whole histories `Nat.AnswersPassUnlessPretranslated` says exactly which answers are changed.

## Model

| member | source | states |
|---|---|---|
| Sorting.OneAscendingOrder | pkg/routing/ring.go:52 | an ascending slice is determined by its multiset, so the sorting algorithm used does not matter |
| Sorting.SortSlice | pkg/routing/ring.go:52 | the loop sorts: the result is ascending and a permutation of the input |
| Sorting.Search | pkg/routing/ring.go:79-81 | the halving search returns the boundary between entries below the hash and the others |
| Sorting.SearchIsScan | pkg/routing/ring.go:79-84 | the fast search with wrap-around finds the entry that the linear scan finds |
| Sorting.Clockwise | pkg/routing/ring.go:79-85 | the scanned entry is the least one not below the hash, or the least of all when there is none |
| Sorting.ClockwiseOfSet | pkg/routing/ring.go:79-85 | which entry is found depends on the set of hashes only, not on order or repetition |
| Labels.AddrTextReadable | pkg/routing/ring.go:88-90 | two addresses print alike exactly when IP and port agree |
| Labels.LabelReadable | pkg/routing/ring.go:44 | two virtual-node labels are the same text exactly for the same IP, port and index |
| Labels.AddrTextExactly | pkg/routing/ring.go:88-90 | a text is an address's text exactly when it is the IP, a colon and the port in decimal without leading zeros, in this order |
| Labels.LabelExactly | pkg/routing/ring.go:44 | a text is a virtual node's label exactly when it is the address text, a dash and the index in decimal |
| Ring.AddedExactly | pkg/routing/ring.go:35-53 | addition, both ways: ascending slice with old entries and new hashes counted, and a map that differs just by the node owning its hashes, collisions overwritten |
| Ring.RemovedExactly | pkg/routing/ring.go:55-72 | removal, both ways: the map loses exactly the node's hashes whoever owned them, and the slice is the strictly ascending list of the keys left |
| Ring.HashRing.constructor | pkg/routing/ring.go:26-33 | a new ring has 8192 zero entries and owns nothing |
| Ring.HashRing.AddNode | pkg/routing/ring.go:35-53 | the append, overwrite and sort loop carries out the addition |
| Ring.HashRing.RemoveNode | pkg/routing/ring.go:55-72 | the delete, rebuild and sort loop carries out the removal, in whatever order the map is ranged over |
| Ring.HashRing.DeleteHashes | pkg/routing/ring.go:60-64 | the delete loop takes away exactly the node's hashes |
| Ring.HashRing.ListKeys | pkg/routing/ring.go:67-70 | ranging over the map lists every key once |
| Ring.HashRing.GetNode | pkg/routing/ring.go:74-86 | the lookup answers with the owner of the clockwise entry, the zero address for an unowned one, and panics on an empty slice |
| Ring.AnswerReads | pkg/routing/ring.go:78-90 | the answer is exactly the text of IP and port of the node that owns the clockwise entry of the request's hash, or of 0 and 0 |
| RingHistory.Drive | pkg/routing/ring.go:35-72 | the object driven by any calls is in the state of the value-level history |
| RingHistory.ReachableAgrees | pkg/routing/ring.go:26-72 | after every history the slice is ascending and lists the map's keys, plus 0 if there was no removal; every owned hash is one of its owner's |
| RingHistory.NodeOwnsItsReplicas | pkg/routing/ring.go:43-49 | a node alone on a ring owns exactly the hashes of the texts "ip:port-i" for i below the number of virtual nodes, and that many exactly when none of them collide |
| RingHistory.AdditionsGrowTheSlice | pkg/routing/ring.go:28-47 | before any removal the slice has 8192 entries plus one for each virtual node of each addition |
| RingHistory.PanicsExactlyWhenEmptied | pkg/routing/ring.go:78-85 | a lookup panics exactly on a ring with a removal behind it and nothing owned |
| RingHistory.PlaceholderServesExactly | pkg/routing/ring.go:28 | exactly which requests are served by a placeholder |
| RingHistory.NewRingServesNobody | pkg/routing/ring.go:26-33 | a new ring answers every request with `0:0` |
| RingHistory.RemovalEmptiesNewRing | pkg/routing/ring.go:55-85 | removing any node from a new ring makes every lookup panic |
| RingHistory.AddDisruptsOnlyTowards | pkg/routing/ring.go:35-86 | after an addition each request goes where it went before or to the added node, and which of the two is told by its new entry; for every state |
| RingHistory.RemoveKeepsExactly | pkg/routing/ring.go:55-86 | a request keeps its entry through a removal exactly when that entry is owned and not one of the removed node's hashes, and then keeps its route |
| RingHistory.RemovedNodeUnreachable | pkg/routing/ring.go:55-86 | after a removal no request is routed to the removed node's address |
| RingHistory.AddThenRemoveUndoes | pkg/routing/ring.go:35-72 | the map is restored exactly when the node's hashes were free; the slice is then strictly ascending and all routes are as before |
| RingHistory.CollisionLosesAnEntry | pkg/routing/ring.go:48-63 | where two nodes share their hash, adding and removing the second takes the first off the ring |
| RingHistory.LiveSetLaw | pkg/routing/ring.go:35-72 | without collisions the map is exactly the virtual hashes of the live nodes, each owned by its node |
| RingHistory.RoutingDependsOnLiveSet | pkg/routing/ring.go:35-86 | two collision-free histories with the same live nodes, both or neither with a removal, route every request alike |
| RingHistory.GrowthDisruptsOnlyTowardsNewcomers | pkg/routing/ring.go:35-86 | over whole histories: if one leaves more nodes alive than another, a request is routed alike by both or goes to a node the smaller ring lacks |
| RingHistory.AddAllIsHistory | pkg/routing/ring.go:35-53 | a list of additions is the history that ends with them |
| RingHistory.AddOrderSameSlice | pkg/routing/ring.go:43-52 | permuted additions give the same slice element for element, collisions or not |
| RingHistory.AddOrderSameMapExactly | pkg/routing/ring.go:43-49 | all orders of the additions give the same map exactly when no two of the nodes share a hash |
| HashSpace.ArcExactly | pkg/routing/ring.go:78-85 | an entry serves exactly the hashes of the arc from its predecessor, with wrap-around |
| HashSpace.ArcSize | pkg/routing/ring.go:78-85 | how many hashes an arc has |
| HashSpace.AttractedIsShare | pkg/routing/ring.go:66-85 | a node attracts as many request hashes as its arcs are long |
| HashSpace.HashSpaceConserved | pkg/routing/ring.go:66-85 | on every reachable ring with a removal and an owner, the nodes' shares add up to exactly 2^32 |
| Registry.NodeRegistry.constructor | pkg/registry/registry.go:34-40 | a new registry is empty |
| Registry.NodeRegistry.RegisterNode | pkg/registry/registry.go:43-50 | a new key gets a zero record, a known one is left alone |
| Registry.NodeRegistry.ReportNewHealthCheck | pkg/registry/registry.go:53-66 | the streak is incremented modulo 2^64 and the time noted, in place; unknown keys change nothing |
| Registry.NodeRegistry.ReportNodeFailure | pkg/registry/registry.go:68-82 | the streak is zeroed in place; unknown keys change nothing |
| Registry.StreakStartMeans | pkg/registry/registry.go:43-82 | the position a streak counts from is the later of first registration and latest failure |
| Registry.StreakMeaning | pkg/registry/registry.go:43-82 | after any calls a key is present exactly if registered, and its streak is the number of its checks since that position, modulo the word |
| Registry.StreakIsCount | pkg/registry/registry.go:43-82 | below 2^64 checks the streak is their number |
| Registry.LastCheckMeaning | pkg/registry/registry.go:64 | the noted time is that of the latest check since registration |
| Registry.KeysKept | pkg/registry/registry.go:43-82 | no call loses a key, touches another key, or changes anything by registering again |
| HealthStream.MessagesByMove | pkg/lbnetwork/nodemanager/node_manager.go:112-159 | every step of either goroutine keeps consumed, buffered and held messages equal, in order, to what was received and not unrecoverable |
| HealthStream.ErrorsByMove | pkg/lbnetwork/nodemanager/node_manager.go:112-168 | the same for the error channel |
| HealthStream.ShapeByMove | pkg/lbnetwork/nodemanager/node_manager.go:98-178 | every step keeps the shape of the calls: registration, one check per countable message, then a failure exactly after a timeout or unrecoverable error |
| HealthStream.CauseByMove | pkg/lbnetwork/nodemanager/node_manager.go:142-168 | the handler leaves on shutdown or an unrecoverable error exactly when it consumes one, as its last item |
| HealthStream.TimerByMove | pkg/lbnetwork/nodemanager/node_manager.go:137-177 | the deadline is the last timer start plus the timeout, checks are not later than that start, and the drain of a spent timer is never reached |
| HealthStream.MultiplexHealthStatus | pkg/lbnetwork/nodemanager/node_manager.go:135-179 | for any resolution of its selects the loop makes the calls, and leaves for the reason, that the stream machine makes and leaves for on the same items (through `HealthSystem.LoopCodeMatchesStream`) |
| HealthStream.LoopByMove | pkg/lbnetwork/nodemanager/node_manager.go:140-178 | every step of the stream machine keeps its handler's calls, deadline and reason equal to those of the loop on the items taken |
| HealthStream.ItemsByMove | pkg/lbnetwork/nodemanager/node_manager.go:140-178 | every step keeps those items equal, in order, to what was consumed |
| HealthStream.ListenerReportHealthStatus | pkg/lbnetwork/nodemanager/node_manager.go:112-130 | the listener stops at the first error 1 or 14 and has sent, in order, what the results it read call for, so each channel got what they put there |
| HealthStream.ErrorJustBeforeNil | pkg/lbnetwork/nodemanager/node_manager.go:124-128 | any other error is sent immediately before its nil request of status 0 and behind all that earlier results call for |
| HealthSystem.ReachableSound | pkg/lbnetwork/nodemanager/node_manager.go:69-179 | in every interleaving of any streams all of the above hold of every stream, and the registry is the replay of the logged calls |
| HealthSystem.LoopCodeMatchesStream | pkg/lbnetwork/nodemanager/node_manager.go:135-179 | over whole runs, in every interleaving, the code's loop on a stream's items gives exactly its calls, its deadline or its reason for leaving |
| HealthSystem.CountedWithinReceived | pkg/lbnetwork/nodemanager/node_manager.go:112-159 | a stream's checks never exceed its countable receive results |
| HealthSystem.CountsOnlyReportsExactly | pkg/lbnetwork/nodemanager/node_manager.go:124-128 | with nothing under way, checks are reports plus recoverable errors, hence the reports exactly if there was no such error |
| HealthSystem.CallsFindTheirKey | pkg/registry/registry.go:57-79 | the two branches for an unknown key are never taken |
| HealthSystem.SystemStreak | pkg/registry/registry.go:43-82 | the meaning of the streak over all interleaved streams |
| HealthSystem.TimeoutMeansSilence | pkg/lbnetwork/nodemanager/node_manager.go:172-176 | a stream left on a timeout counted nothing during the timeout before the tick |
| StreamOutcomes.ConsumedAreReceived | pkg/lbnetwork/nodemanager/node_manager.go:112-168 | in every run the handler has consumed, in order, the requests received and a status 0 for each error but 1 and 14, and is at most two messages and two errors behind |
| StreamOutcomes.ChecksAreServed | pkg/lbnetwork/nodemanager/node_manager.go:141-154 | in every run the checks are the messages consumed with a status other than 1 and 2, but for one due next |
| StreamOutcomes.OutcomeExactly | pkg/lbnetwork/nodemanager/node_manager.go:142-186 | in every run an error ends the stream exactly when its code is 1 or 14, a message exactly when its status is 2, each as the last one consumed; the last call is the failure exactly after an error or a timeout |
| StreamOutcomes.StepsCommute | pkg/lbnetwork/nodemanager/node_manager.go:103-179 | listener and handler never take a step away from each other, and the order of their steps makes no difference, unless the stream ends |
| StreamOutcomes.SelectRace | pkg/lbnetwork/nodemanager/node_manager.go:140-177 | with timers that fire on time a report, error 14 and the tick can be ready at once, and any of them can be taken |
| HealthTiming.SilentStreamEnds | pkg/lbnetwork/nodemanager/node_manager.go:132-177 | with timers that fire on time, a stream that offers nothing countable has ended once the timeout has passed, whatever other streams do and whatever else it sends |
| HealthTiming.UncountedDeadlineIsLoopStart | pkg/lbnetwork/nodemanager/node_manager.go:137-171 | in every run the deadline of a waiting handler that has counted nothing is the start of its loop plus the timeout, unmoved by other messages and errors |
| HealthTiming.DeadlineIsLastReset | pkg/lbnetwork/nodemanager/node_manager.go:137-171 | in every run a waiting handler's deadline is the timer reset of the last message it counted, or else its loop's start, plus the timeout; it is the latest check plus the timeout exactly when no time passed between that check and its reset |
| HealthTiming.DeadlineIsLatestCheck | pkg/lbnetwork/nodemanager/node_manager.go:137-171 | when no time passes between a check of the stream and its timer reset, whatever other streams and timers do, a waiting handler's deadline is its latest counted check, or else its loop's start, plus the timeout |
| HealthProgress.StepUsesWork | pkg/lbnetwork/nodemanager/node_manager.go:98-178 | every step of a stream other than a receive or a tick uses up work; a receive brings at most 7 units, a tick one |
| HealthProgress.ReceivedIsWorkedOff | pkg/lbnetwork/nodemanager/node_manager.go:98-178 | in every continuation of every run a stream takes no more steps by itself than it has work and is brought, and it can always take one until it has ended or has consumed all it received: the two channels never block for good |
| ClosedStream.ClosedStreamStaysHealthy | pkg/lbnetwork/nodemanager/node_manager.go:115-128 | for every n there is a run in which timers fire on time, n checks are counted without a report over n times any span up to the timeout, and the deadline is a full timeout ahead |
| NoFalseTimeout.ReportHealthLoop | pkg/nodenetwork/dispatcher.go:156-187 | the loop sends at once and then half the timeout plus its own time apart, until the context is found cancelled |
| NoFalseTimeout.PeriodIsHalf | pkg/nodenetwork/dispatcher.go:131-132 | the period is half the timeout, rounded toward zero |
| NoFalseTimeout.LoopKeepsTime | pkg/nodenetwork/dispatcher.go:159-184 | a loop whose passes take at most the slack besides the period sends when the end-to-end model lets it and is never overdue there |
| NoFalseTimeout.NeverTimedOut | pkg/nodenetwork/dispatcher.go:131-135 | with slack plus delay below the timeout less its half, and the first report sent a delay before the first deadline, no punctual run of any length fails the stream or even enables its timeout; its reports are half the timeout to that plus the slack apart, and the streak is the number of reports counted |
| MarginExact.MarginIsExact | pkg/nodenetwork/dispatcher.go:15-18 | punctual runs never fail the node exactly when slack plus delay is below the timeout less its half, or the timeout is 1 ns and the loop takes no time |
| MarginExact.PunctualRunsGoOn | pkg/nodenetwork/dispatcher.go:159-185 | for every n there is a punctual run with n reports processed and n periods passed |
| Dispatcher.DispatcherObject.constructor | pkg/nodenetwork/dispatcher.go:49-55 | a new dispatcher is stopped and has no context |
| Dispatcher.DispatcherObject.TryStart | pkg/nodenetwork/dispatcher.go:60-68 | Start is accepted exactly when stopped |
| Dispatcher.DispatcherObject.RenewContext | pkg/nodenetwork/dispatcher.go:79 | the context Start makes is another one than before and is not cancelled, whatever was cancelled earlier |
| Dispatcher.DispatcherObject.Stop | pkg/nodenetwork/dispatcher.go:91-103 | Stop is refused when stopped, panics before the first context, and otherwise cancels the current context and stops |
| Dispatcher.Drive | pkg/nodenetwork/dispatcher.go:49-103 | the object, called as any interleaving calls it, has the fields of that interleaving's state |
| Dispatcher.StopPanicsExactly | pkg/nodenetwork/dispatcher.go:79-99 | in every interleaving Stop calls the nil function exactly when the first Start ever accepted has not made its context |
| Dispatcher.StopPanicsAtFirstStart | pkg/nodenetwork/dispatcher.go:60-99 | such a state is reached by one Start call that has just been accepted |
| Dispatcher.OnlyFailedStartsLeak | pkg/nodenetwork/dispatcher.go:82-139 | a returned Start has live loops only if it returned because a target could not be started |
| Dispatcher.StartsAlternate | pkg/nodenetwork/dispatcher.go:57-103 | in every interleaving two accepted Starts have an accepted Stop or a Start's return between them, and the status tells which came last |
| Dispatcher.ReachableWaits | pkg/nodenetwork/dispatcher.go:134-157 | each wait group counts the live loops of its Start |
| DispatcherLoops.OneLoopPerTarget | pkg/nodenetwork/dispatcher.go:114-139 | in every interleaving a Start has begun a loop for every target but those left while it launches, exactly one for each when it waits or has completed, fewer when a target failed, none when refused |
| DispatcherLoops.LaunchesCanComplete | pkg/nodenetwork/dispatcher.go:114-139 | from every state in which a Start launches it can come to wait with a loop for each target, whatever was stopped meanwhile |
| DispatcherLoops.LooksSendsSleeps | pkg/nodenetwork/dispatcher.go:159-185 | in every interleaving a loop looked at the context before each report and slept after each one before it looked again |
| DispatcherDrain.StopSilencesExactly | pkg/nodenetwork/dispatcher.go:91-187 | after an accepted Stop every loop sends at most one more report in every continuation without a new Start, exactly when no Start was caught before its context was made |
| DispatcherDrain.StopCanComeTooEarly | pkg/nodenetwork/dispatcher.go:67-100 | a Stop can be accepted while a second Start has not made its context |
| DispatcherDrain.LeakedLoopKeepsReporting | pkg/nodenetwork/dispatcher.go:114-135 | after a failed launch the earlier loop can send any number of reports while Stop is refused |
| DispatcherDrain.LeakBounded | pkg/nodenetwork/dispatcher.go:82-139 | in every interleaving a returned Start with live loops failed on a target and has fewer of them than targets |
| DispatcherDrain.LeaksExactly | pkg/nodenetwork/dispatcher.go:82-139 | a Start can return and leave loops running exactly when there are two targets or more |
| DispatcherDrain.InternalStepLowers | pkg/nodenetwork/dispatcher.go:159-187 | once cancelled, every step of a loop or a pending Start uses up work |
| DispatcherDrain.StopDrains | pkg/nodenetwork/dispatcher.go:86-187 | after such a Stop the rest ends within a bounded number of steps, and only with all loops gone, wait groups at zero, Starts returned and the status stopped |
| Checksum.VerifiesExactly | pkg/routing/router.c:80-85 | the folded sum is all ones exactly when the plain sum is a positive multiple of 65535 |
| Checksum.ReplaceResidue | pkg/routing/router.c:81 | the incremental update makes up for the change of the field |
| Checksum.ReplaceVerifiesExactly | pkg/routing/router.c:81-82 | data that verified verify after the replacement exactly when the new data are not all zero |
| Nat.ConnTrack.DnatProg | pkg/routing/router.c:49-88 | the ingress program rewrites and records packets for port 8080 that parse, and leaves all others and the table alone |
| Nat.ConnTrack.SnatProg | pkg/routing/router.c:91-120 | the egress program rewrites the source of packets whose reversal is in the table |
| Nat.IngressExactly | pkg/routing/router.c:29-88 | TCP over IPv4 to port 8080 in a frame of 54 bytes or more leaves from 192.168.0.242 to 192.168.0.112 with checksums that make up for it and nothing else changed; every other packet leaves untouched; this fixes the result |
| Nat.EgressExactly | pkg/routing/router.c:91-120 | with any table, exactly the TCP packets whose reversal is in it get the stored source, with checksums to match; every other packet leaves untouched |
| Nat.Drive | pkg/routing/router.c:49-120 | the table object, called as any traffic with evictions calls it, holds the table of that history, and every packet leaves as `IngressExactly` and `EgressHistoryExactly` say |
| Nat.ChecksumsSurvive | pkg/routing/router.c:74-117 | both checksums of a packet that verifies still verify after either program, with any table |
| Nat.EntryExactly | pkg/routing/router.c:57-71 | over any traffic a tuple is in the table exactly when a forwarded packet with it entered and it was not evicted since |
| Nat.EntriesAreTheirOwnSource | pkg/routing/router.c:57-71 | over any traffic and evictions every entry was made by an ingress packet, is TCP to port 8080, and holds its own source |
| Nat.RewritesExactly | pkg/routing/router.c:100-109 | a packet is rewritten exactly when it parses and its exact reversal entered before and was not evicted since |
| Nat.EgressHistoryExactly | pkg/routing/router.c:49-120 | after any traffic a packet leaves the egress program with its destination as its source exactly when a packet in the opposite direction entered and was not evicted since, and untouched otherwise |
| Nat.RewriteReversesAnEntry | pkg/routing/router.c:100-114 | what is written is the source of the packet that made the entry, which is the rewritten packet's own destination |
| Nat.AnswerFindsEntryExactly | pkg/routing/router.c:61-109 | an answer finds the entry of its request exactly when the request had the translated addresses already |
| Nat.AnswersPassUnlessPretranslated | pkg/routing/router.c:61-114 | over every history an answer is changed exactly when it parses and a packet already addressed from balancer to backend with its ports entered and was not evicted since |

## Left out

- CRC-32: the hash function is a parameter, and collision-freedom is a hypothesis where it is needed.
- Locks of the ring and the registry: each locked operation is one step.
- Bytes: request keys and labels are texts; labels are ASCII, so this is the byte form.
- The sorting and searching code of the Go library: insertion sort stands for `sort.Slice`; `OneAscendingOrder` says why no other result is possible.
- `Pad` of an address is kept but, as in the code, never printed.
- Extraction of the peer address and ARP lookup: the handler may fail before registration for any reason, or succeed.
- What the listener does after the handler has returned and closed the channels.
- Clocks: time is an unbounded integer of nanoseconds, and a run starts at 0. Overflow of 64-bit durations is not modelled.
- HealthTiming.SilentStreamEnds: asks for a non-negative timeout; a negative one has expired before it starts.
- NoFalseTimeout.NeverTimedOut: asks that no other connection uses the node's key, which the registry's comments take for granted.
- Overlapping Starts beyond what `StartsAlternate` and `StopSilencesExactly` say.
- `blackList`, `ChecksBeforeRouting` and `BlackListAfterFails`: no code acts on them.
- The frame offsets given to the checksum helpers, byte order, IP options in front of the TCP header, and kernel-side handling of partial checksums: checksums are fields of the packet.
- The size limit and replacement order of the connection table: any entries may be evicted at any time.
- eBPF loading, gRPC and HTTP plumbing, mDNS, ARP and ICMP helpers, configuration, deployment.
