# Neo: equivalence classes, forwarding and emulation

Neo is an explicit-state network verifier. It explores how packets of concurrent connections move
through routers, whose routing tables are known, and middleboxes, which are emulated. Its results
rest on arguments about data structures and step machines, which this project states and proves:

* **Equivalence classes and FIBs** (`Addressing`, `Routing`, `RouteSelection`, `RouteOrder`,
  `EcRanges`, `EcRequests`, `EqClasses`, `NextHops`, `Dataplane`, `FibUpdates`, `Exactness`). The
  manager refines an ordered set of disjoint address ranges with every network and interface address.
  Next hops are then resolved for one representative address per class. The central theorem is
  `Exactness.RepresentativeIsExact`: the representative's next hops are those of every address of the
  class, at every node and with any number of Openflow updates installed.
  `FibUpdates.PatchIsAlwaysExact` says for every update when patching the FIB amounts to building it
  again.
* **Forwarding and scheduling** (`Forwarding`, `StepEffects`, `Scheduler`, `Plankton`, `Network`,
  `TwoHosts`). A connection is a step machine with nondeterministic choices. `Scheduler.RunSafe` and
  `Scheduler.StopsWhenFinished` are about all runs; `Scheduler.FixedOrderIsComplete` shows that
  exploring connections in one fixed order loses no outcome of any interleaving and adds none.
  `Network.InitialEcsExplore` and `Network.ForwardingIsExact` join both parts: what the explorer
  assumes holds after the initial computation of the classes. In `Plankton` the handlers update the
  state vector in place; each is proved against its function in `Forwarding` or `Scheduler`, and the
  theorems about all runs reach the code through `Plankton.Explorer.ExecStep` and
  `Plankton.Explorer.Explore`.
* **Emulation history** (`ConcretePackets`, `PacketHistories`, `Emulations`, `Masking`,
  `EmulationPool`, `Injection`). Histories are shared lists; devices are deterministic machines brought
  to a history by replay. The pool's index, the walk for the longest indexed prefix, the effect of any
  sequence of injections on the claim "the device is the replay of its recorded history", and the
  masking of sequence numbers and ports are covered.
* **TCP phases** (`Protocols`, `TcpSessions`, `TcpFlags`, `Segments`): sequence numbers of whole
  sessions, flags and states, reassembly.
* **Enumerators and route synthesis** (`ConnMatrix`, `ShortestPaths`, `RouteSynthesis`, `L2Lans`).

`Sequences` and `Options` are shared by these, and `Departures` holds the inputs at which the code
does not do what it is for.

Code that changes state step by step is a class or a method with loops, proved against a function of
the old state; the theorems are about these functions. Pointers to classes, packets and histories
are addresses (natural numbers, 0 for null) and nodes are names, so that an object's identity is kept
but not its place in memory. A failed assertion, an exception, a null pointer that is followed and an
effect C++ leaves undefined are results (`None` or `false`), not preconditions. Assertions count as
executed: CMakeLists.txt builds with them.

Departures of the code from what it is meant to do are kept and proved:

* An addition whose range ends at 255.255.255.255 and is already labelled throughout leaves a class
  without addresses (`EqClasses.AdditionPhantoms`, `Departures.AddDefaultTwice`); the table of all
  ranges stays correct.
* The duplicate test of routes is not symmetric, so insertion order can matter
  (`RouteOrder.OrderFreeIffAllVisible`, `RouteOrder.OrderMatters`).
* A patched FIB can differ from the rebuilt one. The exact condition is `Dataplane.PatchIsLocal` for
  one node and `FibUpdates.PatchIsAlwaysExact` for the tables; `FibUpdates.PatchedIsRebuilt` is a
  check for callers. There are three causes, one input each: an update that is not relevant to the
  class is patched in all the same (`Departures.IrrelevantUpdateRedirects`), earlier updates are
  replayed by insert (`Departures.FartherUpdateIsForgotten`; `Dataplane.InsertEqualsUpdate` says when
  one insert is an update, `Departures.InsertIsNotUpdate` that it need not be), and new hops are
  written even when there are none (`Departures.UnconnectedUpdateLosesHops`).
* Asking the pool for a history that precedes the indexed one steps below the first element
  (`EmulationPool.FindNearest`, `EmulationPool.EmulationMgr.GetEmulation`); going back to the empty
  history always does (`Departures.GoBackToStart`).
* A cached injection result advances the record but not the device (`Injection.OnlyOnceKeepsSync`,
  `Injection.StaleAfterCachedAnswer`).
* A dropped first packet is left in the mode for its first hop, so the scheduler drops its connection
  later (`Forwarding.DoFirstCollect`, `Scheduler.Settled`).
* Reassembly fails on neighbouring packets of one flow that are not TCP (`Segments.FailsExactly`,
  `Departures.ReassembleUdp`).
* Answers can miss the connection of the device they are for. `Masking.AnswerIsUnmasked` and
  `Masking.AnswerDependsOnLast` say exactly when they do not; `Masking.AnswerReachesDevice` is a check
  for callers. Offsets are kept per remote endpoint although the comment in src/emu-pkt-key.hpp says
  that this identifies a connection, so another connection to the endpoint replaces them
  (`Departures.SecondConnectionTakesAnswer`), or leaves the port offset behind
  (`Departures.SecondConnectionMissesPort`); and masking ends at the first packet that a comment says
  is skipped (`Departures.ForwardedPacketEndsMasking`).
* An installed update does not reach the FIBs of other connections (`FibUpdates.OthersAlwaysStayExact`,
  `FibUpdates.OtherStaysExact`, `Departures.OtherConnectionIsStale`).
* LANs are compared by their tables, which are empty for unconnected interfaces
  (`L2Lans.EqualTables`, `Departures.CompareUnplugged`).

## Model

| member | source | states |
|---|---|---|
| Addressing.LowBitsAreRemainder | src/lib/ip.hpp:232-245 | the constructors' check that no host bit is set means that the address is a multiple of the network's size |
| Addressing.LastInRange | src/lib/ip.hpp:270-285 | a valid network ends inside the 32-bit address space, at its broadcast address |
| Addressing.NetworkOfMember | src/lib/ip.hpp:204-208 | masking any member of a network with the network's prefix length gives that network back |
| Addressing.SamePrefixSameNetwork | src/lib/ip.hpp:232-285 | two networks of one prefix length that share an address are equal |
| Addressing.NetworkOf | src/lib/ip.hpp:204-245 | the masked address is a valid network that contains the address |
| Routing.EqualRange | src/routingtable.cpp:14-16 | in a sorted table the equivalent routes are exactly the routes to the same network, between the two bounds |
| Routing.TableOrder | src/route.cpp:74-81 | a table is sorted exactly when longer prefixes come first and, of one length, lower addresses |
| Routing.InsertKeepsSorted | src/routingtable.cpp:14-58 | both insert and update keep the table sorted, longer prefixes first |
| Routing.RoutingTable.Insert | src/routingtable.cpp:14-30 | the loop over the equal range computes the insertion function: ignored, replacing, duplicate or added |
| Routing.RoutingTable.Update | src/routingtable.cpp:50-53 | all routes to the network are replaced by the new one |
| Routing.RoutingTable.LookupAddr | src/routingtable.cpp:92-100 | the returned bounds delimit exactly the routes of the lookup function, or are both at the end |
| Routing.LookupIsLongestMatch | src/routingtable.cpp:92-100 | a route is looked up exactly when it is in the table, contains the address and no containing network is longer (section 5.2.4.3 of RFC 1812) |
| Routing.LookupOneNetwork | src/routingtable.cpp:92-100 | all routes of one lookup have the same network |
| Routing.LookupUnseparated | src/routingtable.cpp:92-100 | addresses that no network of the table separates look up the same routes |
| RouteSelection.BestIsLeast | src/routingtable.cpp:17-20 | a best route is an offered one no route to its network beats in administrative distance |
| RouteSelection.EntryIsBest | src/routingtable.cpp:14-30 | after any sequence of insertions every entry is a best offered route |
| RouteSelection.BestHasEntry | src/routingtable.cpp:14-30 | and every best offered route has an entry that it is a duplicate of |
| RouteSelection.BuiltWithoutRepeats | src/routingtable.cpp:22-26 | no later entry is a duplicate of an earlier one |
| RouteOrder.SamePathOrShadow | src/route.cpp:42-48 | the duplicate test is equality of paths, or a next-hop route shadowing a connected one; it is symmetric exactly when neither shadows the other |
| RouteOrder.UnmixedIsVisible | src/route.cpp:42-48 | nothing is shadowed at a network whose routes are all connected or all next-hop routes |
| RouteOrder.VisiblePathsKept | src/routingtable.cpp:14-30 | when no best path is hidden the table holds exactly the best paths of the network |
| RouteOrder.OrderFreeIffAllVisible | src/route.cpp:42-48 | the paths kept for a network are independent of insertion order if and only if no best path is offered by shadowed routes only |
| RouteOrder.OrderMatters | src/route.cpp:42-48 | a connected and a next-hop route to one network, inserted in both orders, give different tables |
| EcRanges.InsertLabels | src/ecrange.cpp:39-61 | inserting a range into the overlap-ordered set relabels exactly its addresses, and does nothing when it overlaps a member |
| EcRanges.EraseLabels | src/ecrange.cpp:39-61 | erasing a range removes the labels of every overlapped member and no others |
| EcRanges.LabelSource | src/ecrange.cpp:27-36 | a labelled address lies in a member range with that label |
| EcRanges.EqClass.AddRange | src/eqclass.cpp:16-18 | a range enters the class's set exactly when it overlaps no member; all members stay, and the set stays ordered and free of overlaps |
| EcRanges.EqClass.RmRange | src/eqclass.cpp:20-23 | the loop that erases until nothing is erased leaves exactly the members that do not overlap the range, in order |
| EcRanges.EqClass.ContainsAddr | src/eqclass.cpp:25-32 | found exactly when some range of the class contains the address |
| EcRanges.RepresentativeIsLeast | src/eqclass.cpp:34-36 | the representative is an address of the class, and the least one |
| EcRequests.RangeOf | src/ecrange.cpp:7-9 | the range of a network contains exactly the network's addresses |
| EcRequests.InitialOwned | src/eqclassmgr.cpp:131-157 | the owned ranges of the initial computation are single addresses, and the addresses they hold are exactly the interface addresses |
| EcRequests.InitialMembers | src/eqclassmgr.cpp:131-157 | what the initial computation adds is exactly: every interface address, owned; every address of a middlebox's configuration; every network of a route, an update or such a configuration |
| EcRequests.InitialMeaning | src/eqclassmgr.cpp:131-157 | so an address is covered when it is such an address or in such a network, and two are told apart when one of these does |
| EqClasses.EqClassMgr.constructor | src/eqclassmgr.cpp:9-32 | the empty manager is valid, and exact for nothing added |
| EqClasses.EqClassMgr.Find | src/eqclassmgr.cpp:172-173 | finds an overlapping range exactly when there is one |
| EqClasses.EqClassMgr.GetOverlappedEcs | src/eqclassmgr.cpp:169-189 | the two scans from the found range return the labels of all overlapping ranges, or the owned ones |
| EqClasses.OverlapLabelsMembers | src/eqclassmgr.cpp:169-189 | a label is among the overlap labels exactly when some overlapping range carries it |
| EqClasses.OverlapsAreAdjacent | src/eqclassmgr.cpp:174-186 | ranges outside the two scans do not overlap, so scanning neighbours equals filtering all ranges |
| EqClasses.EqClassMgr.FindEc | src/eqclassmgr.cpp:191-198 | the label of the address, or the failure value when it has none |
| EqClasses.EqClassMgr.CutRange | src/eqclassmgr.cpp:41-62 | one overlapped range is cut at both ends and its middle moves to the new class, in the table and in both classes' own ranges |
| EqClasses.EqClassMgr.SplitIntersectedEc | src/eqclassmgr.cpp:34-71 | exactly the class's addresses inside the range move to a new, non-empty class; ownership is inherited |
| EqClasses.EqClassMgr.AddNonOverlappedEc | src/eqclassmgr.cpp:73-104 | exactly the unlabelled addresses of the range become one new class; nothing already labelled changes |
| EqClasses.FillWrapped | src/eqclassmgr.cpp:87-94 | what the last insertion does once the lower bound wrapped to zero |
| EqClasses.InsertRefused | src/eqclassmgr.cpp:89-94 | after the wrap the insertion into the table of all ranges is refused because the range overlaps |
| EqClasses.AdditionPhantoms | src/eqclassmgr.cpp:87-103 | an addition leaves a class without addresses if and only if the range ends at 255.255.255.255 and is labelled throughout |
| Departures.AddDefaultTwice | src/eqclassmgr.cpp:87-103 | two default routes are enough to leave such a class |
| EqClasses.AdditionRefines | src/eqclassmgr.cpp:106-121 | after an addition two addresses share a class exactly when they did before, or were both new, and the range does not separate them |
| EqClasses.ExactStep | src/eqclassmgr.cpp:106-121 | one addition keeps: classes are the coarsest partition of everything added, ownership is exact |
| EqClasses.EqClassMgr.AddEc | src/eqclassmgr.cpp:106-121 | an addition keeps the invariants (sorted disjoint ranges, each class's ranges equal to those labelled with it, labelled addresses equal to the added ones), keeps exactness, keeps every owned address in its class when only single addresses are owned, and says exactly when a phantom class appears |
| EqClasses.OwnedNeverSplit | src/eqclassmgr.cpp:34-121 | when the owned ranges added so far are single addresses, no further addition takes an owned address out of its class or the class from its owner |
| EqClasses.CoveredIffLabelled | src/eqclassmgr.cpp:106-121 | an address has a class exactly when some added range contains it |
| EqClasses.EqClassMgr.ComputeInitialEcs | src/eqclassmgr.cpp:131-157 | from the empty manager an address has a class exactly when it is an interface or middlebox address or in a network of a route, an update or a middlebox, two such addresses share one exactly when they agree on all of these, and the owned classes are exactly those of interface addresses; from any state what is listed is added and the result is exact for it |
| EqClasses.InitialClasses | src/eqclassmgr.cpp:131-157 | any table exact for the initial requests has these classes |
| Exactness.PartitionIgnoresOrder | src/eqclassmgr.cpp:34-121 | two tables built from the same requests, in any order and multiplicity, induce the same classes |
| Exactness.AddedNetworkNeverSplits | src/route.cpp:50-72 | an added network contains all ranges of a class or none, so the split error is never raised for it |
| Exactness.AddedAddressIsAlone | src/eqclassmgr.cpp:127-129 | the class of an added address holds no other address |
| Exactness.OwnedClassesAreSingletons | src/eqclassmgr.cpp:131-136 | after the initial computation and any further additions that are not owned, an address is in an owned class exactly when it is an interface address, and that class holds nothing else |
| Exactness.InitialEcsAnnounce | src/eqclassmgr.cpp:131-157 | after the initial computation every network and interface address of the configuration has been added, whatever else is added |
| Exactness.SameClassUnseparated | src/eqclassmgr.cpp:131-157 | no node tells two addresses of a class apart, in its table or a table with updates |
| Exactness.RepresentativeIsExact | src/model-access.cpp:308-324 | at every node, with its own table, with any number of updates installed and with one more being installed, every address of a class resolves to the next hops of its representative |
| Exactness.AnnouncedIsUnsplit | src/route.cpp:50-72 | no update splits a class of an announced configuration |
| NextHops.GetIpnhs | src/node.cpp:161-196 | the recursion with the shared visited set terminates, on cyclic next hops as well, and leaves every met address looked up and its direct hops collected |
| NextHops.ResolvedIsExact | src/node.cpp:161-196 | started with nothing looked up, what is collected is the set of all next hops |
| NextHops.GetIpnhsOf | src/node.cpp:161-196 | the result is exactly the direct next hops of all addresses met by recursive lookups |
| NextHops.IpnhsAreNextHops | src/node.cpp:161-215 | that set equals the inductive definition: a direct hop of an address reachable through non-connected routes |
| NextHops.MatchesDecide | src/node.cpp:174-215 | the direct hops of an address are, for each connected longest match, the node itself for its own addresses, else the peer or the endpoint of the LAN that has the address; the non-connected ones give the addresses looked up next |
| NextHops.AlikeAddressesSameHops | src/node.cpp:161-215 | addresses separated neither by a network of the table nor as known addresses have the same next hops |
| Dataplane.RelevantToEc | src/route.cpp:50-72 | the two-flag loop fails exactly when the network holds some ranges of the class but not all, and otherwise answers whether it holds them |
| Dataplane.SplitMeaning | src/route.cpp:50-72 | by addresses: the error is raised exactly when the network holds all of some range of the class and misses an address of the class; without it, relevant means that it holds the whole class |
| Dataplane.Dataplane.UpdateFib | src/model-access.cpp:308-324 | the two loops build the FIB of the active connection's class with the installed updates; other connections keep theirs |
| Dataplane.FibEntry | src/model-access.cpp:308-324 | every node has an entry, empty for a middlebox whatever is installed, and for another node without updates the next hops of the class's first address |
| Dataplane.Dataplane.InstalledUpdatesOf | src/process/openflow.cpp:64-93 | the next hops of one node after replaying its installed, relevant updates |
| Dataplane.Dataplane.HasUpdates | src/process/openflow.cpp:95-111 | there are more updates exactly when fewer are installed than exist for the node |
| Dataplane.Dataplane.InstallUpdate | src/process/openflow.cpp:137-194 | choice 0 changes only the choice count; otherwise one more update is counted for the whole network and this node's entry is patched in the active connection's FIB only; of the FIBs that were up to date, the active one still is if and only if what was written is due, another one's if and only if the same is due at the node as before |
| Dataplane.PatchIsLocal | src/process/openflow.cpp:137-194 | any update, relevant or not, turns an up-to-date FIB into the rebuilt one if and only if the hops it writes for its node are those due there: the hops by the replayed table, or those of the table alone where that gives none |
| FibUpdates.HopsDependOnExits | src/node.cpp:161-215 | two tables give the same next hops at every node if and only if they have the same exits: connected routes met from the address, each with the address it was met at |
| FibUpdates.PatchIsAlwaysExact | src/process/openflow.cpp:137-194 | for every update, a condition on three tables alone: the patched FIB is the rebuilt one wherever the node is connected if and only if patched and replayed table have the same exits, among them the node's own; or the replayed table has none and the patched one the node's own |
| FibUpdates.UntouchedExits | src/process/openflow.cpp:181 | an update to a network that decides no lookup met from the representative changes no exit |
| FibUpdates.PatchedIsRebuilt | src/process/openflow.cpp:166-194 | a check before the call: when both replays of the earlier updates agree and the update is relevant or decides no lookup met, the patched FIB is the rebuilt one if and only if the new hops are non-empty or the table alone gives none |
| Departures.IrrelevantUpdateRedirects | src/process/openflow.cpp:173-181 | an update not relevant to the class redirects a recursive lookup when patched in; the rebuilt FIB ignores it |
| Departures.FartherUpdateIsForgotten | src/process/openflow.cpp:173-181 | an earlier update farther away than the held route is lost when replayed by insert; the rebuilt FIB uses it |
| Departures.UnconnectedUpdateLosesHops | src/process/openflow.cpp:183-189 | an update toward an interface without a peer leaves no next hop; the rebuilt FIB falls back on the routing table |
| Departures.InsertIsNotUpdate | src/process/openflow.cpp:77-81 | one route and one update of which insert keeps the first and update the second |
| FibUpdates.OthersAlwaysStayExact | src/process/openflow.cpp:152-193 | for every update, the FIB of another connection's class stays up to date wherever the node is connected if and only if the replayed tables before and after the update have the same exits, or one has none and the other the exits of the node's own table |
| FibUpdates.OtherStaysExact | src/process/openflow.cpp:152-193 | a check for callers: the update is not relevant to the other class, or decides no lookup met from its representative |
| Departures.OtherConnectionIsStale | src/process/openflow.cpp:152-193 | an update relevant to another connection's class leaves that connection's FIB behind what is due |
| Dataplane.NewNetworksReplayAlike | src/process/openflow.cpp:77-81 | replaying earlier updates with insert or with update gives the same table when their networks are new to it and distinct |
| Dataplane.InsertEqualsUpdate | src/process/openflow.cpp:173-180 | inserting one update equals updating exactly when its network is new, the held routes are farther, or it is the only route held already |
| Forwarding.CollectSafe | src/process/forwarding.cpp:99-133 | collecting succeeds, drops exactly when there is no hop, and otherwise leaves sound candidates and their number as choice count |
| Forwarding.SourceSafe | src/process/forwarding.cpp:69-94 | the source address chosen from the egress or loopback interface exists and has a class |
| Forwarding.ForwardSafe | src/process/forwarding.cpp:142-201 | no choice is recorded twice, no candidate is out of range, and the invariant holds after the hop |
| Forwarding.AcceptedSafe | src/process/forwarding.cpp:203-324 | the phase change succeeds and starts the next packet, or ends the connection at its last one |
| Forwarding.StepSafe | src/process/forwarding.cpp:35-62 | every choice below the choice count executes without failure and re-establishes invariant and choice count |
| Forwarding.LocalRunKeepsInv | src/process/forwarding.cpp:35-62 | the invariant holds along every run of a connection |
| Forwarding.SameHopAgain | src/process/forwarding.cpp:121-152 | whenever a connection forwards again at a node toward the same class, after any steps, it takes the same hop |
| StepEffects.CandidatesOffered | src/process/forwarding.cpp:116-132 | on offer are all next hops, or only the remembered one while it is one of several |
| StepEffects.DropEffect | src/process/forwarding.cpp:64-67 | without a next hop the connection stops, dropped, or at its first node in the mode for the first hop; nothing else changes |
| StepEffects.FirstCandidates | src/process/forwarding.cpp:64-67 | collecting leaves the candidates and their number, in the mode for the first hop at the first node; a packet at a middlebox is not looked up |
| StepEffects.HopEffect | src/process/forwarding.cpp:142-201 | when a hop cannot be taken, and for a hop taken the new mode, place, ingress interface, executable value, receiving node and remembered choice; nothing else changes |
| StepEffects.SourceGiven | src/process/forwarding.cpp:69-97 | the first packet without a source address gets the one of its egress interface, or of the loopback interface when it stays at its node; any other packet keeps its own |
| StepEffects.TurnEffect | src/process/forwarding.cpp:259-324 | an answer leaves from where the packet arrived: ports and numbers exchanged, to the class of the old source address, from the representative of the old class, with that class's FIB and payload; it fails exactly when the source address has no class |
| StepEffects.StayEffect | src/process/forwarding.cpp:259-324 | the next packet of the same sender starts at its first node again, between the same endpoints, further by what was delivered |
| StepEffects.StopEffect | src/process/forwarding.cpp:203-270 | after the last packet, or when a middlebox would send the next one, the connection only stops being executable; an unknown state is an error |
| Network.HopShape | src/node.cpp:177-215 | every next hop is the node itself or crosses a connected link to an L3 interface |
| Network.ExploredIsSound | src/model-access.cpp:308-324 | what the forwarding proofs assume of a network follows from the classes and FIBs computed for a configuration |
| Network.InitialEcsExplore | src/eqclassmgr.cpp:131-157 | for any configuration of modelled nodes whose links stay inside it, with any updates installed, the manager after the initial computation and the FIBs built for its classes make an environment of which the forwarding proofs' assumptions hold |
| TwoHosts.Explore | src/eqclassmgr.cpp:131-157 | for two hosts with one link: the classes are those expected, the FIB of one host's address leads the other to it, and all assumptions of the forwarding proofs hold |
| Network.RebuiltIsExact | src/model-access.cpp:308-324 | the FIB of a class gives at every node, with any updates installed, the next hops of every single address of the class |
| Network.ForwardingIsExact | src/process/forwarding.cpp:99-201 | every hop taken toward a class is, with the updates installed, a next hop of every single address of the class at that node, all of them are on offer until a choice was made, and the packet moves to the hop's node, accepted exactly when it is there already |
| Scheduler.Group | src/process/choose_conn.cpp:11-29 | the listed indices are exactly the unfinished connections of the group, increasing |
| Scheduler.InitialisedInv | src/plankton.cpp:388-406 | the initial state satisfies the invariant |
| Scheduler.ForwardStepInv | src/plankton.cpp:426-495 | a forwarding step with a legal choice succeeds and keeps the system invariant |
| Scheduler.ChooseStepInv | src/process/choose_conn.cpp:52-94 | a scheduling step with a legal choice succeeds and keeps the system invariant |
| Scheduler.EnteringByRank | src/process/choose_conn.cpp:52-94 | when connections are about to enter a middlebox and none goes on before them, there is one choice for each; choice k activates the one with k such connections before it, sets its executable value to 2 and changes no other connection; any larger choice is undefined |
| Scheduler.ChoiceEnters | src/process/choose_conn.cpp:31-43 | and every choice below their number activates one of them |
| Scheduler.RankIsUnique | src/process/choose_conn.cpp:11-29 | different connections have different ranks, in their order |
| Scheduler.ExecutableFirst | src/process/choose_conn.cpp:61-64 | an executable connection not about to enter goes first, the least one and unchanged, by the only choice |
| Scheduler.MissingIsDropped | src/process/choose_conn.cpp:69-85 | when none is executable the least one that waits for a packet is dropped by the only choice; when none waits there is no choice and a step is an error |
| Scheduler.RunSafe | src/plankton.cpp:426-495 | every step of every legal run succeeds |
| Scheduler.StopsWhenFinished | src/process/choose_conn.cpp:39-49 | the choice count is 0 exactly when every connection is dropped or has accepted its last packet |
| Scheduler.StepHands | src/plankton.cpp:426-495 | a step is the running process's on the active connection; afterwards forwarding runs exactly when the active connection is executable and not about to enter a middlebox, else the scheduler, with its own number of choices |
| Scheduler.RunHands | src/plankton.cpp:455-495 | which of the two runs follows from the active connection at every point of every run, with middleboxes as well |
| Scheduler.RunIsLocalRuns | src/process/forwarding.cpp:35-62 | a free interleaving succeeds exactly when each connection's own choices do, and ends each where it ends alone |
| Scheduler.InterleavingIrrelevant | src/process/choose_conn.cpp:52-66 | schedules with the same choices per connection have the same outcome |
| Scheduler.Serialise | src/process/choose_conn.cpp:52-86 | any halting interleaving is matched by a legal run in the fixed order |
| Scheduler.Interleave | src/process/choose_conn.cpp:52-86 | any legal run in the fixed order is matched by an interleaving |
| Scheduler.FixedOrderIsComplete | src/process/choose_conn.cpp:52-86 | the fixed order reaches exactly the outcomes of all interleavings |
| Plankton.Explorer.constructor | src/plankton.cpp:388-406 | the state vector before the first step, which is safe |
| Plankton.Explorer.ExecStep | src/plankton.cpp:426-447 | one step, in place over all handlers, is the step function of the run theorems; in a safe state any choice below the choice count succeeds and leaves a safe state |
| Plankton.Explorer.Ended | src/process/choose_conn.cpp:31-50 | no choice is left exactly when every connection is dropped or has accepted its last packet |
| Plankton.Explorer.Explore | src/network.pml:78-90 | a path of the exploration loop: from a safe state no step fails, the path is a legal run of the step function, and when it stops for lack of choices all connections have finished |
| PacketHistories.UniqueStorage.StorePacket | src/unique-storage.cpp:99-106 | equal packets are stored once |
| PacketHistories.UniqueStorage.StoreHistory | src/unique-storage.cpp:108-115 | equal histories are stored once, the new history extends the past by one packet, and no stored history changes |
| PacketHistories.SameObjectSamePackets | src/unique-storage.cpp:108-115 | two stored histories are the same object exactly when they hold the same packets |
| PacketHistories.GetPackets | src/pkt-hist.cpp:9-15 | the walk to the empty history returns the packets oldest first |
| PacketHistories.GetPacketsSince | src/pkt-hist.cpp:17-25 | the packets after a prefix, or all packets when the start is not a prefix |
| PacketHistories.Contains | src/pkt-hist.cpp:27-33 | the pointer walk is the prefix test on packet sequences |
| PacketHistories.Less | src/pkt-hist.cpp:86-107 | the comparator is lexicographic order, a proper prefix first |
| PacketHistories.ComparatorIsStrictTotal | src/pkt-hist.cpp:86-107 | it is a strict total order on stored histories |
| PacketHistories.BeforeAt | src/pkt-hist.cpp:99-106 | after a common prefix the first difference or the shorter length decides |
| Emulations.Emulation.Init | src/emulation.cpp:242-253 | a launched emulation has no offsets, no history and the device's initial state |
| Emulations.Emulation.ApplyOffsets | src/emulation.cpp:160-188 | acknowledgement number and destination port are shifted for packets to the device only |
| Emulations.Emulation.UpdateOffsets | src/emulation.cpp:190-233 | the loop masks packets up to the first that is not TCP or not from the device |
| Masking.AnswerIsUnmasked | src/emulation.cpp:160-233 | an answer to packet i of a batch, given after the whole batch and any later batches, carries the number the device expects if and only if the sequence offset of the endpoint is then what was subtracted from the packet, and the port if and only if the port offset is; nothing was subtracted from a packet behind one that is not TCP or not the device's |
| Masking.AnswerDependsOnLast | src/emulation.cpp:190-233 | the same in terms of packets: if and only if, of the packets reached since, the last that sets the endpoint's offset sets it to what was subtracted, or none does and it still is |
| Masking.SeenOfAnswer | src/emulation.cpp:190-233 | what the model sees of a device's packet: number and port less what was taken, so 0 and port 49152 for a SYN from a dynamic port that was reached; unchanged when it was not reached |
| Masking.AnswerReachesDevice | src/emulation.cpp:190-233 | a check for callers: nothing ahead in the batch ends the loop, the packet opens or accepts a connection and replaces the port offset if there is one, and no other SYN or SYN/ACK to the endpoint is reached since; then number and port are right |
| Masking.OffsetsOfReplay | src/emulation.cpp:310-320 | between two resets the offsets are those after the batches the device has sent, replayed packets included |
| Departures.SecondConnectionTakesAnswer | src/emulation.cpp:190-233 | two connections to one endpoint from two dynamic ports: the answer to the first gets number and port of the second |
| Departures.ForwardedPacketEndsMasking | src/emulation.cpp:190-201 | a packet of another host ahead in the batch: the device's own packet is not masked, its answer is shifted all the same |
| Departures.SecondConnectionMissesPort | src/emulation.cpp:218-223 | a connection from a dynamic port and one from a well-known port to the same endpoint: the answer to the second reaches another port |
| Emulations.Emulation.SendPkt | src/emulation.cpp:336-420 | one device step between unmasking and masking |
| Emulations.SameObjectSameHistory | src/emulation.cpp:278-284 | comparing history pointers compares the packets they stand for |
| Emulations.Emulation.Rewind | src/emulation.cpp:278-325 | state and return value on all three branches: up to date, incremental, reset |
| Emulations.RewoundIsReplay | src/emulation.cpp:278-325 | a device that is the replay of its recorded history becomes the replay of the requested one |
| Injection.RewoundCounts | src/emulation.cpp:278-325 | whatever state a device is in, rewinding sends it only the missing packets when its recorded history is a prefix of the one asked for, and otherwise all of them after a reset |
| EmulationPool.FindNearest | src/emulationmgr.cpp:59-68 | the downward walk returns the longest indexed prefix or else the least key; its effect is undefined exactly when the request precedes all keys |
| EmulationPool.PastsAreNested | src/emulationmgr.cpp:59-68 | of two prefixes of one history the earlier in the order is a prefix of the later |
| EmulationPool.EmulationMgr.PoolIsExact | src/emulationmgr.cpp:28-88 | the index holds each emulation exactly once, under its middlebox and history; nothing empty is indexed; one emulation per middlebox |
| EmulationPool.EmulationMgr.GetEmulation | src/emulationmgr.cpp:28-75 | keeps the pool invariants; a new or taken-over emulation starts at the beginning; otherwise nothing changes, and the result is undefined exactly when the request precedes the indexed history, in particular for the empty history exactly when one is indexed |
| Departures.GoBackToStart | src/emulationmgr.cpp:59-68 | asking for the empty history when the emulation has any is always undefined |
| EmulationPool.EmulationMgr.UpdateNodePktHist | src/emulationmgr.cpp:77-88 | the emulation moves to its new history in the index and the pool invariants hold |
| Injection.Injector.Rewind | src/middlebox.cpp:15-23 | if all devices were in sync, this one is the replay of the requested history and the others stay in sync |
| Injection.Injector.Record | src/process/forwarding.cpp:336-341 | the stored history is the old one and the packet; all other histories keep their packets |
| Injection.Injector.SendPkt | src/middlebox.cpp:43-61 | the device is sent the packet as often as configured, and its record stays |
| Injection.ResultsInOrder | src/middlebox.cpp:43-61 | there is a result for each sending, in order: what the device answers after the earlier sendings; the device ends as the replay of all of them |
| Injection.Injector.InjectPacket | src/process/forwarding.cpp:326-373 | the record advances by the packet; the device is sent it and its answers are cached, unless an answer is cached already; other devices stay in sync, and all do when nothing was cached and the packet is sent once; the call fails exactly under the listed conditions |
| Injection.Injector.InjectNext | src/process/forwarding.cpp:326-373 | as long as no injection was taken back, the next one is defined and its answer is not cached |
| Injection.Injector.InjectAll | src/process/forwarding.cpp:326-373 | over any sequence of injections going forward none fails, every middlebox has recorded exactly its packets, and when each packet is sent once every device is the replay of its record |
| Injection.OnceKeepsSync | src/middlebox.cpp:49-56 | for every device, sending the packet once re-establishes device equals replay of the record |
| Injection.OnlyOnceKeepsSync | src/process/forwarding.cpp:352-371 | for a counting device, sync is re-established if and only if the packet is sent exactly once: neither a cached answer nor repeated sending |
| Injection.StaleAfterCachedAnswer | src/process/forwarding.cpp:352-358 | after a cached answer the next rewind to the record leaves that device behind it |
| TcpSessions.SessionCounts | src/process/forwarding.cpp:274-290 | from the start of a session, at every point of every run between modelled endpoints, sequence and acknowledgement numbers are what each side has sent, one counted per SYN and FIN, modulo 2^32 (section 3.4 of RFC 9293) |
| TcpSessions.PhaseCounts | src/process/forwarding.cpp:259-290 | one phase change adds the sequence space of the delivered packet to what its sender has sent |
| TcpSessions.OccupiesIsLength | src/process/forwarding.cpp:280-284 | the advance is the sequence space of RFC 9293 exactly when a payload does not come with SYN or FIN |
| TcpSessions.CheckSeqAck | src/lib/net.cpp:671-710 | a next-phase packet is accepted exactly when it carries the numbers the phase change computes |
| TcpSessions.SkippingRequestAck | src/process/forwarding.cpp:217-222 | going from request to reply directly leads to the same connection as going through the acknowledgement |
| TcpSessions.FlowKept | src/process/forwarding.cpp:35-62 | no step other than a change of direction, phase changes included, changes addresses, class or ports |
| TcpSessions.FlowKeptAlong | src/process/forwarding.cpp:35-62 | nor does any run without a change of direction |
| TcpSessions.TwoTurnsRestore | src/process/forwarding.cpp:294-311 | over any run from one change of direction to the next, addresses, class and ports are restored exactly when the source address represents its class |
| TcpSessions.PortsFollow | src/process/forwarding.cpp:305-309 | at every point of every run between modelled endpoints the ports are those of the start, in the order of the packet's direction |
| TcpSessions.InterfaceAddressReturns | src/process/forwarding.cpp:294-311 | which every interface address of the configuration does, with the classes computed for it |
| TcpFlags.ConvertProtoState | src/lib/net.cpp:415-516 | the nested switch over flags equals the table over states |
| TcpFlags.SentFlags | src/lib/net.cpp:43-70 | the flags sent in each TCP state, as values |
| TcpFlags.TcpIsRead | src/lib/net.cpp:415-501 | for every combination of flags, state, direction, payload and newness the state that is read, as two tables of values; everything outside them fails |
| TcpFlags.UdpIsRead | src/lib/net.cpp:502-510 | a new UDP packet asks, one from the opposite side answers a request and fails in any other state, any other repeats the state |
| TcpFlags.IcmpIsRead | src/lib/net.cpp:511-515 | an ICMP packet is what it says, and only a new one that answers fails |
| TcpFlags.RequestsAreAnswered | src/lib/net.cpp:502-515 | requests of both are read as first states and their answers as the state that follows, a new phase |
| TcpFlags.FlagsRoundTrip | src/lib/net.cpp:43-70 | the next packet of a session, sent with the flags of its state, is read back as that state exactly when its payload fits it |
| TcpFlags.ShortcutsRoundTrip | src/lib/net.cpp:447-483 | an unacknowledged request's reply and an early termination are read correctly under exact conditions |
| TcpFlags.RepeatedPacket | src/lib/net.cpp:431-495 | a retransmission is read as the connection's current state |
| TcpFlags.ProcessProtoState | src/lib/net.cpp:652-669 | when the packet fails, starts a new phase, or is marked invalid |
| TcpFlags.SessionAdvances | src/lib/net.cpp:652-669 | every next packet of a session starts a new phase |
| Segments.ReassembleSegments | src/lib/net.cpp:518-552 | the loop merges each interface's packets on their own, in order, and fails exactly when one of them cannot be merged; nothing that continues its neighbour is left, and a single stream comes back as one packet with all its bytes |
| Segments.BytesKept | src/lib/net.cpp:534-540 | every byte is kept, in order, at its sequence number modulo 2^32 |
| Segments.StreamMerged | src/lib/net.cpp:525-541 | a list of segments each of which continues the one before comes back as its first segment with all payloads |
| Segments.NothingSuccessive | src/lib/net.cpp:525-541 | no two neighbours of the result are of one flow, both ACK or PSH and ACK, contiguous and equal in acknowledgement number |
| Segments.OnInterfaceIs | src/lib/net.cpp:519-523 | the packets of an interface, in the order received |
| Segments.MergedOnce | src/lib/net.cpp:525-541 | nothing is left to join: reassembling again changes nothing |
| Segments.FailsExactly | src/lib/net.cpp:409-413 | reassembly fails if and only if two neighbouring packets of one flow include one whose flags may not be looked at |
| Departures.ReassembleUdp | src/lib/net.cpp:525-541 | two UDP packets of one flow with different payloads, in the state they are read in, make it fail |
| Segments.TcpNeverFails | src/lib/net.cpp:518-552 | it never fails on TCP packets |
| ConnMatrix.ConnectionMatrix.Reset | src/connmatrix.cpp:19-24 | all iterators are back at the first position |
| ConnMatrix.ConnectionMatrix.NumConns | src/connmatrix.cpp:5-11 | the number of combinations in 64 bits, which is the number itself if and only if it fits |
| ConnMatrix.ConnectionMatrix.GetNextConns | src/connmatrix.cpp:31-55 | the tuple at the iterators, which then move one position on; nothing after the last; undefined exactly with an empty set |
| ConnMatrix.NextRank | src/connmatrix.cpp:42-52 | advancing adds one in mixed radix and overflows to zero exactly at the last position |
| ConnMatrix.CallsInOrder | src/connmatrix.cpp:31-55 | the k-th call is at position k |
| ConnMatrix.FirstMovesFastest | src/connmatrix.cpp:42-52 | the first set's iterator moves with every call |
| ConnMatrix.EveryCombination | src/connmatrix.cpp:31-55 | every combination is returned by one of the first num_conns calls |
| ConnMatrix.OnlyOnce | src/connmatrix.cpp:31-55 | those calls return combinations only, and none twice |
| ConnMatrix.ThenNothing | src/connmatrix.cpp:34-36 | all later calls return nothing |
| ShortestPaths.BFSParent | src/dataparse.py:191-209 | the table gives a first hop of a shortest path for every connected node and nothing for the others |
| ShortestPaths.FirstHopIs | src/dataparse.py:203-208 | a neighbour from which the target is one step nearer is a first hop, and its distance is exactly one less |
| RouteSynthesis.NetSynthesizer.constructor | src/dataparse.py:10-59 | the graph has exactly the given links, its addressing is consistent and every node has its rules |
| RouteSynthesis.NetSynthesizer.AddLink | src/dataparse.py:24-56 | a new link gets one subnet of its own and two ports wired to each other; a repeated or looping link gets none |
| RouteSynthesis.NetSynthesizer.GetDstInterface | src/dataparse.py:113-118 | the neighbour's interface on the shared link, nothing for other nodes |
| RouteSynthesis.NetSynthesizer.SynthesizeRules | src/dataparse.py:90-111 | a rule exists for a subnet exactly when the node is not on the edge and connected to it, and leads to a first hop |
| RouteSynthesis.RouteArrives | src/dataparse.py:90-111 | following such rules reaches an end of the edge within the distance, which drops by exactly one per hop |
| RouteSynthesis.SynthesizedRoutesArrive | src/dataparse.py:58-59 | with the synthesised rules of all nodes every packet for an edge's subnet arrives and visits no node twice |
| L2Lans.L2Lan.CollectIntfs | src/l2-lan.cpp:7-23 | the recursion terminates, and what it adds is complete and inside the component |
| L2Lans.L2Lan.constructor | src/l2-lan.cpp:25-27 | the members are exactly the layer 2 interfaces of the node's component |
| L2Lans.SameComponent | src/l2-lan.cpp:7-23 | with symmetric peers all nodes of a component have the same component |
| L2Lans.SameLan | src/l2-lan.cpp:7-27 | with symmetric peers and unique addresses the LANs built from any two of its nodes are equal, tables and addresses included |
| L2Lans.EqualTables | src/l2-lan.cpp:61-63 | equal tables, which is all that is compared, mean the same members, unless both tables are empty |
| Departures.CompareUnplugged | src/l2-lan.cpp:61-63 | two unconnected switches have different LANs with equal tables |

## Left out

- Docker, netlink, eBPF, libnet, libcurl, configuration parsing, packet capture, logging and the scripts around them: input and output.
- SPIN's search, processes, signals, threads, condition variables, timeouts and drop detection: a step takes a choice as its argument, and a device answers in one deterministic step.
- Hash functions and the iteration order of unordered containers: stores are maps keyed by address, and a loop over a set takes any order.
- Middleboxes in the forwarding process: what an injection result does to the connections depends on the device, so a packet at a middlebox and the choice of a result have no successor state in Forwarding.Step, and the run theorems are about networks of modelled nodes.
- Plankton.Explorer.ExecStep: does not switch to the Openflow process and back, nor check the invariant after the step, because the run theorems are about runs without updates; installing an update is modelled in Dataplane and FibUpdates.
- Network.InitialEcsExplore: does not cover emulated nodes, because the run theorems are about networks of modelled nodes.
- Invariant checks and the counters they keep, and reinitialisation after a violation: they read the state the steps leave.
- Correlated invariants, and the Loop invariant's record of hops: the code does not do what they are for.
- The warning about inconsistent endpoints in forward_packet: it changes nothing.
- Network masks as bit patterns: the host bits are tested one by one, and cleared by rounding down.
- Parsing constructors of addresses, and turning a range back into a network.
- The node's own bookkeeping of interfaces and peers (src/node.cpp:7-31, 130-148): a next-hop computation sees the addresses and connected interfaces of a node as a value.
- Choosing the port that stands for all other ports, and the sets of ports: only addresses are partitioned.
- EqClasses.EqClassMgr.ComputeInitialEcs: does not model the set of ports, because nothing of the address classes depends on it.
- Emulations.Emulation.SendPkt: does not model the receive buffer and packets that arrive late or twice, because the device answers in one step.
- Injection.Injector.InjectPacket: does not model the choice count, the mode and the merging of equal results, because they belong to choosing a result.
- Injection.Injector.SendPkt: does not model sorting and merging equal injection results, because their order is not a strict weak order.
- RouteSynthesis.NetSynthesizer.SynthesizeRules: does not model grouping the subnets of one next hop and collapsing adjacent ones into larger networks, because that is Python's ipaddress library and keeps the covered addresses.
- RouteSynthesis.NetSynthesizer.AddLink: does not model the end of the IPv4 address space, where the Python code raises an exception, nor the names given to interfaces.
- A history's address: histories are numbered in the order of creation; the code compares their addresses for equality only.
