# Verification of the VIRO/VEIL routing protocol and of Click's configuration codec

This project models two parts of the repository and proves what they are for.

**Routing.** Switch interfaces hold 48-bit virtual ids (32 switch bits, 16 host bits); the distance
of two ids is the number of bits below their longest common prefix. A central node embeds the
physical graph into a binary trie by merging clusters (`Graph`, `Embedding`, `VidAssignment`,
`VidPacking`, `VidStore`). Each switch publishes its edges to rendezvous nodes, queries them, and
keeps one bucket of routes per level (`RouteTable`, `RendezvousTable`, `RendezvousAnswers`,
`ReplyRoutes`, `ControlElements`). Packets are forwarded by bucket, and control packets aimed at ids that may not
exist are re-aimed by flipping bits (`RoutePacket`). `Network`, `Forwarding`, `Protocol`,
`Construction`, `Levels`, `Exchange`, `FarLevels`, `Arrival`, `Convergence`, `Timers`, `TimerRounds`,
`Realization` and `Deployment` put the pieces together: a step relation with packets in flight that can
be delayed, duplicated or lost, what every step keeps, what whole runs achieve, and what complete
tables guarantee. `SpanningTree` and `TreeReports` are the tree that leads to the controller and the
reports sent up it, `HostTable` the ids of hosts, and `VidBits`/`VidBytes` the id arithmetic, on bit
strings and on bytes.

How the theorems compose:

1. `EmbeddingGuarantee` gives an edge at every inhabited distance, so in a network with the assigned
   ids gateways exist (`AssignedIdsHaveGateways`), and short codes keep all ids within the levels that
   are queried (`ShortCodesWithinLevels`).
2. Inside a subtree whose lower buckets are complete, level-k control packets stay
   (`StepConfines`), can always move closer (`CanArrive`), and meet at one node
   (`HandledAtRendezvous`). A publish that was sent and is neither lost nor in flight has been handled
   there (`TickedMeansHandled`); a query then brings a closest gateway, exactly if the number of edges
   out of the subtree is not a multiple of 256 (`QueriedExactly`). So publishing every edge and letting
   every member ask completes bucket k of the subtree, whatever state the rest of the network is in
   (`PhaseConstructs`).
3. `Converges` chains such phases, any schedule of them in which a subtree waits for its own parts only,
   from empty tables; the levels that are never queried are complete exactly if everybody with somebody
   at such a distance has an own edge there (`FarCompleteExactly`). One call of a switch's timer is a run
   of steps (`FireTimer`), and 32 whole rounds of calls are such a schedule (`RoundsConverge`);
   `CanConverge` shows that there are runs of such rounds, made of whole timer calls only.
4. On complete tables default forwarding strictly lowers a power-of-two measure, so it neither loops
   nor gets stuck (`Delivery`, `NoRevisit`).
5. `AssignedRoundsDeliver` and `AssignedNetworkConverges` are all of this in one statement each;
   `SmallNetworksFit` discharges their side conditions for up to 14 nodes, and `UnansweredNetwork` is a
   network in which the count of edges fails.

`RendezvousAgreement`, `SameLevelMeets` and `TrieSubtreesConnected` stand beside this chain: the first
two say for arbitrary histories of complete tables what `HandledAtRendezvous` says for runs of the
protocol, the third says of the embedding more than routing needs.

**Configuration text.** `ConfText` is the quoting printer, its parser and the argument splitter.
`ConfTokens`, `ConfArguments` and `ConfMeaning` describe configuration text by what was written, as
blanks, comments, quoted parts with their escapes, byte strings and plain characters, and say what
uncommenting, splitting and unquoting make of it. `ConfInteger` is the integer parser with its overflow
check, `ConfIntegerText` what its texts denote. `Decimal`, `ConfReal10`, `ConfReal10Text`,
`ConfReal10Unparse`, `DecimalUnderscores` and `UnderscoreParts` are the decimal parser, the texts that are
numbers, the printer, and exactly when underscores are harmless.

Conventions: imperative code is modelled by methods and classes whose contracts name a specification
function; lemmas are about those functions. Hash-table iteration is an arbitrary order. Timers are
nondeterministic steps or explicit calls. 8- and 16-bit counters that can wrap do wrap in the model.

## Where the code and its documentation differ

- The documentation of the real-number parsers allows underscores in every number and gives
  `0.000_000_01e10` as an example. The code counts underscores as digit positions and reads that
  example as 1 rather than 100 (`DocumentedExampleMisread`); `ReadRightExactly` says exactly which
  texts have underscores that can do no harm.
- `getRdvPoint` counts qualifying edges in eight bits, so it answers nothing when their number is a
  positive multiple of 256 (`CountReadsZero`, `UnansweredNetwork`; `QueriedExactly` for whole runs). That
  is possible from level 21 on (`LowLevelsCount`), and for an asker without an own edge from level 22 on
  (`LowLevelsFit`).
- A topology report starts with a time to live of 15, so on a converged tree exactly the reports of
  switches at most 16 links away reach the controller (`DeliveredExactly`; `ChainReport` for a chain of
  18 switches).
- The exponent of a real number is accumulated in a signed 32-bit integer without a check; where that
  would overflow, the model's outcome is `Undefined`. `ExponentExactly` says when, and
  `UndefinedExponent` gives the least such exponent.
- A hexadecimal escape of any length is accumulated in an `int`; the model keeps its low eight bits,
  which is what is stored when there is no overflow.
- Skipping an unfinished comment can end one or two characters past the end of the text; the model
  does the same with positions, and substrings that reach past the end are empty.

## Model

| member | source | states |
|---|---|---|
| VidBits.DeltaLoop | sim-py/veil.py:377-385 | the counting loop returns the number of bits below the longest common prefix |
| VidBits.DeltaPrefix | sim-py/veil.py:377-385 | distance at most k means exactly: equal in all but the last k bits |
| VidBits.DeltaBit | sim-py/veil.py:377-385 | at a positive distance d the d-th bits from the right differ |
| VidBits.DeltaZero | sim-py/veil.py:377-385 | distance zero exactly for equal ids |
| VidBits.DeltaSym | sim-py/veil.py:377-385 | distance is symmetric |
| VidBits.DeltaUltra | sim-py/veil.py:377-385 | distance is an ultrametric with two branches: the larger of two distances is the third, and two equal ones leave a smaller third |
| VidBits.FlipDelta | sim-py/veil.py:330-339 | flipping the bit that tells two ids apart strictly lowers their distance, and moves the flipped id by that distance |
| VidBits.FlipTwice | sim-py/veil.py:330-339 | flipping a bit twice undoes it |
| VidBits.RdvPointShared | sim-py/veil.py:277-285 | two ids share their level-k rendezvous point if and only if their distance is below k |
| VidBits.RdvPointNear | sim-py/veil.py:277-285 | the level-k rendezvous point of an id is nearer than k to it |
| VidBits.XorBounds | click-cc/vid.hh:176-185 | the exclusive-or of two ids has exactly as many significant bits as their distance |
| VidBits.XorOrder | click-cc/vid.hh:176-185 | logically closer implies a smaller exclusive-or |
| VidBits.XorInjective | click-cc/vid.hh:176-185 | two ids at the same exclusive-or from a third are equal |
| VidBits.XorFlip | click-cc/vid.hh:162-185 | flipping bit k of the target changes the exclusive-or by exactly plus or minus that bit's weight |
| VidBits.SwitchDelta | click-cc/vid.hh:68-74 | the switch parts are as far apart as the ids, less the host bits, or equal |
| VidBits.SwitchDeltaZero | click-cc/veil/routepacket.cc:289-299 | distance at most 16 means the same switch id |
| VidBits.SwitchVidDelta | click-cc/veil/routepacket.cc:301-314 | replacing a target by its switch part keeps every distance above 16 |
| VidBytes.VID.LogicalDistance | click-cc/vid.hh:98-119 | the byte and bit counting loops return the distance of the bit strings |
| VidBytes.VID.CalculateRdvPoint | click-cc/vid.hh:140-159 | for k from 1 to 49 the byte loop and the two shifts write the rendezvous point of the bit string, also when the target is this very id |
| VidBytes.VID.FlipBit | click-cc/vid.hh:162-175 | in place, exactly bit k of the bit string changes; for k above 48 nothing does |
| VidBytes.VID.XOR | click-cc/vid.hh:176-185 | the four shifted bytes add up to the exclusive-or of the switch bits, below 2^32 |
| VidBytes.VID.GetSwitchVID | click-cc/vid.hh:68-74 | a new id with the switch bits and zero host bits |
| VidBytes.ByteDelta | click-cc/vid.hh:107-114 | the distance of two bytes is the bit length of their exclusive-or |
| VidBytes.XorByte | click-cc/vid.hh:180 | a byte's exclusive-or as a number is the bitwise one of the bit strings |
| VidBytes.DeltaBytes | click-cc/vid.hh:102-118 | the distance is decided by the first byte that differs |
| RouteTable.DisciplineKept | click-cc/veil/routetable.cc:117-150 | every update and expiry keeps the valid slots a prefix of the bucket with the default entry only in slot 0 |
| RouteTable.CountedSlotsAreValid | click-cc/veil/routetable.cc:202-234 | in such a bucket slot j is valid exactly when j is below the number of valid slots, so returning slot `pickj` returns a valid route |
| RouteTable.DefaultAfterUpdate | click-cc/veil/routetable.cc:124-150 | a default update is the route found next; an extra entry leaves the default as it was; expiry leaves none |
| RouteTable.UpdateKeepsDiscipline | click-cc/veil/routetable.cc:71-151 | an update changes the default route of its own bucket only, and only if it is a default update |
| RouteTable.RoutesAfterEntry | click-cc/veil/routetable.cc:117-150 | an extra entry becomes the last valid route while there are fewer than four and is dropped otherwise; a default entry becomes the only valid route; an expired or new bucket has none |
| RouteTable.RoutesAfterUpdate | click-cc/veil/routetable.cc:71-151 | so it is for the table of an interface, and no other level's routes change |
| RouteTable.PickWalks | click-cc/veil/routetable.cc:216-218 | the i-th pick after a state is i-1 places after the first, around the circle of m valid slots |
| RouteTable.RotationIsFair | click-cc/veil/routetable.cc:216-231 | m consecutive picks over m valid slots return each slot exactly once |
| RouteTable.PickedAll | click-cc/veil/routetable.cc:216-231 | the routes that m lookups in rotation pick are, as a multiset, the m valid routes |
| RouteTable.RouteTable.UpdateEntry | click-cc/veil/routetable.cc:71-151 | the whole new table: only the bucket of that interface and level changes, to the routes that `RoutesAfterUpdate` names; unknown interfaces change nothing |
| RouteTable.RouteTable.GetDefaultRoute | click-cc/veil/routetable.cc:157-197 | the default route, no route for unknown interfaces, and "this interface" up to distance 16 |
| RouteTable.RouteTable.GetRoute | click-cc/veil/routetable.cc:156-241 | in rotation, the next valid slot and the new rotation state; by default the default route and no change |
| RouteTable.RouteTable.RotateAll | click-cc/veil/routetable.cc:156-241 | m lookups in a row in rotation, over a bucket with m valid routes, return every one of them once |
| RouteTable.RouteTable.ExpireBucket | click-cc/veil/routetable.cc:272-291 | exactly one bucket of one interface is invalidated |
| Network.ClosestExists | click-cc/veil/rendezvoustable.cc:80-129 | if a level has a gateway it has a logically closest one |
| Network.MeasureBounds | click-cc/veil/routepacket.cc:273-352 | the measure of a node for distance k lies between 2^k and 2^(k+1) |
| Network.GatewayShared | click-cc/veil/rendezvoustable.cc:88-105 | nodes nearer than k to each other have the same level-k gateways |
| Network.NextHopNear | click-cc/veil/processrdv.cc:138-163 | a next hop derived as in the reply handler is adjacent and at distance at most k |
| Network.NextHopDescends | click-cc/veil/processrdv.cc:138-163 | one hop towards any closest gateway strictly lowers the measure for the destination, whichever tie was broken how |
| Forwarding.NearestUnique | click-cc/vid.hh:176-185 | only one existing id is exclusive-or nearest to a target |
| Forwarding.FlipKeepsNearest | click-cc/veil/routepacket.cc:139-146 | flipping the bit of an uninhabited distance keeps which existing id is nearest to the target |
| Forwarding.StuckMeansUninhabited | click-cc/veil/routepacket.cc:273-352 | with complete buckets no output port means no existing id at that distance, and a port means a true next hop or a neighbor |
| Forwarding.AdvanceInside | click-cc/veil/routepacket.cc:136-147 | a hop or flip inside a complete subtree stays inside, needs a bucket below k only, lowers the potential and keeps the nearest id |
| Forwarding.Journey | click-cc/veil/routepacket.cc:136-151 | every packet aimed inside a complete subtree, with tables that may change on the way, ends at the id nearest to its first target |
| Forwarding.RendezvousAgreement | click-cc/veil/routepacket.cc:136-151 | packets first aimed at one id end at one and the same node, from any two starting points and with any two histories of complete tables; this is what lets a publisher and an asker of one key meet |
| Forwarding.SameLevelMeets | click-cc/veil/buildroutetable.cc:120-190 | publishers and queriers of level k that are nearer than k meet at one node, inside their subtree |
| Forwarding.HopTowardsSwitch | click-cc/veil/routepacket.cc:273-352 | towards an existing switch, forwarding on complete tables is never stuck, stops exactly there, and otherwise lowers the measure |
| Forwarding.PathDescends | click-cc/veil/routepacket.cc:273-352 | every hop of a forwarding path strictly lowers the measure |
| Forwarding.NoRevisit | click-cc/veil/routepacket.cc:273-352 | loop freedom: no interface occurs twice on a path, so it is no longer than the number of interfaces |
| Forwarding.Delivery | click-cc/veil/routepacket.cc:273-352 | delivery: every path extends to one that ends at the switch that owns the destination |
| RendezvousTable.RendezvousTable.UpdateEntry | click-cc/veil/rendezvoustable.cc:51-77 | exactly the edge is added |
| RendezvousTable.RendezvousTable.DefaultGateway | click-cc/veil/rendezvoustable.cc:84-108 | the last of the exclusive-or minimal qualifying sources, and the count modulo 256 |
| RendezvousTable.RendezvousTable.CopyGateways | click-cc/veil/rendezvoustable.cc:109-126 | exactly the default gateway and then the sources of the other qualifying edges with another source, one for each edge in table order, as far as there is room |
| RendezvousTable.CopiedIsSelection | click-cc/veil/rendezvoustable.cc:80-129 | for every table order that is a permitted answer: each gateway has a qualifying edge of its own, none after the first is equal to it, and with room left every other qualifying edge was taken |
| RendezvousTable.RendezvousTable.GetRdvPoint | click-cc/veil/rendezvoustable.cc:80-129 | at most four gateways, each the source of a qualifying edge of its own, the first exclusive-or minimal, none later equal to it, all of them taken if there is room; none if and only if the number of qualifying edges is a multiple of 256, and below 256 if and only if none qualifies |
| RendezvousTable.ScanFindsNearest | click-cc/veil/rendezvoustable.cc:88-105 | the scan ends with a minimum over all qualifying edges, whatever the iteration order |
| RendezvousTable.ScanCounts | click-cc/veil/rendezvoustable.cc:88-105 | the scan counts the qualifying edges |
| RendezvousTable.SelectionClosest | click-cc/veil/rendezvoustable.cc:80-129 | the first answer is logically closest to the asker among all qualifying sources, and nearer than k |
| RendezvousAnswers.AnsweredExactly | click-cc/veil/rendezvoustable.cc:80-129 | for every set of edges some answer may be given; every one that may be given is empty if and only if the number of qualifying edges is a multiple of 256 |
| RendezvousAnswers.CountReadsZero | click-cc/veil/rendezvoustable.cc:86-110 | at every level from 21 on there are 256 edges between switch ids, all out of the asker's subtree, for which only the empty answer may be given |
| RendezvousAnswers.LowLevelsCount | click-cc/veil/rendezvoustable.cc:86-110 | at levels up to 20 at most 64 edges between switch ids qualify, so a query is answered if and only if one does |
| RoutePacket.RoutePacket.GetPort | click-cc/veil/routepacket.cc:272-352 | the decision here/next hop/stuck, and what goes with it: the port of the interface to which an entry attaches the next hop, or the count of interfaces and the own interface that is the next hop, in whose name to go on; a switch that is a neighbor is its own next hop whatever the routes are; and the distance |
| RoutePacket.RoutePacket.PortCarriesHop | click-cc/veil/routepacket.cc:272-352 | on a switch that mirrors the network, the interface behind the port chosen has a physical link to exactly the next hop of the network-level relation, and an own interface is handed over to with the count of interfaces as port |
| RoutePacket.RoutePacket.ReAim | click-cc/veil/routepacket.cc:136-151 | for any table contents the loop flips at most 32 bits, ends with a usable port and with the port, next hop and interface that the decision for its target calls for, leaves all bits above the starting distance, and ends at the target where the decision settles |
| RoutePacket.RoutePacket.DecidesAsForward | click-cc/veil/routepacket.cc:272-352 | a switch whose tables mirror the network decides as the network-level relation says |
| RoutePacket.RoutePacket.SettlesByAdvancing | click-cc/veil/routepacket.cc:136-151 | the re-aiming loop of such a switch performs exactly the flip steps of the network-level relation |
| Protocol.UpdateIsSafe | click-cc/veil/routetable.cc:71-151 | updating with a safe entry keeps all entries of the table safe |
| Protocol.ReplyIsSafe | click-cc/veil/processrdv.cc:138-163 | handling a reply that names true gateways keeps the table safe: every derived next hop is adjacent and within distance k |
| Protocol.SelectionIsSafe | click-cc/veil/processrdv.cc:67-124 | an answer names only gateways backed by published, real edges |
| Protocol.HopIsSafe | click-cc/veil/routepacket.cc:136-160 | forwarding keeps a packet well-formed and on an existing interface |
| Protocol.StepIsSafe | click-cc/veil/processrdv.cc:67-172 | every step, including loss, duplication and expiry, keeps every valid entry (k, next hop, gateway) adjacent, within distance k, nearer than k at the gateway, and backed by a real edge |
| Protocol.RunIsSafe | click-cc/veil/buildroutetable.cc:56-100 | route-entry safety in every state of every run from empty tables |
| Construction.ConfinedStep | click-cc/veil/routepacket.cc:136-147 | a level-k control packet of the subtree needs only a bucket below k, stays in the subtree, and keeps its nearest node |
| Construction.StepConfines | click-cc/veil/processrdv.cc:67-172 | no step lets a level-k control packet leave its subtree, requests stay aimed at the one rendezvous node |
| Levels.RunConfines | click-cc/veil/processrdv.cc:67-172 | the same over whole runs without expiry, for one subtree whose lower levels are stable |
| Construction.HandledAtRendezvous | click-cc/veil/processrdv.cc:45-65 | a request that is handled is handled at the rendezvous node's switch |
| Levels.PublishedMeansFull | click-cc/veil/processrdv.cc:126-136 | once the publishes of every edge out of a subtree have been handled, wherever that was, its rendezvous node holds them all |
| Construction.QueryAnswered | click-cc/veil/processrdv.cc:67-124 | a query at a full rendezvous node is answered with a closest gateway, and goes unanswered only when the number of edges is a multiple of 256 |
| Construction.AnswerCompletes | click-cc/veil/processrdv.cc:138-172 | handling such an answer with complete lower buckets makes bucket k complete |
| Construction.TickCompletes | click-cc/veil/buildroutetable.cc:56-100 | entering an own edge makes its bucket complete |
| Construction.StepKeepsComplete | click-cc/veil/processrdv.cc:67-172 | no later step undoes a complete bucket |
| Construction.StepKeepsStable | click-cc/veil/processrdv.cc:67-172 | what is stable within a subtree stays so with every step without expiry, taken anywhere in the network |
| Construction.ReadyShared | click-cc/vid.hh:140-159 | the members of a subtree settle together, at one rendezvous node |
| Levels.RunKeepsComplete | click-cc/veil/processrdv.cc:67-172 | a bucket once complete is complete in every later state of the run |
| Levels.ServedMeansComplete | click-cc/veil/processrdv.cc:138-172 | a member of one settled subtree that has been answered, or has an own edge, has a correct bucket-k entry at the end of the run, and a member of an uninhabited level has none |
| Levels.LevelConstructed | click-cc/veil/buildroutetable.cc:56-115 | one subtree: stable lower levels, a settled level k and members served make level k stable for every member, and keep the lower ones |
| Exchange.TickedMeansHandled | click-cc/veil/buildroutetable.cc:56-100 | a publish that was sent, not lost, and is no longer in flight has been handled |
| Exchange.CrossingCounted | click-cc/veil/rendezvoustable.cc:86-110 | what a full rendezvous node counts for a member is the number of physical edges out of the subtree |
| Exchange.QueriedMeansServed | click-cc/veil/buildroutetable.cc:102-115 | a member without an own edge that sends a query in a settled subtree is served, if the number of those edges is not a multiple of 256 and nothing is lost or left in flight |
| Exchange.UnansweredRun | click-cc/veil/processrdv.cc:67-124 | and if it is a multiple of 256, no answer ever comes and the bucket stays as it was |
| Exchange.QueriedExactly | click-cc/veil/processrdv.cc:67-172 | an empty bucket of an inhabited level is completed by a query if and only if the number of edges out of the subtree is not a multiple of 256 |
| Exchange.TickedMeansSettled | click-cc/veil/buildroutetable.cc:56-100 | publishing every edge out of a subtree settles the level there |
| Exchange.AskedMeansComplete | click-cc/veil/buildroutetable.cc:102-115 | and then every member that has an own edge or queries ends with a complete bucket |
| Arrival.CanMove | click-cc/veil/routepacket.cc:136-160 | a level-k control packet that has not arrived can make a hop or be re-aimed, and that lowers its potential |
| Arrival.CanArrive | click-cc/veil/routepacket.cc:136-160 | hops and re-aimings bring every such packet to its handler: requests to the rendezvous node, answers to the asker |
| Levels.ShortIdsComplete | click-cc/veil/buildroutetable.cc:107-114 | if no two ids are farther apart than the 32 levels queried, nothing is missing above them |
| FarLevels.FarDefaults | click-cc/veil/buildroutetable.cc:107-114 | in every run from empty tables, lossy and expiring ones included, a default route of a level that is not queried means an own edge of that level |
| FarLevels.FarExactly | click-cc/veil/buildroutetable.cc:56-115 | a bucket of such a level, once own edges are published, is complete if and only if its owner has an own edge there or nobody is at that distance |
| FarLevels.FarCompleteExactly | click-cc/veil/buildroutetable.cc:56-115 | all buckets above level 32 are complete if and only if every interface with somebody at such a distance has an own edge there |
| Levels.ConvergedDelivers | click-cc/veil/routepacket.cc:273-352 | in such a state a loop-free path of default hops leads from every interface to every existing switch |
| Convergence.PhaseSettles | click-cc/veil/buildroutetable.cc:56-115 | a stretch of a run that publishes every edge out of a subtree, loses none of its level-k packets, and starts and ends without them settles the level there |
| Convergence.PhaseConstructs | click-cc/veil/buildroutetable.cc:56-115 | if then every member publishes its own edge or queries, the level becomes stable in that subtree |
| Convergence.PhasesConstruct | click-cc/veil/buildroutetable.cc:107-114 | with a phase for every level of every subtree, each after those of the lower levels inside it, every bucket is complete from the end of its phase on |
| Convergence.Converges | click-cc/veil/routepacket.cc:273-352 | from empty tables through these phases, and with own edges at all distances above 32: in every later state a loop-free path of default hops leads from any interface to any other |
| Timers.TimerRun | click-cc/veil/buildroutetable.cc:43-118 | one call of a switch's timer as steps: all its edges published, then all its questions asked, and every table is what entering the edges in that order makes of it |
| TimerRounds.RoundsAreScheduled | click-cc/veil/buildroutetable.cc:43-118 | 32 rounds in each of which every edge is published and every question asked, with losses above the round's level only, are a schedule of phases for all levels of all subtrees |
| TimerRounds.RoundsConverge | click-cc/veil/buildroutetable.cc:43-118 | after 32 whole rounds from empty tables a loop-free path of default hops leads from any interface to any other |
| Realization.PacketTrip | click-cc/veil/processrdv.cc:67-172 | with the levels below k stable, any packet of level at most k, among any others in flight, can be brought to its handler and its answer home, with nothing lost |
| Realization.OneRound | click-cc/veil/buildroutetable.cc:43-118 | from a quiet state all timers can fire, in whole calls, and everything they sent can end, with losses above level k only |
| Realization.CanConverge | click-cc/veil/buildroutetable.cc:43-118 | there is a run of 32 such rounds from empty tables in which nothing is published or asked but by whole timer calls |
| Deployment.AssignedIdsAnswerable | click-cc/veil/rendezvoustable.cc:86-110 | with assigned ids, a count of edges that reads zero is all that can keep a query from being answered |
| Deployment.AssignedNetworkDelivers | click-cc/veil/networkTopoVIDAssignment.cc:222-427 | from the embedding to delivery: with ids assigned to a connected graph, codes of at most 14 digits and counts that do not read zero, every run through the phases ends with loop-free default paths between all interfaces |
| Deployment.AssignedRoundsDeliver | click-cc/veil/buildroutetable.cc:43-118 | the same for every run of 32 whole rounds of timer calls |
| Deployment.AssignedNetworkConverges | click-cc/veil/networkTopoVIDAssignment.cc:222-427 | and such a run of whole timer calls exists |
| Deployment.FewInterfacesFit | click-cc/veil/rendezvoustable.cc:86-110 | with at most 31 interfaces no count reads zero |
| Deployment.SmallNetworksFit | click-cc/veil/networkTopoVIDAssignment.cc:354-382 | with at most 14 nodes the code length and the counts are as required |
| Deployment.LowLevelsFit | click-cc/veil/rendezvoustable.cc:86-110 | at levels up to 21 an asker without an own edge always has fewer than 256 edges to ask for |
| Deployment.UnansweredNetwork | click-cc/veil/rendezvoustable.cc:86-110 | from level 22 on, a network of single-interface switches in which a count reads zero: sixteen with links to sixteen of the sibling subtree, and one that has to ask for them |
| Levels.RendezvousExists | click-cc/vid.hh:140-159 | every subtree has a rendezvous node, and above the host bits it is a member |
| ControlElements.ProcessRdv.HandleReply | click-cc/veil/processrdv.cc:138-172 | the gateways are entered in order as the step relation says, and no other interface's table changes; a usable answer leaves exactly its usable gateways in the bucket |
| ReplyRoutes.ReplyLeaves | click-cc/veil/processrdv.cc:138-172 | after any reply the bucket it names offers the route to the first gateway, if usable, in place of what was there, and then the routes to the usable later ones in order, up to four; all other buckets offer what they did |
| ReplyRoutes.ReplyNamesRoutes | click-cc/veil/processrdv.cc:138-172 | after an answer of at most four gateways nearer than the level, the first of them usable, the valid routes are exactly the usable gateways in the order named, each with the default next hop towards it |
| ControlElements.ProcessRdv.TakePublish | click-cc/veil/processrdv.cc:126-136 | on a switch that mirrors a protocol state, handling a publish is a step of the protocol |
| ControlElements.ProcessRdv.TakeQuery | click-cc/veil/processrdv.cc:67-124 | so is handling a query, with the answer it puts in the air |
| ControlElements.ProcessRdv.TakeReply | click-cc/veil/processrdv.cc:138-172 | so is handling an answer, and the tables of other interfaces stay |
| ControlElements.ProcessRdv.SimpleAction | click-cc/veil/processrdv.cc:34-180 | a packet for another switch is passed on; any other is handled by a step of the protocol that the switch's tables mirror again |
| ControlElements.BuildRouteTable.EnterEdge | click-cc/veil/buildroutetable.cc:56-72 | one edge is entered as the default of its bucket and published: every table is that of the list of edges so far with this one appended |
| ControlElements.BuildRouteTable.RunTimer | click-cc/veil/buildroutetable.cc:43-118 | nothing before the ids are assigned; afterwards every table is exactly what entering the local edges in some order makes of it, exactly these are published, and every enabled interface queries exactly levels 17 to 32 |
| ControlElements.EnteredBuckets | click-cc/veil/buildroutetable.cc:56-100 | a bucket after that holds one of the edges of its level as the default and nothing else, or, if there is none, what it held before |
| ControlElements.BuildRouteTable.FireTimer | click-cc/veil/buildroutetable.cc:43-118 | on a switch that mirrors a protocol state, the call is a run of publishes and queries of the step relation, exactly those of one call, and the switch mirrors its last state |
| SpanningTree.SpanningTreeState.UpdateCostToVCC | click-cc/veil/spanningtreestate.cc:75-125 | the entry becomes the better of the old one and the offer (a tie takes the new parent), counts in 16 bits, and refreshing is reported exactly |
| SpanningTree.SpanningTreeState.UpdateChild | click-cc/veil/spanningtreestate.cc:129-168 | the child's entry names that controller, and whether there was one is reported |
| SpanningTree.SpanningTreeState.GetParentNodeToVCC | click-cc/veil/spanningtreestate.cc:226-235 | the stored parent, if any |
| SpanningTree.ReceiveOffers | click-cc/veil/spanningtreestate.cc:84-122 | in a safe state a received count never wraps, and the controller keeps its own entry |
| SpanningTree.StepIsSafe | click-cc/veil/processVCCSTAdSub.cc:135-151 | every step keeps: each count exceeds the parent's, is at least the true distance plus one and at most the number of switches with an entry |
| SpanningTree.RunIsSafe | click-cc/veil/spanningtreestate.cc:75-125 | the same in every state of every expiry-free run with delayed, duplicated or lost messages |
| SpanningTree.CountsFit | click-cc/veil/generateVCCSTAdSub.cc:92-126 | below 65536 switches no stored or advertised count needs more than 16 bits |
| SpanningTree.ParentsLeadHome | click-cc/veil/processVCCSTAdSub.cc:207-235 | parent pointers lead to the controller along strictly falling counts, in fewer hops than the count |
| SpanningTree.ReportsArrive | click-cc/veil/processVCCSTAdSub.cc:207-237 | every topology report has been relayed fewer times than the sender's count, and short of the controller it can be relayed again if that count is within the time to live |
| SpanningTree.SentMeansDelivered | click-cc/veil/processVCCSTAdSub.cc:207-237 | over runs, while the tree still changes: a report sent with a count of at most 17, neither lost nor left in flight, has reached the controller |
| TreeReports.RoundsReachConverged | click-cc/veil/generateVCCSTAdSub.cc:92-126 | advertisement rounds lead to a converged tree |
| TreeReports.CountsStay | click-cc/veil/spanningtreestate.cc:75-125 | on a converged tree no step changes a count |
| TreeReports.ParentCloser | click-cc/veil/spanningtreestate.cc:84-122 | there the parent is exactly one link closer |
| TreeReports.FarNeverDelivered | click-cc/veil/processVCCSTAdSub.cc:207-237 | there no report of a switch more than 16 links away is ever delivered, whatever else happens |
| TreeReports.DeliveredExactly | click-cc/veil/processVCCSTAdSub.cc:207-237 | there a report that is sent, not lost and not left in flight is delivered if and only if its sender is at most 16 links away |
| TreeReports.ReportRun | click-cc/veil/processVCCSTAdSub.cc:207-237 | such a run exists for every switch |
| TreeReports.ChainReport | click-cc/veil/processVCCSTAdSub.cc:207-237 | in a chain of switches the report of the last one arrives if and only if there are fewer than 18 |
| SpanningTree.CountsFall | click-cc/veil/spanningtreestate.cc:84-101 | counts never rise in an expiry-free run |
| SpanningTree.RoundSpreads | click-cc/veil/generateVCCSTAdSub.cc:92-126 | one full advertisement round bounds every neighbor's count by one more than the sender's |
| SpanningTree.RoundsBound | click-cc/veil/generateVCCSTAdSub.cc:92-126 | after r rounds every switch within d hops, d at most r, has an entry of at most d+1 |
| SpanningTree.RoundsConverge | click-cc/veil/generateVCCSTAdSub.cc:92-126 | after r rounds every switch at distance d, d at most r, holds exactly d+1 |
| Embedding.MergeDelta | click-cc/veil/networkTopoVIDAssignment.cc:296-320 | merging leaves distances inside each cluster as they are and puts the two clusters at the new top distance |
| Embedding.MergeDistinct | click-cc/veil/networkTopoVIDAssignment.cc:311-320 | ids within a merged cluster stay pairwise distinct and of one length |
| Embedding.MergeBridged | click-cc/veil/networkTopoVIDAssignment.cc:311-320 | merging clusters joined by an edge keeps: every inhabited distance inside a cluster is crossed by a physical edge |
| Embedding.MergeSized | click-cc/veil/networkTopoVIDAssignment.cc:284-320 | merging keeps l <= size <= 2^(l-1) for the code length l of a cluster |
| Embedding.MergeEmbedded | click-cc/veil/networkTopoVIDAssignment.cc:284-320 | one merge keeps all of these |
| Embedding.QuotientMerged | click-cc/veil/networkTopoVIDAssignment.cc:322-350 | relabelling, folding and erasing rows turns the quotient of the graph by the old clusters into that by the new ones |
| Embedding.ClusterHasNeighbor | click-cc/veil/networkTopoVIDAssignment.cc:266-281 | in a connected graph every cluster has a neighbor while there are two |
| Embedding.SubtreesConnected | click-cc/veil/networkTopoVIDAssignment.cc:236-352 | with one cluster left, every subtree of the trie is connected by edges between its members |
| VidAssignment.ClusterSizes | click-cc/veil/networkTopoVIDAssignment.cc:245-250 | the size of every cluster |
| VidAssignment.SmallestCluster | click-cc/veil/networkTopoVIDAssignment.cc:252-263 | a cluster of minimum size, label 0 when it is one |
| VidAssignment.SecondCluster | click-cc/veil/networkTopoVIDAssignment.cc:266-281 | a smallest neighboring cluster, or -1 exactly when there is none |
| VidAssignment.CodeLengths | click-cc/veil/networkTopoVIDAssignment.cc:284-294 | the code lengths of members of the two clusters, or -1 exactly when a cluster has none |
| VidAssignment.PadCodes | click-cc/veil/networkTopoVIDAssignment.cc:296-306 | exactly the shorter codes of the two clusters are extended with zeros in front |
| VidAssignment.MergeClusters | click-cc/veil/networkTopoVIDAssignment.cc:311-320 | a 0 or 1 is prepended by cluster, both get the smaller label, nothing else changes |
| VidAssignment.MergeRows | click-cc/veil/networkTopoVIDAssignment.cc:322-348 | the updated cluster topology, row by row |
| VidAssignment.Iterate | click-cc/veil/networkTopoVIDAssignment.cc:240-352 | an iteration merges a smallest cluster with a smallest neighbor, keeps the embedding and the quotient invariant, removes one cluster, and otherwise changes nothing and stops |
| VidAssignment.NeverStuck | click-cc/veil/networkTopoVIDAssignment.cc:307-310 | on a connected graph without self-loops the early exit is never taken while two clusters remain |
| VidAssignment.Cluster | click-cc/veil/networkTopoVIDAssignment.cc:222-352 | for every graph the result is an embedding after at most 5000 merges; a connected one without self-loops ends as one cluster if and only if it has at most 5001 nodes, and then after exactly n-1 merges |
| VidStore.NetworkTopoVidAssignment.AddAnEdge | click-cc/veil/networkTopoVIDAssignment.cc:85-104 | the edge is appended exactly if it is new |
| VidStore.NetworkTopoVidAssignment.LearnTopology | click-cc/veil/networkTopoVIDAssignment.cc:203-218 | the graph has an edge exactly where one of two reporting nodes reports the other |
| VidPacking.PadAll | click-cc/veil/networkTopoVIDAssignment.cc:354-370 | every code is extended by the same prefix and suffix zeros |
| VidPacking.Pack | click-cc/veil/networkTopoVIDAssignment.cc:384-409 | dividing out four bytes packs the 32-bit value, most significant bit first |
| VidPacking.PackedExactly | click-cc/veil/networkTopoVIDAssignment.cc:384-409 | a code of 32 digits is packed bit for bit |
| VidPacking.PackedBits | click-cc/veil/networkTopoVIDAssignment.cc:354-409 | a code of at most thirty digits ends right before two zeros and the host bits, with zeros in front; a longer one starts at the first bit |
| VidPacking.PackedDelta | click-cc/veil/networkTopoVIDAssignment.cc:354-409 | padding and packing shift every distance by the same amount and make switch ids |
| VidStore.NetworkTopoVidAssignment.Store | click-cc/veil/networkTopoVIDAssignment.cc:411-424 | the new map from nodes to ids, and a change reported exactly when a known node's id differs |
| VidStore.NetworkTopoVidAssignment.RemoveOutdated | click-cc/veil/networkTopoVIDAssignment.cc:151-183 | exactly the nodes of the topology that have not reported within twice the broadcast interval are removed, with their ids |
| VidStore.NetworkTopoVidAssignment.PerformVIDAssignment | click-cc/veil/networkTopoVIDAssignment.cc:131-427 | the whole assignment: outdated nodes removed, the topology read, the embedding found, and the ids stored, or nothing stored when a code is too long or no topology is known |
| VidStore.StoredVids | click-cc/veil/networkTopoVIDAssignment.cc:411-424 | every node ends with its own packed id and other entries are untouched |
| VidStore.FewNodesFit | click-cc/veil/networkTopoVIDAssignment.cc:354-382 | with at most 32 nodes the code length is at most 32 |
| VidStore.ShortCodesWithinLevels | click-cc/veil/buildroutetable.cc:107-109 | code lengths of at most 14 keep all ids within the 32 levels that are queried |
| VidStore.VidsDistinct | click-cc/veil/networkTopoVIDAssignment.cc:354-424 | with code length at most 32 the packed ids of different nodes are different switch ids |
| VidStore.EmbeddingGuarantee | click-cc/veil/networkTopoVIDAssignment.cc:222-427 | whenever some id lies at distance k from another, a physical edge joins a node nearer than k to it and a node at distance exactly k |
| VidStore.TrieSubtreesConnected | click-cc/veil/networkTopoVIDAssignment.cc:222-427 | every subtree of the packed ids is connected by physical edges inside it |
| VidStore.AssignedIdsHaveGateways | click-cc/veil/rendezvoustable.cc:80-129 | in a network with these ids every inhabited distance has a gateway |
| HostTable.HostVidInjective | click-cc/veil/hosttable.cc:229-249 | different 16-bit numbers make different host ids |
| HostTable.HostVidAt | click-cc/veil/hosttable.cc:229-249 | a host id has the switch bits of its switch, is at most sixteen away from it, and its last two bytes read back as the number, low byte first |
| HostTable.HostTable.ValidMeans | click-cc/veil/hosttable.cc:131-173 | distinct addresses hold distinct ids, the two address tables have one domain, and the id table's domain is exactly the assigned ids |
| HostTable.HostTable.Probe | click-cc/veil/hosttable.cc:229-249 | the wrapping probe ends, finds the first free id of the switch from the starting number on if there is one, and fails exactly when all 65536 are taken |
| HostTable.HostTable.GenerateHostVid | click-cc/veil/hosttable.cc:177-256 | keeps the invariant; refreshes exactly a known host on the same interface and switch, otherwise gives an id no other address holds, or fails only when none is free; the id always lies at the switch, and asking again for a switch id gives the same id; all four tables afterwards |
| HostTable.HostTable.Expire | click-cc/veil/hosttable.cc:66-128 | keeps the invariant, and removes the address, its id and its hardware address exactly if it still holds the id the timer was started for |
| HostTable.HostTable.DeleteIp | click-cc/veil/hosttable.cc:324-360 | keeps the invariant and removes exactly that address, its id and its hardware address |
| ConfText.SkipComment | click-cc/confparse.cc:282-298 | the position after a line or block comment, by the recursive description of comments |
| ConfText.SkipBackslash | click-cc/confparse.cc:300-320 | the position after an escape, with comments inside angle brackets |
| ConfText.SkipDoubleQuote | click-cc/confparse.cc:332-346 | the position after the closing double quote, escapes skipped |
| ConfText.SkipCommentSpace | click-cc/confparse.cc:373-385 | the position after spaces and comments |
| ConfText.PartialUncomment | click-cc/confparse.cc:387-436 | the text up to the end or the first bare comma, comments and outer spaces removed, and where it stopped, as `CommentsRemoved` describes it |
| ConfTokens.CommentsRemoved | click-cc/confparse.cc:387-436 | pieces of text with gaps between them, the gaps between pieces holding comments, come back joined by single spaces: each piece as it stands, with single- and double-quoted parts, byte strings and inner blanks and the commas and comment marks in them, also if nothing finishes the last comment or the last quoted part |
| ConfArguments.PlainTrimmed | click-cc/confparse.cc:387-436 | text without quotes, comments, byte strings and commas loses the blanks at both ends and keeps those inside |
| ConfArguments.BlanksVanish | click-cc/confparse.cc:387-436 | of blanks alone nothing is left |
| ConfText.ProcessBackslash | click-cc/confparse.cc:489-571 | appends what the escape stands for and returns the position after it |
| ConfText.EscapeAdvances | click-cc/confparse.cc:489-571 | an escape ends later than it starts and inside the text |
| ConfMeaning.EscapeMeans | click-cc/confparse.cc:489-571 | each kind of escape gives what it stands for and ends where it ends: the letter escapes, octal and hexadecimal digits as the byte they write, line continuations as nothing |
| ConfMeaning.AngleEscapeMeans | click-cc/confparse.cc:489-571 | a byte string gives one byte for every two hexadecimal digits, whatever comments and other characters stand between them |
| ConfText.Unquote | click-cc/confparse.cc:583-628 | the lazily copying loop computes the recursive unquoting, which `UnquotedMeans` describes |
| ConfMeaning.UnquotedMeans | click-cc/confparse.cc:583-628 | comments go, single-quoted parts give their characters with backslashes, double-quoted parts give what their characters and escapes stand for, byte strings their bytes, and all other characters themselves |
| ConfText.Quote | click-cc/confparse.cc:641-695 | the lazily copying loop writes each character as itself or as its escape, between quotes |
| ConfText.QuotePrintable | click-cc/confparse.cc:641-695 | a quoted byte string is printable, apart from newlines where they are allowed, and is longer than the string exactly if some byte cannot stand for itself |
| ConfText.EscapeInverts | click-cc/confparse.cc:489-571 | expanding the escape of any byte gives that byte and ends where the escape ends |
| ConfText.QuoteEndFound | click-cc/confparse.cc:332-346 | the scanner finds the closing quote of every quoted byte string |
| ConfText.QuoteUncommented | click-cc/confparse.cc:387-436 | comment removal leaves a quoted string alone |
| ConfText.QuoteRoundTrip | click-cc/confparse.cc:583-695 | unquoting a quoted byte string gives it back, newlines allowed or not |
| ConfText.ArgVec | click-cc/confparse.cc:709-723 | appends exactly the arguments between bare commas, an empty last one dropped, as `SplitAsLaidOut` describes it |
| ConfArguments.SplitAsLaidOut | click-cc/confparse.cc:709-723 | a text laid out as arguments with commas between them is split into exactly their values, an empty last one dropped |
| ConfArguments.JoinedSplits | click-cc/confparse.cc:709-826 | arguments, each a piece of text with quoted parts and byte strings of any kind, joined by comma and space are split into exactly those arguments; blanks or a comma at the end add none |
| ConfArguments.PlainIsArgument | click-cc/confparse.cc:709-723 | such an argument is every plain text with no blank at its ends |
| ConfArguments.ItemIsArgument | click-cc/confparse.cc:709-723 | and every quoted part or byte string, whatever is in it |
| ConfArguments.ThreeArguments | click-cc/confparse.cc:700-723 | the documented example |
| ConfText.UnArgVec | click-cc/confparse.cc:812-826 | joins with comma and space, nothing for the empty list |
| ConfText.SplitJoined | click-cc/confparse.cc:709-723 | from any position, splitting joined quoted strings gives exactly those quoted strings |
| ConfText.ListRoundTrip | click-cc/confparse.cc:709-826 | joining quoted strings, splitting and unquoting gives back exactly the list |
| ConfInteger.AddDigit | click-cc/confparse.cc:1115-1130 | the divisionless split step is exactly val*base+digit, with no wrap-around on the way, or overflow exactly when that needs more than 64 bits |
| ConfInteger.ReadDigits | click-cc/confparse.cc:1097-1132 | the digit loop reads the whole run and knows its value, or that it needs more than 64 bits |
| ConfInteger.Limit | click-cc/confparse.cc:1141-1158 | the maximum for each size and sign, and the value kept below it |
| ConfInteger.Fit | click-cc/confparse.cc:1141-1176 | the stored bits mean the value clamped to the type, in two's complement, and overflow is reported exactly when clamping changed it |
| ConfInteger.BasicInteger | click-cc/confparse.cc:1064-1179 | for every text, base and size: the value of the digits clamped to the type, overflow exactly when clamped, and each rejection with nothing stored |
| ConfInteger.NumeralRoundTrip | click-cc/confparse.cc:1064-1179 | a number written in any base from 2 to 36, negative if the type is signed, is read whole and denotes that number |
| ConfIntegerText.HexRead | click-cc/confparse.cc:1064-1179 | after a sign, 0x or 0X and hexadecimal digits denote that number, under base 0 and under base 16 |
| ConfIntegerText.OctalRead | click-cc/confparse.cc:1064-1179 | under base 0, a leading zero makes the digits octal |
| ConfIntegerText.DecimalRead | click-cc/confparse.cc:1064-1179 | under base 0, other numbers are decimal |
| ConfIntegerText.BaseRead | click-cc/confparse.cc:1064-1179 | in a base given by the caller, a numeral with any sign denotes its number |
| ConfIntegerText.SpellingIgnored | click-cc/confparse.cc:1097-1132 | what digits denote depends on their values in order only, not on underscores |
| ConfIntegerText.CaseIgnored | click-cc/confparse.cc:1099-1105 | and not on letter case |
| ConfIntegerText.ReadWholeExactly | click-cc/confparse.cc:1097-1132 | a text is read to its end if and only if it holds only digits and single underscores that something follows |
| ConfReal10.LexNumber | click-cc/confparse.cc:1234-1283 | the digits before and after the point and the exponent, or rejection, for exactly the texts that `LexReads` and `LexedWasWritten` describe |
| ConfReal10Text.LexReads | click-cc/confparse.cc:1234-1283 | every text of the form sign, digits, point, digits, e or E, sign, digits is taken apart as it was written, the exponent with its sign, or is undefined exactly if the exponent is too large |
| ConfReal10Text.PowerOfNumeral | click-cc/confparse.cc:1259-1276 | any decimal numeral is such an exponent, worth the number it writes with its sign |
| ConfReal10Text.LexedWasWritten | click-cc/confparse.cc:1234-1283 | every text that is accepted is of that form, with those parts |
| ConfReal10.ExponentExactly | click-cc/confparse.cc:1259-1276 | reading the exponent is undefined if and only if the number its digits write exceeds 2147483599, and otherwise gives that number |
| ConfReal10.UndefinedExponent | click-cc/confparse.cc:1259-1276 | the text 1e2147483600 is such an input |
| ConfReal10.ReadWhole | click-cc/confparse.cc:1285-1304 | the value of the digits before the moved point, and overflow exactly when it needs more than 32 bits |
| ConfReal10.ReadFrac | click-cc/confparse.cc:1306-1326 | d digits after the point and whether the next one rounds up |
| ConfReal10.RoundUp | click-cc/confparse.cc:1328-1349 | the carry into the integer part and saturation |
| ConfReal10.ParseParts | click-cc/confparse.cc:1219-1349 | the whole parser for every input: rejection, rounding, saturation; what it makes of a written number is `PartsWritten` |
| ConfReal10Text.PartsWritten | click-cc/confparse.cc:1219-1349 | a written number gives its digits times ten to the power written, rounded half up to d digits and saturated, and is undefined exactly if the exponent leaves the machine's integers |
| Decimal.CutRounds | click-cc/confparse.cc:1328-1337 | cutting a numeral and adding one if the next digit is five or more is rounding half up |
| Decimal.RoundsToNearest | click-cc/confparse.cc:1328-1337 | that is the nearest multiple of the power of ten, the larger of two equally near ones |
| Decimal.CorrectlyRounded | click-cc/confparse.cc:1285-1343 | the kept value is the denoted number times 10^d, rounded half up, for every text that is read faithfully |
| ConfReal10.PartsCorrect | click-cc/confparse.cc:1219-1349 | for every underscore-free number, and every faithfully read one, the result is the exact value rounded half up to d digits, saturated with the overflow flag exactly when it does not fit |
| ConfReal10.ToScalar | click-cc/confparse.cc:1351-1364 | integer and fraction are joined without overflow on the way, saturated exactly when they need more than 32 bits |
| ConfReal10.ParseScalar | click-cc/confparse.cc:1394-1413 | the scaled 32-bit result for every input; what it makes of a written number is `ScalarWritten` |
| ConfReal10Text.ScalarWritten | click-cc/confparse.cc:1351-1413 | a written number gives the rounded value as one integer, or the largest one with the overflow flag exactly if that needs more than 32 bits |
| ConfReal10.ScalarCorrect | click-cc/confparse.cc:1351-1413 | the scaled result is the rounded value, or the maximum with the overflow flag exactly when that needs more than 32 bits |
| ConfReal10.ParseSigned | click-cc/confparse.cc:1461-1484 | sign handling and clamping to the signed range, for every input; what it makes of a written number is `SignedWritten` |
| ConfReal10Text.SignedWritten | click-cc/confparse.cc:1461-1484 | a written number with a minus sign or none gives the nearest signed 32-bit integer, with the overflow flag exactly if that is not the rounded value with its sign |
| ConfReal10.SignedCorrect | click-cc/confparse.cc:1461-1484 | the signed result is the number denoted, rounded half up, with its sign, moved to the nearest signed 32-bit integer, with the overflow flag exactly when that changed it |
| ConfReal10Unparse.Unparse | click-cc/confparse.cc:4756-4779 | the integer part, and a point and the fraction digits without trailing zeros unless the fraction is zero |
| ConfReal10Unparse.PrintedShortest | click-cc/confparse.cc:4756-4779 | the printed form has no needless zero in front, a point exactly if the fraction is not zero, and then at most d digits, the last of which is not zero |
| ConfReal10Unparse.UnsignedRoundTrip | click-cc/confparse.cc:4756-4779 | every 32-bit unsigned integer, printed with 0 to 9 fraction digits, is read back exactly and without overflow |
| ConfReal10Unparse.SignedRoundTrip | click-cc/confparse.cc:4781-4788 | the same for every signed integer above the least one |
| DecimalUnderscores.UnderscoresExact | click-cc/confparse.cc:1285-1343 | every text with the same underscores is rounded correctly (before saturation) if and only if the placement meets a condition on positions: none between the integer part's end and the moved point, none among the fraction digits read, none that decides the rounding, with two harmless exceptions |
| UnderscoreParts.UnderscoresExactParts | click-cc/confparse.cc:1285-1349 | for the saturated parts the condition is exactly: such a placement, or a point at least ten places past the end of the text |
| UnderscoreParts.ReadRightExactly | click-cc/confparse.cc:1219-1349 | every text that differs from a given one in digits only gets the right parts from the parser if and only if that condition holds of the given text |
| DecimalUnderscores.LexedSeparated | click-cc/confparse.cc:1237-1257 | in every text that parses, underscores stand between digits, which is all that the previous lemma asks |
| DecimalUnderscores.DocumentedExampleMisread | click-cc/confparse.cc:1540-1552 | the documented example with underscores and an exponent denotes 100 and is read as 1 |

## Left out

- Packet layout, Click ports and annotations, logging, handlers, element configuration, hello packets, traffic generators, ARP and IP packet rewriting, host-side encapsulation.
- Time to live in routing: forwarding is modelled without it; the loop-freedom bound says how much would be enough.
- Wall-clock time: timers are nondeterministic expiry steps in `Protocol`, explicit calls in the table classes, and absent where a theorem is about runs without expiry (`Construction`, `Levels`, `Convergence`, `SpanningTree`).
- VidStore.NetworkTopoVidAssignment.RemoveOutdated: the source erases entries while it iterates over them; the model takes every node to be visited.
- The multipath choice of another gateway before forwarding (routepacket.cc:90-134); the rotation it uses is modelled.
- The reverse maps from ids to nodes and from MAC addresses to host ids as inverses: the code keeps stale entries there.
- The controller's handling of a topology report beyond `AddAnEdge`, and the distribution of ids to switches.
- RoutePacket.RoutePacket.ReAim: that re-aiming settles where the network-level relation says assumes neighbor entries whose own interface id has a port; termination and the usable port do not.
- ControlElements.BuildRouteTable.RunTimer: assumes neighbor entries whose own interface id is known. For others the source adds that id to the interface table as a side effect of looking it up.
- SpanningTree.SentMeansDelivered: while counts still change, nothing is said of reports sent with a count above 17; on a converged tree `DeliveredExactly` covers all.
- Convergence.Converges: for runs without expiry. That level-k packets of a subtree are not lost during its phase, and that none is in flight at its start, at its middle and at its end, are assumptions about the run, spelt out in `Convergence.Done`; so is, for `RoundsConverge`, that a round is over before the next begins.
- Construction.AnswerCompletes: an answer that names the asker itself as gateway is not entered by the code; such a member has its own edge, which `TickCompletes` covers.
- ConfReal10.PartsCorrect: exponents that leave the signed 32-bit range have the outcome `Undefined`, as signed overflow in the source language does.
- ConfReal10Unparse.SignedRoundTrip: the least 32-bit integer is excluded, because its negation overflows in the source language.
- ConfReal10Text.PartsWritten: for digits without underscores; with underscores, `UnderscoresExactParts` says when the same holds.
- ConfMeaning.UnquotedMeans: a quoted part or byte string that nothing finishes is covered by `CommentsRemoved` but not here; a byte string that ends in a comment that nothing finishes is covered by neither, only by the skippers' contracts.
- ConfText.ArgVec: the argument list is a sequence that is returned, not a vector appended to in place.
- Binary fractions (`cp_real2` and its printer), unit suffixes, addresses, variable-argument parsing, file names, and space-separated lists.
- The simulators in Java and Python, apart from the id operations of `sim-py/veil.py` used as the bit-string specification.
