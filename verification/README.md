# RSSI tree routing on Contiki: a Dafny model

This project models the RSSI tree-routing protocol of `Lab3` and three smaller
algorithms of `contiki-examples`, and proves what they keep and compute.

**The protocol.** Each mote picks as parent the neighbour with the best
accumulated RSSI, forgets neighbours that fall silent, sends its routing table
as text to its parent, merges its children's tables into its own, and passes
data packets down to the child whose subtree holds the destination or else up
to the parent. The model has three levels:

- the library: the in-place table operations, the text printer and parser on
  `char` buffers, the recursive search (`TreeTable`, `TreeText`,
  `TreeRoundTrip`, `Subtree`, `PacketText`, `SinkStats`);
- one mote: `MoteProgram.Node` is the C program with its static arrays, pools
  and lists, one method per callback or process step, beaconing included; every
  method is tied to a step on values in `MoteModel`, and what it sends to what
  `Network` puts on the air;
- the network: `Network` lets any list of such steps happen in any order, over
  a set of all messages ever sent. A message in that set may be received late,
  repeatedly or never. Theorems quantify over every list of actions:
  provenance and parent choice (`Network`), what neighbour lists and queues hold
  (`Neighbours`, `Queues`), parent loops (`ParentLoops`), best paths and stale
  parents (`BestPath`, `StaleParents`), packet contents (`Delivery`), and, while
  parents stay within a fixed tree, what tables say, which paths packets take,
  when the network converges and when the sink's loss table is right
  (`FixedTree`, `TreePaths`, `Convergence`, `Converging`, `LossFigures`).

The smaller parts are the sensniff command parser (`Sensniff`), the Internet
checksum of `fakeuip.c` (`Checksum`), and the sequence-gap average of
`example-neighbors.c` (`SeqnoGap`).

**Assumptions.** A mote's address is its first byte; addresses are distinct and
non-zero, and byte 1 of an address is zero. `int` has 32 bits. Links are
measured with negative strength, and a mote does not hear its own beacons.
Callbacks and process steps do not interrupt each other. A child array is
modelled by the part below its count. `Packet.trail` is a history variable that
no step reads.

**Where code and comments disagree** the code is modelled and the difference is
a theorem:

- `Search_forwarder` is documented to return 0 for an unknown destination. On a
  cyclic table it does not return: `Subtree.ReturnsIffAcyclic` and
  `Subtree.ReturnsIffWalkArrives` say exactly when it does, and
  `ParentLoops.SearchCanHang` reaches such a table in thirteen steps of three
  motes. With a fixed tree it cannot happen (`TreePaths.SearchReturns`).
- `fakeuip.c` says that adding length and protocol cannot carry. That holds for
  every packet in a buffer of less than 65536 - protocol bytes, which is 65478
  for the only caller, `uip_icmp6chksum` (fakeuip.c:132-134); a carry needs a
  `uip_buf` larger than that. The result is right exactly when there is none:
  `Checksum.UpperLayerChksum`.
- The sink prints `seq_max - received` as the number lost. Below 65536 arrivals
  that is the number of packets that never arrived exactly when no number
  arrived twice and none is 0 (`SinkStats.LostCountsMissingIff`): number 1 heard twice is
  65535 lost, number 2 heard twice is none lost although number 1 is missing
  (`SinkStats.DuplicateBreaksLoss`). With fixed parents a number arrives twice
  only if one unicast is received twice (`LossFigures.SinkLossIsExactIff`).
- The debug output names a mote's parent as a valid one. A mote none of whose
  neighbours is eligible any more keeps its old parent and metric and goes on
  advertising it (tree_rssi_remote.c:159): `StaleParents.StaleParent`, for good
  and in a loop in `StaleParents.LoopForGood`. With neighbours known, parents and
  metrics are right exactly when no mote is in that state and none still waits
  for a beacon after an expiry: `BestPath.MetricIsBestPathIff`.
- The sensniff parser has no resynchronisation inside the magic: a stray first
  magic byte loses the request behind it (`Sensniff.RequestSeenIff`).

`dafny verify dfyconfig.toml` checks the whole project.

## Model

| member | source | states |
|---|---|---|
| TreeTable.AddChild | Lab3/tree_lib.c:128-161 | In place, the used part of the array becomes the table with the edge added; unused entries past it are untouched |
| TreeTable.AddEdgeEdges | Lab3/tree_lib.c:135-160 | Adding a child adds exactly that edge, or nothing when the entry or the array is full; no edge is ever dropped |
| TreeTable.AddEdgeGrows | Lab3/tree_lib.c:135-160 | Ids stay unique, children distinct, both capacities respected; entries keep their place and their children |
| TreeTable.WellFormedFits | Lab3/tree_lib.h:106-110 | The edge set of any well-formed table respects the limits of 20 parents and 8 children |
| TreeTable.MergeIsUnion | Lab3/tree_rssi_remote.c:492-502 | Merging is set union on edges if and only if the union fits the limits, a condition on the graph alone |
| TreeTable.AddedUnlessFull | Lab3/tree_lib.c:135-160 | When not everything fits, additions are served in order: each is in the result if and only if there was room for it when its turn came, and what is refused has no room in the end either |
| TreeTable.MessagesAnyOrder | Lab3/tree_rssi_remote.c:484-502 | When all they say fits, the same messages in any order and any repetition lead to the same edge set, their union with the old one |
| TreeText.Serialize | Lab3/tree_lib.c:42-76 | For every buffer length from 1 the buffer ends up holding the described text and remnant as a C string, and the returned length counts the text without the remnant; no index or 8-bit counter goes out of range |
| TreeText.Deserialize | Lab3/tree_lib.c:82-121 | For every C string the array receives the parsed entries, at most max_n, and nothing beyond them changes |
| TreeRoundTrip.TruncationIsSound | Lab3/tree_lib.c:43-76 | Whatever was cut off, the parser gets a prefix of the entries with the same ids, all but the last with all their children and the last with a prefix of them |
| TreeRoundTrip.FirstIdSurvives | Lab3/tree_lib.c:51-55 | A buffer of five characters or more never loses the first id |
| TreeRoundTrip.EntriesArriveIff | Lab3/tree_lib.c:83-121 | For every k, parsing returns the first k entries whole if and only if their full text is at most one character longer than the room before the NUL |
| TreeRoundTrip.WholeTableIff | Lab3/tree_lib.c:83-121 | Parsing returns the whole table, and nothing else, if and only if its full text is at most one character longer than the room before the NUL |
| TreeRoundTrip.ChildrenArriveIff | Lab3/tree_lib.c:43-76 | For every k and j, the first j children of entry k arrive if and only if the text up to them fits the room before the NUL |
| TreeRoundTrip.PrintedInFull | Lab3/tree_lib.c:43-76 | A table whose text fits is printed in full, with nothing behind the returned length |
| TreeRoundTrip.CutInHeader | Lab3/tree_lib.c:51-55 | When the id of an entry does not fit, the text is that of the entries before it, and the first characters of the id stay behind the returned length |
| TreeRoundTrip.CutInChildren | Lab3/tree_lib.c:57-72 | When a child or the last semicolon does not fit, the text ends with the children that do, the comma already printed, and a semicolon as far as there is room |
| TreeRoundTrip.LongEntry | Lab3/tree_lib.c:87-117 | An entry of any numbers, however many, is read with the low byte of each and its first eight children |
| TreeRoundTrip.TableExample | Lab3/tree_lib.c:39-41 | The format letter by letter, on a table with two entries |
| Subtree.FindInSubtree | Lab3/tree_lib.c:172-193 | Wherever the recursion returns, on cyclic tables too: true if and only if the destination is reachable from the root by zero or more listed edges |
| Subtree.SearchForwarder | Lab3/tree_lib.c:195-217 | Wherever the search returns, the first listed child from which the destination is reachable, else 0 |
| Subtree.HaltsIff | Lab3/tree_lib.c:195-217 | The search below a mote returns if and only if the search from the mote does, and always on a table acyclic below the mote |
| Subtree.ForwarderMeaning | Lab3/tree_lib.h:193-204 | 0 if and only if no child reaches the destination; otherwise the first listed child that does |
| Subtree.AnswersAreRight | Lab3/tree_lib.c:172-193 | On every table, cyclic or not, any answer the recursion gives agrees with reachability |
| Subtree.ReturnsIffAcyclic | Lab3/tree_lib.c:172-193 | For an absent destination the recursion returns if and only if no cycle lies below the start; acyclic tables need at most 256 nested calls |
| Subtree.ReturnsIffWalkArrives | Lab3/tree_lib.c:172-193 | For a present destination the recursion returns if and only if the walk that always enters the first child leading to it arrives, with no cycle below the children it skips |
| Subtree.TwoCycleNeverReturns | Lab3/tree_lib.c:172-193 | Two entries that list each other make the search for an absent id exceed every call depth |
| PacketText.HopRoundTrip | Lab3/tree_rssi_remote.c:261-276 | Over one hop the destination always survives, and the message survives if and only if the wrapped text is at most 31 characters |
| PacketText.TravelUnchanged | Lab3/tree_rssi_remote.c:608-616 | A packet that fits is unchanged by any number of hops |
| PacketText.GeneratedFits | Lab3/tree_rssi_remote.c:540-543 | Every generated packet fits, for all 16-bit sequence numbers and byte ids |
| PacketText.SinkReadsGenerated | Lab3/tree_rssi_remote.c:214-232 | After any number of hops the sink reads exactly the generated sequence number and source |
| PacketText.OtherTexts | Lab3/tree_rssi_remote.c:214-276 | A text without destination tag is kept whole and for its sender, a destination alone has an empty message, one without sequence tag counts for nothing, and the sink reads numbers of any size in 16 and 8 bits, with or without the header |
| PacketText.PacketExample | Lab3/tree_rssi_remote.c:540-543 | The format letter by letter, on one generated packet and its payload |
| PacketText.ReadHeader | Lab3/tree_rssi_remote.c:263-275 | The code walking the local buffer computes the unwrapping used above |
| PacketText.ReadSinkFields | Lab3/tree_rssi_remote.c:216-232 | The code walking the local buffer computes the sink fields used above |
| SinkStats.RecordArrival | Lab3/tree_rssi_remote.c:233-254 | In place, the table becomes the one that also counts this arrival |
| SinkStats.RecordKeepsOthers | Lab3/tree_rssi_remote.c:235-248 | An arrival changes only its source's entry; all others stay in place, a new one goes to the end, and a new source is ignored when the table is full |
| SinkStats.TallySummarises | Lab3/tree_rssi_remote.c:233-254 | For every list of arrivals: sources unique and at most 20, each with its number of arrivals (mod 65536) and its largest number; a source is missing only from a full table |
| SinkStats.LossIsMeaningful | Lab3/tree_rssi_remote.c:408-417 | If no number of a source arrived twice and none was 0, which a source sends only after 65535 others, the number printed as lost is the number of its packets up to seq_max that never arrived, and the percentage is that over seq_max, at most 100 |
| SinkStats.LostCountsMissingIff | Lab3/tree_rssi_remote.c:408-414 | For every list of arrivals the number printed as lost is the number of sequence numbers from 1 to seq_max that never arrived if and only if the superfluous arrivals are a multiple of 65536; below 65536 arrivals, if and only if no number arrived twice and none was 0; a source heard with number 0 only has percentage 0 |
| SinkStats.DuplicateBreaksLoss | Lab3/tree_rssi_remote.c:408-414 | A single packet, number q, heard twice: q - 1 are missing, q - 2 are printed as lost, and for number 1 this is 65535, with 65436 printed as percentage |
| MoteModel.HearBeaconStores | Lab3/tree_rssi_remote.c:131-144 | After a beacon the list holds the sender, in its old place or first, with exactly the path and link just heard, and everyone else unchanged; only a stranger met with a full pool is ignored |
| MoteModel.HearBeaconSelects | Lab3/tree_rssi_remote.c:126-165 | A beacon keeps the parent-choice invariant and the list's bounds and distinctness; every mote but the root then has the first of the best eligible neighbours as parent and its path as metric, or both as before if none is eligible |
| MoteModel.KeepaliveKeepsOthers | Lab3/tree_rssi_remote.c:117-118 | An expiry takes exactly that neighbour off the list; all others stay as they are, in order |
| MoteModel.KeepaliveSelects | Lab3/tree_rssi_remote.c:108-114 | An expiry keeps the invariant; parent and metric are reset exactly when the parent expired, and unchanged otherwise |
| MoteModel.PayloadIsBuffer | Lab3/tree_rssi_remote.c:443-465 | A control unicast carries the buffer up to one character more than the returned length, the NUL or the first of a cut header; a mote without a table sends its own id |
| MoteModel.SentTableIsCut | Lab3/tree_rssi_remote.c:443-465 | What the receiver parses is a cut of the sender's table, non-empty, headed by the sender's own id, and without invented edges, including the character sent past the returned length |
| MoteModel.SentTableWholeIff | Lab3/tree_rssi_remote.c:452-465 | The receiver parses the whole table if and only if its text has at most 128 characters |
| MoteModel.LearnsChildTable | Lab3/tree_rssi_remote.c:481-502 | One exchange end to end: if the text of the child's first k entries fits the buffer and the parent knows the rest already, the parent ends with everything the child knows and the edge to it if and only if the union fits; with all entries this is the whole table at once, otherwise a long table in pieces |
| MoteModel.MergeKeepsTable | Lab3/tree_rssi_remote.c:488-502 | After any merge the table is empty or headed by the mote's own id, well formed, and has lost nothing |
| MoteModel.MergeInOrder | Lab3/tree_rssi_remote.c:488-502 | Merging any cut of a message gives an initial part of what merging the whole message gives: the sender first, then its entries and their children in order |
| MoteModel.MergeTakesWhatFits | Lab3/tree_rssi_remote.c:492-502 | Every edge of a message is in the table after the merge, or there is no room for it; the edge to the sender is taken exactly when the table before had room |
| MoteModel.FateMeaning | Lab3/tree_rssi_remote.c:566-602 | A packet is delivered exactly at its destination; else it goes to the first listed child from which the destination is reachable, else to the parent, and is dropped only without either |
| MoteProgram.Node.constructor | Lab3/tree_rssi_remote.c:346-369 | Boot gives the initial state, with all slots free and no timer running |
| MoteProgram.Node.SendBeacon | Lab3/tree_rssi_remote.c:314-322 | The beacon carries the own id and the path metric, 0 at the root, as the network model sends it |
| MoteProgram.Node.HearBeacon | Lab3/tree_rssi_remote.c:126-165 | The list and pool code performs the beacon step; slots taken are exactly the list members, ids distinct, and a timer runs for exactly these |
| MoteProgram.Node.KeepaliveExpired | Lab3/tree_rssi_remote.c:101-122 | The timer callback performs the expiry step on the list and frees its slot and timer |
| MoteProgram.Node.SendTable | Lab3/tree_rssi_remote.c:436-465 | A control unicast goes to the parent exactly when there is one, with the payload the network model sends |
| MoteProgram.Node.ReceiveTable | Lab3/tree_rssi_remote.c:184-196 | The control slot is overwritten with the received C string, clipped to 127 characters |
| MoteProgram.Node.MergeSlot | Lab3/tree_rssi_remote.c:476-502 | The nested merge loops perform the merge step on whatever the slot holds |
| MoteProgram.Node.Generate | Lab3/tree_rssi_remote.c:532-548 | Only the origin generates; the number advances even when the pool is full, and then no packet is queued |
| MoteProgram.Node.ReceiveData | Lab3/tree_rssi_remote.c:198-278 | Reception counts the arrival at the sink and queues the unwrapped packet at the head, or drops it when the pool is full |
| MoteProgram.Node.RouteAll | Lab3/tree_rssi_remote.c:558-622 | Whenever the search returns for every queued packet, the router ends with the list empty and all packet slots free, giving every packet exactly one fate, that of the model, and sending for each forwarded one the payload of the network model |
| MoteProgram.Node.Route | Lab3/tree_rssi_remote.c:566-620 | One packet: its fate, and the text printed into send_buf with its NUL as the payload, never cut |
| Network.AlwaysInv | Lab3/tree_rssi_remote.c:101-517 | In every state of every run: selection, table and slot invariants at every mote, and every control message headed by its sender and carrying genuine edges only |
| Network.Provenance | Lab3/tree_rssi_remote.c:184-196 | In every run every edge p to c in any table is genuine: at some earlier step c unicast its table to p while p was its parent |
| Network.ParentChoice | Lab3/tree_rssi_remote.c:101-165 | In every run a parent is null or a listed neighbour that is a best eligible one with its path as metric, unless none is eligible any more; a non-root metric is strictly between -1000 and 0 exactly with a parent |
| Network.TablesGrow | Lab3/tree_lib.c:128-161 | Along every run tables only grow |
| Network.RootHeadsTable | Lab3/tree_rssi_remote.c:357-362 | In every state of every run the table of mote 1 is headed by mote 1, even while it knows nobody |
| Network.StepTouches | Lab3/tree_rssi_remote.c:101-622 | Every step leaves all parts of the mote alone but its own |
| Neighbours.ListIsLastHeard | Lab3/tree_rssi_remote.c:101-144 | In every run a mote's list holds exactly, for each neighbour, the path and link of the last beacon it took from it, until that neighbour's own expiry |
| Neighbours.HearingAllKnows | Lab3/tree_rssi_remote.c:131-144 | A mote that hears the present beacon of each of its at most ten neighbours, in any order and any number of times, knows them all as best paths assume |
| Queues.QueueStep | Lab3/tree_rssi_remote.c:272-278 | Every step but routing keeps the whole queue in order, and puts in front exactly the packet generated or received, if fewer than ten are queued |
| Queues.QueueConservation | Lab3/tree_rssi_remote.c:272-622 | In every run and at every mote the packets that came in are exactly those still queued followed by those routed, in order and with repetitions |
| Queues.QueuedUntilRouted | Lab3/tree_rssi_remote.c:560-563 | What is queued stays queued, behind newer packets, until the mote routes |
| Queues.RoutingSends | Lab3/tree_rssi_remote.c:560-620 | Routing puts on the air exactly one message for each queued packet with a next hop, to that hop and with its payload, and nothing else |
| ParentLoops.SettledIsLoopFree | Lab3/tree_rssi_remote.c:143-164 | In every reachable state in which every parent has a better metric than its child, following parents from a parented mote reaches mote 1 in fewer steps than there are motes |
| ParentLoops.UnsettledCanLoop | Lab3/tree_rssi_remote.c:101-122 | A run of eight steps after which two motes are each other's parent for any number of climbs |
| ParentLoops.SearchCanHang | Lab3/tree_lib.c:195-217 | A run after which a mote's table is cyclic below itself and its search for an absent destination exceeds every call depth |
| BestPath.MetricIsBestPathIff | Lab3/tree_rssi_remote.c:126-165 | In every reachable state in which each mote stores of its neighbours what they would beacon now: every mote has a parent just when some path to mote 1 is stronger than -1000, with the maximum over all paths of the summed link strengths as its metric, attained by following parents, if and only if every mote has a parent just when a listed neighbour is eligible |
| BestPath.NoPathIsMissed | Lab3/tree_rssi_remote.c:143-164 | In such a state, unless some mote still waits for a beacon after losing its parent, a path stronger than -1000 gives a parent and a metric at least as good; so a mote that keeps a parent with no eligible neighbour has no path |
| StaleParents.StaleParent | Lab3/tree_rssi_remote.c:159-164 | A run of seven steps after which every mote knows its neighbours and one keeps a parent and a metric although no path to mote 1 exists |
| StaleParents.WaitingMote | Lab3/tree_rssi_remote.c:108-114 | A run of six steps after which every mote knows its neighbours and one has no parent although it hears mote 1 |
| StaleParents.FreshBeaconsChangeNothing | Lab3/tree_rssi_remote.c:126-165 | Once every mote knows its neighbours and none waits, any number of further up-to-date beacons in any order leave every metric and stored path as it is; no mote gains or loses a parent, and one with no eligible neighbour keeps the same |
| StaleParents.LoopForGood | Lab3/tree_rssi_remote.c:143-164 | A run after which two motes that count down by what they hear from each other stay each other's parent under all further up-to-date beacons |
| FixedTree.KnowledgeFlowsUp | Lab3/tree_rssi_remote.c:476-502 | While parents are fixed, a mote knows only tree edges of its own subtree, and whatever it knows of a child's subtree the child knows too |
| TreePaths.PacketsGoUpThenDown | Lab3/tree_rssi_remote.c:566-622 | While parents are fixed, every packet under every interleaving climbs and then only descends, in at most depth(source) hops while climbing and depth(source) + depth(destination) in all |
| TreePaths.NeverBackUp | Lab3/tree_rssi_remote.c:566-622 | A packet once sent down is delivered or sent further down towards its destination, never up and never dropped by the router; only a mote without a parent drops |
| TreePaths.SearchReturns | Lab3/tree_lib.c:195-217 | While parents are fixed, no table is cyclic below its mote and the downstream search returns at every mote for every destination |
| Convergence.RoutesAlongTree | Lab3/tree_rssi_remote.c:581-602 | When every mote knows its subtree, the next hop is the tree's: down towards the destination if it is below, else up |
| Convergence.ArrivesAlongTree | Lab3/tree_rssi_remote.c:566-622 | Then a packet that is not lost reaches any destination and is delivered there, within depth(source) + depth(destination) hops |
| Convergence.CanArrive | Lab3/tree_rssi_remote.c:198-278 | From a converged state a packet queued anywhere can be brought by routing and reception steps alone, unaltered, into its destination's queue |
| Convergence.GeneratedCanBeDelivered | Lab3/tree_rssi_remote.c:522-622 | From every converged state of a run some continuation delivers the origin's next packet, with its sequence number, at the destination |
| Converging.TreeConverges | Lab3/tree_rssi_remote.c:429-517 | Every tree over usable links that the arrays hold (20 motes with children, 8 children each) and whose subtree texts fit 128 characters is reached by a run that keeps to it, with the strength of its tree path as the metric of every mote |
| Converging.ConvergesIff | Lab3/tree_lib.h:106-110 | For trees whose subtree texts fit, some run that keeps to the tree converges if and only if the arrays hold it |
| Converging.TreeUpToDate | Lab3/tree_rssi_remote.c:126-165 | For every tree over usable links a run that keeps to it makes what every mote stores of its tree link up to date, with every choice made |
| Converging.TreeDelivers | Lab3/tree_rssi_remote.c:522-622 | In every such tree with motes 8 and 17 some run from boot delivers a generated packet at mote 17 |
| Converging.StarConverges | Lab3/tree_rssi_remote.c:429-517 | The tree of motes 8 and 17 below mote 1 meets the limits and is reached |
| TextSize.TextLengthOfEdges | Lab3/tree_lib.c:43-76 | The length of the full text of a table that lists everyone once is a function of its edge set, whatever the order of entries and children |
| Delivery.PacketsAreAsGenerated | Lab3/tree_rssi_remote.c:534-544 | In every run, whatever parents and tables do, every queued packet is one the origin generated, unaltered, and only mote 17 delivers it |
| Delivery.SinkNeverOvercounts | Lab3/tree_rssi_remote.c:233-258 | In every run of fewer than 65536 generated packets the sink's table names no other source and seq_max is between 1 and the number generated |
| Delivery.SinkTableIsTally | Lab3/tree_rssi_remote.c:213-259 | In every run the sink's table is the tally of exactly the receptions it had, forwarded packets and full queues included |
| Delivery.OnlySinkCounts | Lab3/tree_rssi_remote.c:213 | In every run the table of every other mote stays empty |
| LossFigures.DistinctIffNoneRepeated | Lab3/tree_rssi_remote.c:198-259 | With fixed parents the sink hears no sequence number twice if and only if it receives no data unicast twice: each number reaches it on one path only |
| LossFigures.SinkLossIsExactIff | Lab3/tree_rssi_remote.c:403-417 | With fixed parents and fewer than 65536 packets generated and received, the number the sink prints as lost is the number up to seq_max that never arrived if and only if no data unicast was received twice, and then the percentage is exact |
| LossFigures.RepetitionMiscounts | Lab3/tree_rssi_remote.c:403-417 | A run of six steps with fixed parents, one packet generated and received twice, that ends with 65535 of one counted as lost |
| Sensniff.Process.ProcessIncomingData | contiki-examples/sensniff/sensniff.c:250-313 | The loop over the queued bytes continues the abstract run by exactly those bytes, executing the same commands |
| Sensniff.Process.TimeoutExpired | contiki-examples/sensniff/sensniff.c:99-105 | The timer callback is the timeout event of the abstract run |
| Sensniff.RequestsExecute | contiki-examples/sensniff/sensniff.c:250-313 | From the reset state, any concatenation of well-formed requests, however split into polls, executes exactly these commands in order with their data and ends reset |
| Sensniff.ProcessBatches | contiki-examples/sensniff/sensniff.c:315-343 | Successive polls of the program compute the run of the previous row |
| Sensniff.OnlyRequestsExecute | contiki-examples/sensniff/sensniff.c:250-313 | For every stream with timeouts anywhere, each executed command ends a complete contiguous well-formed request, in order, none overlapping, and the counter is below 4 and 0 outside the magic state |
| Sensniff.CommandBytes | contiki-examples/sensniff/sensniff.c:279-305 | Byte by byte: the six-byte request executes exactly for commands 0x81, 0x82 and 0x83, and every other command executes with one data byte behind the length 1 |
| Sensniff.FramesExecute | contiki-examples/sensniff/sensniff.c:250-313 | Any sequence of requests and malformed frames (a wrong magic or version byte, or a header with another length) executes exactly the requests in order and ends reset |
| Sensniff.StreamIsFrames | contiki-examples/sensniff/sensniff.c:250-313 | Every stream of bytes is such a sequence followed by the request in progress, so this is all the parser does |
| Sensniff.RequestSeenIff | contiki-examples/sensniff/sensniff.c:261-271 | A request is executed and consumed if and only if the parser is in its reset state when it begins |
| Checksum.Chksum | contiki-examples/ravenusbstick/fakeuip.c:78-107 | The carry loop computes the one's-complement sum of start value and big-endian words (section 2 of RFC 1071), for even and odd lengths |
| Checksum.OnesComplement | contiki-examples/ravenusbstick/fakeuip.c:88-105 | The result is congruent to the total modulo 65535 and 0 only for an all-zero total |
| Checksum.WordSumIsWeighted | contiki-examples/ravenusbstick/fakeuip.c:88-103 | What is summed counts bytes at even places 256 times and those at odd places once, an odd last byte included |
| Checksum.SplitAnywhere | contiki-examples/ravenusbstick/fakeuip.c:117-125 | Summing in pieces split at any even offset gives the same result |
| Checksum.AnyWordOrder | contiki-examples/ravenusbstick/fakeuip.c:78-107 | Permuting the words does not change the sum |
| Checksum.ByteOrderIndependent | contiki-examples/ravenusbstick/fakeuip.c:78-107 | Swapping the bytes of every word and of the start value swaps the bytes of the result (section 2 of RFC 1071) |
| Checksum.FilledInSumsToOnes | contiki-examples/ravenusbstick/fakeuip.c:78-107 | A packet whose zero checksum field is filled with the complement of its sum sums to all ones at the receiver |
| Checksum.WordChangeDetectedIff | contiki-examples/ravenusbstick/fakeuip.c:78-107 | Replacing one word goes unnoticed if and only if it swaps the two representations of zero in data not otherwise zero |
| Checksum.UpperLayerChksum | contiki-examples/ravenusbstick/fakeuip.c:109-128 | The result is the byte-swapped pseudo-header sum of section 8.1 of RFC 8200, with 0 sent as 0xffff, if and only if length plus protocol is below 65536 |
| Checksum.UpperLayerExact | contiki-examples/ravenusbstick/fakeuip.c:117-119 | Losing the carry of length plus protocol changes the result for every packet |
| Checksum.PseudoSumIsHeaderSum | contiki-examples/ravenusbstick/fakeuip.c:115-125 | The sum of length, protocol, addresses and data is the word sum of the 40-byte pseudo-header of section 8.1 of RFC 8200 and the data |
| SeqnoGap.Neighbors.BroadcastRecv | contiki-examples/rime/example-neighbors.c:135-192 | The list becomes the one updated for this broadcast, signal fields included, or is unchanged for a seventeenth sender |
| SeqnoGap.ReceiveKeepsOthers | contiki-examples/rime/example-neighbors.c:146-177 | A broadcast changes only its sender's entry; all others stay in place, a new one goes to the end, and a stranger is ignored when the pool is full |
| SeqnoGap.AverageExact | contiki-examples/rime/example-neighbors.c:185-189 | The 32-bit arithmetic never wraps and the average stays at most 255*256 |
| SeqnoGap.StepTowards | contiki-examples/rime/example-neighbors.c:184-189 | With gap g each step moves monotonically towards 256*g without crossing it, and stands still exactly on 256*g - 3 to 256*g |
| SeqnoGap.ConstantGapSettles | contiki-examples/rime/example-neighbors.c:184-189 | A constant gap settles the average for good, on 256*g - 3 from below and 256*g from above, within as many packets as it was away |
| SeqnoGap.TableTracks | contiki-examples/rime/example-neighbors.c:146-177 | Over every run each of the first 16 senders has one entry, the one its own packets alone produce |
| SeqnoGap.EntryMeaning | contiki-examples/rime/example-neighbors.c:170-192 | Over every run of one sender the entry keeps the last number and its RSSI and LQI, the gaps add up to last minus first plus one modulo 256, and the average is in range |
| SeqnoGap.EntryAverage | contiki-examples/rime/example-neighbors.c:184-189 | Each further packet makes the average of its sender 64 times the gap to its last number plus three quarters of the average before |
| SeqnoGap.ConstantGapEntry | contiki-examples/rime/example-neighbors.c:184-192 | A sender whose numbers advance by the same gap has the iterated average as its own, and settles on the limit of that gap |
| SeqnoGap.NoLossKeepsUnity | contiki-examples/rime/example-neighbors.c:170-192 | Packets in unbroken order keep the average at one across wraps of the number |

## Left out

- MoteProgram.Node.RouteAll: requires that the search returns for every queued packet, because the code hangs otherwise; the network model lets such a mote go on with the ideal answer, which allows more behaviour than the code.
- Converging.ConvergesIff: decides trees whose subtree texts fit the message buffer. The buffer is not a necessary limit: a longer table can be learned in pieces (`MoteModel.LearnsChildTable`), which depends on the order in which the edges came up; in which longer trees some order works is not decided.
- Text.Atoi: does not model numbers beyond the range of `int`, where C leaves the result open; the model continues with the unbounded value.
- Delivery.SinkNeverOvercounts: is stated below 65536 generated packets, because the 16-bit number wraps there, and so is LossFigures.SinkLossIsExactIff.
- Posted events are not counted: the handler of the control slot and the router may run at any time and any number of times, which includes lost and repeated events.
- The packet buffer, radio, Rime connections, timers and random delays are not part of this model; payloads are the characters behind the type byte, and a packet buffer of 128 bytes would cut only the character the receiver clips anyway.
- MEMB and LIST are modelled as slots, a set of slots in use, and a list of slot numbers; their own code is not part of this model.
- The Trickle interval, LEDs, power tracing and printing have no effect on the modelled state.
- `sent_uc` and `printf_hello` hold no logic.
- The receive queue of sensniff is the list of bytes available at a poll; bytes lost to a full queue never reach the parser. Replies and the radio calls behind them are left out.
- The other functions of `fakeuip.c` and the unicast half of `example-neighbors.c` would add easy members only.
- Earlier versions of the protocol in other folders repeat the same code.
