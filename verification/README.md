# A verified model of the DNI core

This project models four parts of DNI, a network-traffic analysis framework with a
C++ engine and a Go SDK, and proves what they promise.

1. **CIDR blocks.** A block is an aligned run of 2^k addresses (section 3.1 of RFC 4632).
   `Blocks.dfy` proves that a list of blocks which ascends, does not overlap and holds
   no two halves of one block is determined by the addresses it covers, and that it is
   the shortest list with that cover. The recursive splitter of the C++ engine
   (`Splitter.dfy`), its list reducer (`CidrMerge.dfy`), the greedy byte-array loop of
   the Go SDK (`ByteAddress.dfy`, `GreedyNets.dfy`) and its sort-and-fuse merge
   (`RangeMerge.dfy`) are each proved to return that list, hence to agree with one
   another. `IPNetSet.dfy` is the Go index with three redundant views.
2. **Graphs.** `KahnOrder.dfy` and `GraphEdges.dfy` are the Go configuration checks.
   `NodeNames.dfy` and `GraphConfig.dfy` are the C++ node names and stream wiring,
   `GraphRun.dfy` is one run of the graph and `Schedules.dfy` the edges given to the
   executor: when the names in the configuration are safe, every schedule the executor
   may pick gives the same result, and for any names it is stated exactly when.
3. **The timestamp synchroniser.** `StreamSync.dfy` has the stream manager and the set
   that decides which timestamp is complete; `StreamRuns.dfy` proves safety of all runs
   and that closing all streams ends them.
4. **Attack sources and the slot ring.** `AttackSources.dfy` and `PacketBuckets.dfy` are
   the Go stages that turn a count map into networks and count packets per network;
   `SourceMergeTask.dfy` is the C++ version of the stages, compared with the Go one.
   `SlotRing.dfy` is the shared-memory ring with 32-bit offsets.

`Bits.dfy` and `Counting.dfy` hold the arithmetic and counting facts the others use.
Pure code of the source is functions and lemmas here; code that updates variables,
arrays or objects is methods and classes, proved against specification functions.

## What the proofs found

- The comment at `dni/framework/formats/cidr.cc:123-126` is right: 62 blocks, 125 calls
  and depth 32 are upper bounds for every range, and the range it names attains them.
- Canonical node names need not be distinct: nodes `a`, `a` and `a_0` become `a_0`, `a_1`
  and `a_0` (`NodeNames.NamesCollide`). They are distinct exactly when no base name used
  once has the form `c_k` with `c` repeated and `k` below its number of occurrences
  (`NodeNames.DistinctExactly`). With such a collision the edges of one node land on the
  task of another, and two schedules of those three nodes give different results
  (`Schedules.CollisionBreaksAgreement`).
- Two orders of the nodes give one result for all tasks and states exactly when every
  node stands on the same side of its feeders in both (`GraphRun.AgreeExactly`). Where
  there is a schedule, all schedules do exactly when the executor's edges lead between
  every node and its feeders (`Schedules.IndependentExactly`).
- With safe names, a graph whose node reads its own output has no schedule at all;
  otherwise declaration order is one (`Schedules.DeclarationOrder`).
- Sync on an ended stream does not hand over the last datum; on other streams it hands
  over everything (`StreamSync.SyncOne`, with an input in `StreamSync.ClosedStreamLoses`).
- In the /16 stage an address can leave the count map without being covered by any
  network. Go covers it exactly when its /16 has many addresses or some address of it
  lies in a /24 that starts no earlier (`AttackSources.IPSuspectFW2`, with an input in
  `AttackSources.LostAddress`). C++ stores third bytes in 8 bits after masking, which
  makes them zero, so it covers it exactly when its /16 has many addresses or it lies in
  the first /24 (`SourceMergeTask.Stage16`, with an input in
  `SourceMergeTask.LostAddress16`).
- The Go merge task empties the leftover map exactly when the leftovers are random, so
  no packet is ever counted as random (`PacketBuckets.MergeAndCount`, with an input that
  is random and has leftovers in `PacketBuckets.RandomPacketLost`).
- The ring's 32-bit distance formula is right exactly when `tail - head + size` stays
  below 2^32, which holds for every ring of at most 2^31 bytes (`SlotRing.UsedExact`). A
  write into the last free slot makes the ring look empty and loses every unread slot
  (`SlotRing.Ring.Write`).

## Model

| member | source | states |
|---|---|---|
| `Blocks.NestedOrApart` | dni/go/sdk/utils/cidr.go:326-347 | two aligned blocks are nested or disjoint, whatever their sizes |
| `Blocks.InsideOne` | dni/framework/formats/cidr.cc:47-69 | maximality: a block whose addresses a canonical list covers lies inside one member of it |
| `Blocks.Unique` | dni/framework/formats/cidr.cc:71-94 | two canonical lists that cover the same addresses are the same list |
| `Blocks.Shortest` | dni/framework/formats/cidr.cc:71-94 | no list of blocks, ordered or not, overlapping or not, covers the same addresses with fewer members |
| `Blocks.TilingCanonical` | dni/go/sdk/utils/cidr.go:93-108 | taking the largest fitting block each time gives a canonical list that covers exactly the range |
| `Blocks.TilingUnique` | dni/framework/formats/cidr.cc:128-184 | any canonical list that covers a range is its tiling |
| `Blocks.BlockRoundTrip` | dni/go/sdk/utils/cidr.go:93-121 | a block turned into a range comes back as that one block |
| `Splitter.Netmask` | dni/framework/formats/cidr.cc:107-114 | the mask is 2^w minus the block size, without shifting by the full width |
| `Splitter.Broadcast` | dni/framework/formats/cidr.cc:116-117 | the last address of the block that holds the address |
| `Splitter.Network` | dni/framework/formats/cidr.cc:119-120 | the first address of the block that holds the address |
| `Splitter.HalvesOfNet` | dni/framework/formats/cidr.cc:98-105 | setting the next bit of a block's address gives its upper half, and both halves are blocks |
| `Splitter.SplitCorrect` | dni/framework/formats/cidr.cc:128-184 | on every block and every range inside it the recursion succeeds and returns the tiling of the range, within bounds on blocks, calls and depth that depend on which ends the range meets |
| `Splitter.SplitRejects` | dni/framework/formats/cidr.cc:128-184 | an inverted range is rejected from every block |
| `Splitter.SplitFromRoot` | dni/framework/formats/cidr.cc:128-184 | from the whole space the call succeeds exactly when lo <= hi, and then returns the tiling |
| `Splitter.SplitBounds32` | dni/framework/formats/cidr.cc:122-127 | at most 62 blocks, 125 calls and depth 32 for every range |
| `Splitter.WorstCase` | dni/framework/formats/cidr.cc:122-127 | a block with k host bits, without its two end addresses, takes exactly 2k-2 blocks, 4k-3 calls and depth k |
| `Splitter.WorstCase32` | dni/framework/formats/cidr.cc:122-127 | 0.0.0.1 to 255.255.255.254 takes 62 blocks and 125 calls |
| `Splitter.IprangeToCidrsCorrect` | dni/framework/formats/cidr.cc:186-211 | the canonical cover of the range from the network address of `from` to the broadcast address of `to`; empty exactly when that range is empty |
| `CidrMerge.ChildIsWithin` | dni/framework/formats/cidr.cc:11-20 | the shift test holds exactly when b's block lies inside a's |
| `CidrMerge.UnionIsSiblings` | dni/framework/formats/cidr.cc:22-29 | the shift test holds exactly when the two prefixes are the halves of one block |
| `CidrMerge.FirstStepMerge` | dni/framework/formats/cidr.cc:31-45 | on a sorted list: what is left ascends without overlap and covers the same addresses |
| `CidrMerge.SecondStepMerge` | dni/framework/formats/cidr.cc:47-69 | terminates although it steps back, never shifts by 32, and leaves the canonical list with the same cover |
| `CidrMerge.CidrMerge` | dni/framework/formats/cidr.cc:71-94 | the canonical cover of exactly the keys of the map, and no list of blocks with that cover is shorter |
| `ByteAddress.CompareIsNumeric` | dni/go/sdk/utils/cidr.go:157-162 | comparing byte slices of one length is comparing the numbers they stand for |
| `ByteAddress.AllFFIsLast` | dni/go/sdk/utils/cidr.go:171-178 | true exactly for the last address of the family |
| `ByteAddress.PrefixLength` | dni/go/sdk/utils/cidr.go:180-188 | for any length, the position just past the highest set bit, or 0 for the zero address |
| `ByteAddress.TrailingZeros` | dni/go/sdk/utils/cidr.go:190-198 | for any length, the number of low zero bits |
| `ByteAddress.LastIP` | dni/go/sdk/utils/cidr.go:200-211 | the number with all bits outside the mask set |
| `ByteAddress.AddOne` | dni/go/sdk/utils/cidr.go:213-225 | one more modulo 2^(8n), with the carry through 0xff bytes |
| `ByteAddress.XorBytes` | dni/go/sdk/utils/cidr.go:227-234 | exclusive or of the numbers |
| `ByteAddress.MaskValue` | dni/go/sdk/utils/cidr.go:93-108 | a prefix mask of `ones` bits stands for 2^(8n) minus the block size |
| `ByteAddress.UitonRoundTrip` | dni/go/sdk/utils/ip.go:316-324 | a number turned into four bytes and back is unchanged |
| `ByteAddress.NtouiRoundTrip` | dni/go/sdk/utils/ip.go:316-324 | four bytes turned into a number and back are unchanged |
| `ByteAddress.UitonOrder` | dni/go/sdk/utils/ip.go:321-324 | the byte forms compare as the numbers do |
| `GreedyNets.PrefixIsLargestFit` | dni/go/sdk/utils/cidr.go:96-101 | the maximum of the two prefix lengths names the largest block that starts at s and fits, also when the range ends at the last address and addOne wraps |
| `GreedyNets.ToIPNets` | dni/go/sdk/utils/cidr.go:93-108 | for addresses of any length the loop terminates and returns the tiling of the range |
| `RangeMerge.Sort` | dni/go/sdk/utils/cidr.go:249-257 | the same ranges, ordered by family and start |
| `RangeMerge.SortAndMerge` | dni/go/sdk/utils/cidr.go:259-293 | the same addresses of every family, in ascending ranges with a gap between any two of one family |
| `RangeMerge.ConvertBatch` | dni/go/sdk/utils/cidr.go:236-247 | for every family the tilings of its ranges, one after the other |
| `RangeMerge.TileAllCanonical` | dni/go/sdk/utils/cidr.go:236-293 | the tilings of separated ranges of one family form one canonical list of their union |
| `RangeMerge.MergeIRanges` | dni/go/sdk/utils/cidr.go:302-305 | for every family, mixed or not, the canonical and shortest cover of the union of its ranges; no family is added |
| `RangeMerge.MergeBothWays` | dni/framework/formats/cidr.cc:71-94 | the C++ and the Go merge of one address set return the same blocks, the canonical cover of the set |
| `RangeMerge.SplitBothWays` | dni/framework/formats/cidr.cc:128-184 | the C++ splitter and the Go loop return the same blocks for every lo <= hi |
| `IPNetSets.IPNetToRange` | dni/go/sdk/utils/cidr.go:116-121 | masking gives the first and the last address of the block |
| `IPNetSets.CompareCIDRCorrect` | dni/go/sdk/utils/cidr.go:326-347 | 0, -1, 1 and -2 mean equal, inside, containing and disjoint, each exactly |
| `IPNetSets.AddCoversUnion` | dni/go/sdk/utils/ip.go:65-145 | after an insertion the covered addresses are the old ones and those of the block |
| `IPNetSets.AddKeepsApart` | dni/go/sdk/utils/ip.go:65-145 | an insertion keeps all members pairwise disjoint |
| `IPNetSets.DeletesPrefix` | dni/go/sdk/utils/ip.go:147-163 | deletion removes a prefix of its arguments, distinct members all, and stops only at the end or at an argument that is not, or no longer, a member |
| `IPNetSets.DeleteKeepsApart` | dni/go/sdk/utils/ip.go:147-163 | so does a deletion, and it adds nothing |
| `IPNetSets.RunSnoc` | dni/go/sdk/utils/ip.go:65-163 | a run does its operations in order |
| `IPNetSets.RunKeepsApart` | dni/go/sdk/utils/ip.go:65-163 | so does every sequence of insertions, deletions and clearings |
| `IPNetSets.IPNetSet.constructor` | dni/go/sdk/utils/ip.go:46-51 | an empty index whose views agree |
| `IPNetSets.IPNetSet.Add` | dni/go/sdk/utils/ip.go:59-145 | the three views still agree, the ranges ascend, the members are the old ones with those inside n replaced by n unless one contains n; the deleted list holds exactly those once each, and insertion is reported exactly when no member contained n |
| `IPNetSets.IPNetSet.DropSinglesInside` | dni/go/sdk/utils/ip.go:93-105 | exactly the /32 members inside n leave two of the views |
| `IPNetSets.IPNetSet.Place` | dni/go/sdk/utils/ip.go:110-124 | n, apart from all members, enters the right views at its place |
| `IPNetSets.IPNetSet.Absorb` | dni/go/sdk/utils/ip.go:125-139 | n takes the place of the run of ranges it contains |
| `IPNetSets.IPNetSet.Delete` | dni/go/sdk/utils/ip.go:147-163 | the views agree; some prefix of the arguments, distinct members all, is gone and nothing else, and the next argument, if any, is not a member |
| `IPNetSets.IPNetSet.LowerBound` | dni/go/sdk/utils/ip.go:176-178 | bisection finds the first range that starts no earlier |
| `IPNetSets.IPNetSet.Search` | dni/go/sdk/utils/ip.go:165-208 | the relation code and the index are right, and with code -2 the index is the place to insert |
| `IPNetSets.IPNetSet.Contains` | dni/go/sdk/utils/ip.go:225-240 | true exactly when some member is the block or contains it |
| `IPNetSets.IPNetSet.Perform` | dni/go/sdk/utils/ip.go:65-163 | after any sequence of calls the three views agree and all members are disjoint |
| `IPNetSets.IPNetSet.ClearAll` | dni/go/sdk/utils/ip.go:254-258 | all three views are empty |
| `KahnOrder.OrderMeansAcyclic` | dni/go/sdk/config/config.go:368-402 | a list of all nodes in which every edge points forward leaves no cycle |
| `KahnOrder.CycleInside` | dni/go/sdk/config/config.go:368-402 | a set of nodes in which each has a predecessor holds a cycle |
| `KahnOrder.IsExistLoop` | dni/go/sdk/config/config.go:368-402 | a loop is reported exactly when there is a cycle; without one the list holds every node once with every edge forward, with one a cycle runs through unlisted nodes |
| `GraphEdges.CollectOutputs` | dni/go/sdk/config/config.go:173-198 | succeeds exactly when no input repeats within a node and no output repeats anywhere, and then says which node owns each output |
| `GraphEdges.GetNodeEdge` | dni/go/sdk/config/config.go:319-343 | succeeds exactly when every input has a source; predecessor and successor maps are inverse to each other, and each output lists its readers |
| `GraphEdges.BuildGraph` | dni/go/sdk/config/config.go:161-219 | accepts exactly the configurations with distinct names, all inputs and outputs fed and no cycle, and returns a forward order of all nodes |
| `GraphEdges.GetSourceEdge` | dni/go/sdk/config/config.go:281-298 | for every graph input the nodes that read it in order, a node once for each time it lists the input |
| `GraphEdges.MentionsAreConsumers` | dni/go/sdk/config/config.go:281-298 | where no node repeats an input each reader is listed once |
| `GraphEdges.ConsumersAre` | dni/go/sdk/config/config.go:281-298 | a reader list holds exactly the readers, once each and in ascending order |
| `GraphEdges.PredecessorsAre` | dni/go/sdk/config/config.go:327-341 | the predecessors of a node are exactly the nodes with an output that it reads and that is not a graph input |
| `GraphEdges.MentionsAre` | dni/go/sdk/config/config.go:289-296 | a node is listed as often as it names the stream, and the list ascends |
| `GraphEdges.OneFeeder` | dni/go/sdk/config/config.go:161-298 | in an accepted configuration every node input is fed by exactly one graph input or node output |
| `StreamSync.InputStreamManager.PrepareForRun` | dni/framework/input_stream_manager.cc:24-29 | an empty queue and the first bound; the closed mark stays |
| `StreamSync.InputStreamManager.AddData` | dni/framework/input_stream_manager.cc:31-53 | the data are queued in order, the bound is one past the last of them, the closed mark stays |
| `StreamSync.AddedIsDrained` | dni/framework/input_stream_manager.cc:31-53 | data added before TIMESTAMP_END leave the stream open: a drain hands over all that was queued and all that was added |
| `StreamSync.InputStreamManager.Close` | dni/framework/input_stream_manager.cc:55-62 | the stream is closed, its queue stays, and an open stream gets the greatest bound |
| `StreamSync.InputStreamManager.Pop` | dni/framework/input_stream_manager.cc:65-75 | the head leaves the queue, or nothing changes when there is none |
| `StreamSync.InputStreamManager.PopAt` | dni/framework/input_stream_manager.cc:78-101 | everything up to ts leaves the queue, the datum at ts or an empty one is returned, the bound passes ts |
| `StreamSync.InputStreamManager.SetNextTimestampBound` | dni/framework/input_stream_manager.cc:132-140 | on an open stream the bound becomes the larger of the two, on a closed one it stays |
| `StreamSync.BoundsMove` | dni/framework/input_stream_manager.cc:132-140 | raising gives the larger bound on an open stream, closing the greatest; neither touches the queue |
| `StreamSync.TakenIs` | dni/framework/input_stream_manager.cc:85-91 | exactly the leading data that are not later than ts are taken |
| `StreamSync.PopMeans` | dni/framework/input_stream_manager.cc:78-101 | the leading data up to ts leave, the bound passes ts, and the last one taken is returned if it is at ts, else an empty one just before what is next |
| `StreamSync.SyncSet.GetReadiness` | dni/framework/input_stream_handler.cc:129-159 | readiness and the timestamp reported, by the least bound of the empty streams and the least head of the others, and what is remembered as processed |
| `StreamSync.SyncSet.SyncAt` | dni/framework/input_stream_handler.cc:161-177 | every stream is popped at ts into its own input |
| `StreamSync.SyncSet.Sync` | dni/framework/input_stream_handler.cc:179-198 | every stream is emptied into its own input |
| `StreamSync.DrainedKeepsValues` | dni/framework/input_stream_handler.cc:183-196 | what is handed over has the queued values in order and the timestamp just before the head |
| `StreamSync.EndedRefuses` | dni/framework/input_stream.cc:8-14 | an input that has ended refuses values and takes empty data |
| `StreamSync.SyncOne` | dni/framework/input_stream_handler.cc:183-196 | the stream is emptied; an input that has not ended takes all its data in order with one new timestamp, except the last datum of an ended stream |
| `StreamSync.ClosedStreamLoses` | dni/framework/input_stream_handler.cc:183-196 | a datum queued before the stream is closed leaves the queue and never reaches the input |
| `StreamSync.HandedOpen` | dni/framework/input_stream.cc:8-14 | an input that has not ended takes everything in order |
| `StreamRuns.MinFacts` | dni/framework/input_stream_handler.cc:129-144 | the two running minima are lower bounds and attained |
| `StreamRuns.PopOne` | dni/framework/input_stream_manager.cc:78-101 | popping at a timestamp that nothing precedes takes at most the head, and loses nothing |
| `StreamRuns.AdmissibleAfterAdd` | dni/framework/input_stream_manager.cc:31-53 | after data are added, a later datum is admissible exactly when it comes after the last one and before TIMESTAMP_END |
| `StreamRuns.OfferMeans` | dni/framework/input_stream_manager.cc:31-53 | an offer of increasing data at or above the bound is queued and admitted on its stream only |
| `StreamRuns.RunSnoc` | dni/framework/input_stream_handler.cc:129-177 | a run does its events in order |
| `StreamRuns.StepKeeps` | dni/framework/input_stream_handler.cc:129-177 | every producer move and every poll keeps the invariant |
| `StreamRuns.RunsAreSafe` | dni/framework/input_stream_handler.cc:129-177 | over every run: processed timestamps strictly increase, each batch holds data of its own timestamp only and at least one, and what a stream admitted is what its input saw, once each and in order, followed by what is queued |
| `StreamRuns.ProcessedIsComplete` | dni/framework/input_stream_handler.cc:129-159 | nothing at or before a processed timestamp can still be admitted |
| `StreamRuns.WaitIsJustified` | dni/framework/input_stream_handler.cc:145-159 | the set waits only when some empty stream may still admit a datum no later than every head |
| `StreamRuns.CloseMeansFinished` | dni/framework/input_stream_handler.cc:145-151 | close is reported exactly when all streams are empty and admit nothing more |
| `StreamRuns.CloseIsFinal` | dni/framework/input_stream_handler.cc:129-177 | after close everything admitted has been delivered, and no continuation admits or delivers more |
| `StreamRuns.EndedDrains` | dni/framework/input_stream_handler.cc:129-177 | once every stream has ended, as many polls as there are queued data report close with everything delivered |
| `StreamRuns.ClosingEnds` | dni/framework/input_stream_manager.cc:55-62 | closing all streams ends them and touches no queue |
| `StreamRuns.CloseThenDrain` | dni/framework/input_stream_handler.cc:129-177 | progress: after any run, closing all streams and polling often enough ends in close with everything admitted delivered |
| `StreamRuns.PollOnce` | dni/framework/input_stream_handler.cc:110-177 | readiness, SyncAt and the clearing of inputs on the objects are the poll of the state machine |
| `GraphRun.InputAt` | dni/framework/input_stream_handler.cc:179-198 | input i of a node is the drained queue of the i-th slot the node reads, and there are no others |
| `GraphRun.StepMeans` | dni/framework/node.cc:300-325 | the task has its new state, and each slot holds what it held, or nothing if the node reads it, followed by the very output of the node that it hangs on |
| `GraphRun.RunConcat` | dni/framework/graph.cc:327-333 | an order runs its nodes from left to right |
| `GraphRun.Commute` | dni/framework/node.cc:300-325 | two nodes of which neither feeds the other give the same state in either order |
| `GraphRun.OrderDoesNotMatter` | dni/framework/graph.cc:262-291 | two orders of the same nodes in which every node stands on the same side of its feeders leave the same queues, task states and observed outputs |
| `GraphRun.OppositeSidesDiffer` | dni/framework/node.cc:300-325 | orders with a node and its feeder the other way around differ for some tasks and state |
| `GraphRun.AgreeExactly` | dni/framework/graph.cc:262-291 | two orders give one result for all tasks and states exactly when every node stands on the same side of its feeders |
| `GraphRun.AddMirrors` | dni/framework/node.cc:66-105 | every output lists exactly the inputs and observers it feeds, once each |
| `GraphRun.Graph.Marshal` | dni/framework/input_stream_handler.cc:179-198 | the queues of the node's inputs are drained and no other queue changes |
| `GraphRun.Graph.Propagate` | dni/framework/output_stream_handler.cc:57-78 | output k of the node reaches every mirror of stream outBase + k once, and no other queue changes |
| `GraphRun.Graph.AddToInput` | dni/framework/graph.cc:460-480 | data of a graph input reach every mirror once and no other queue changes |
| `GraphRun.Graph.Process` | dni/framework/node.cc:300-325 | draining, the task and propagation are one step of the run |
| `GraphRun.Graph.RunOnce` | dni/framework/graph.cc:327-333 | the objects follow the run for any order |
| `NodeNames.CanonicalNodeName` | dni/framework/utils/names.cc:9-34 | the base name, with its running number when it is repeated |
| `NodeNames.CanonicalMeans` | dni/framework/utils/names.cc:9-34 | a node that shares its name, or its task when it has no name, with no other keeps it; otherwise it gets the number of earlier nodes that share it |
| `NodeNames.ParseToString` | dni/framework/utils/names.cc:33 | the digits stand for the number |
| `NodeNames.NumberedInjective` | dni/framework/utils/names.cc:9-34 | a numbered name determines the base name and the number |
| `NodeNames.DistinctExactly` | dni/framework/utils/names.cc:9-34 | canonical names are distinct exactly when no base name used once has the form c_k with c repeated and k below its count |
| `NodeNames.NamesCollide` | dni/framework/utils/names.cc:9-34 | a, a and a_0 become a_0, a_1 and a_0 |
| `GraphConfig.InitializeNodes` | dni/framework/graph_config.cc:91-112 | every node under its canonical name |
| `GraphConfig.ParsedGraphConfig.constructor` | dni/framework/graph_config.cc:247-301 | nothing is declared yet |
| `GraphConfig.ParsedGraphConfig.InitializeNodeStreams` | dni/framework/graph_config.cc:202-245 | one more node: its streams, base indices, upstream links and predecessors are those of the specification |
| `GraphConfig.ParsedGraphConfig.InitializeStreams` | dni/framework/graph_config.cc:247-301 | the whole configuration: graph inputs first, then output i of node v i places after its base under its own name, and likewise the inputs |
| `GraphConfig.OutputAtBase` | dni/framework/graph_config.cc:205-218 | output i of node v stands i places after the base of v, under its own name |
| `GraphConfig.GraphInputAt` | dni/framework/graph_config.cc:261-270 | graph input i is output stream i |
| `GraphConfig.InputAtBase` | dni/framework/graph_config.cc:221-242 | input i of node v stands i places after the base of v, under its own name, and hangs on the latest output of that name |
| `GraphConfig.BasesAdvance` | dni/framework/graph_config.cc:202-245 | the base of the next node follows the last stream of this one, so there are no other streams |
| `GraphConfig.LastIndex` | dni/framework/graph_config.cc:213-232 | the stream found has the name and no later one does |
| `GraphConfig.InLink` | dni/framework/graph_config.cc:222-242 | an input hangs on the latest output of its name among the nodes declared so far, its own included |
| `GraphConfig.WiringOk` | dni/framework/graph_config.cc:202-245 | the links of a configuration are a well-formed wiring |
| `GraphConfig.FeederIsPredecessor` | dni/framework/graph_config.cc:222-242 | a node that feeds another is declared no later and is in its predecessor set |
| `GraphConfig.PredecessorFeeds` | dni/framework/graph_config.cc:222-242 | every predecessor name is the name of a node that feeds the node |
| `GraphConfig.WiringAt` | dni/framework/node.cc:66-105 | the slot of an input is read by its node and fed by the output it hangs on; observed outputs come after |
| `Schedules.NamesDistinct` | dni/framework/graph_config.cc:25-28 | the registered names are distinct exactly when the names in the configuration are safe |
| `Schedules.Registered` | dni/framework/graph.cc:280-291 | a name stands for the first node that has it |
| `Schedules.PrecedenceEdges` | dni/framework/graph.cc:280-291 | the loops give exactly one edge from the first task of every predecessor name to the first task of the node's name |
| `Schedules.ScheduleRespects` | dni/framework/graph.cc:282-291 | with distinct names every schedule the precedence edges allow puts feeders first |
| `Schedules.SchedulesAgree` | dni/framework/graph.cc:282-291 | with safe names any two schedules give the same queues, task states and observed outputs |
| `Schedules.DeclarationOrder` | dni/framework/graph_config.cc:202-245 | with safe names declaration order is a schedule exactly when no node reads its own output; otherwise none exists |
| `Schedules.LeadsPrecedes` | dni/framework/graph.cc:282-291 | where edges lead from one task to another, every schedule runs the first one first |
| `Schedules.MayTurnAround` | dni/framework/graph.cc:282-291 | where they do not, some schedule runs the second one first |
| `Schedules.SchedulesAgreeExactly` | dni/framework/graph.cc:282-291 | whatever the names, all schedules agree on the sides of every node and its feeders exactly when edges lead between the two |
| `Schedules.IndependentExactly` | dni/framework/graph.cc:262-291 | whatever the names, all schedules give one result for all tasks and states exactly when edges lead between every node and its feeders |
| `Schedules.CollisionBreaksAgreement` | dni/framework/graph.cc:280-291 | nodes a, a and a_0: two schedules and tasks on which they give different results |
| `AttackSources.TotalSplit` | dni/go/sdk/utils/snding.go:148-166 | no count is lost between the entries taken out and the entries kept |
| `AttackSources.GetMinMax` | dni/go/sdk/utils/snding.go:118-130 | the least and the greatest value |
| `AttackSources.IPRangeToCIDR` | dni/go/sdk/utils/snding.go:132-139 | the tiling of the range |
| `AttackSources.GroupBy` | dni/go/sdk/utils/snding.go:168-184 | exactly the addresses of each segment and the sum of their counts |
| `AttackSources.Networks24Facts` | dni/go/sdk/utils/snding.go:201-223 | what a /24 turns into is determined, lies inside it without overlap and covers all its addresses |
| `AttackSources.SegmentNets24` | dni/go/sdk/utils/snding.go:201-223 | the whole /24 when its addresses span 200 or are many, else the tiling of their span |
| `AttackSources.SegmentNets16` | dni/go/sdk/utils/snding.go:264-286 | networks inside the /16 without overlap, and exactly which of its addresses they cover |
| `AttackSources.StageSeparates` | dni/go/sdk/utils/snding.go:148-288 | no address left in the map lies in a network of the stage, and counts are conserved |
| `AttackSources.IPSuspectFW4` | dni/go/sdk/utils/snding.go:148-165 | the addresses at or over the threshold leave as disjoint /32 networks that cover them all |
| `AttackSources.ChosenMeans` | dni/go/sdk/utils/snding.go:185-198 | a segment is chosen exactly when its count is above the threshold, or above half of it when there are at least so many segments |
| `AttackSources.IPSuspectFW3` | dni/go/sdk/utils/snding.go:168-224 | exactly the chosen /24 segments leave, and their addresses are covered by disjoint networks inside them |
| `AttackSources.IPSuspectFW2` | dni/go/sdk/utils/snding.go:227-288 | exactly the chosen /16 segments leave, the networks lie inside them without overlap, and exactly which addresses are covered |
| `AttackSources.LostAddress` | dni/go/sdk/utils/snding.go:264-286 | an address that leaves the map in the /16 stage and lies in no network |
| `AttackSources.InOneNetwork` | dni/go/sdk/utils/snding.go:148-224 | an address lies in at most one network of a stage |
| `PacketBuckets.IPSuspectRand` | dni/go/sdk/utils/snding.go:291-311 | known and frequent addresses leave; random exactly when the remaining counts reach the threshold |
| `PacketBuckets.MergeSources` | dni/go/sdk/task/snding/snd_attaker_ip_merge_task.go:44-89 | over all stages: no address left after the stages lies in a network, what left in the first two stages is covered, nothing outside the chosen segments is, and counts add up |
| `PacketBuckets.HistTotal` | dni/go/sdk/utils/snding.go:376-427 | a histogram adds up to the number of values |
| `PacketBuckets.SIPBaseMerge` | dni/go/sdk/utils/snding.go:376-427 | every bucket has exactly its packets, in order, with the five histograms of their fields |
| `PacketBuckets.BucketHolds` | dni/go/sdk/utils/snding.go:376-427 | a bucket exists exactly when a packet belongs to it, and lists exactly its packets, once each and in order |
| `PacketBuckets.BucketTallies` | dni/go/sdk/utils/snding.go:397-401 | each of the five histograms counts exactly the values of its own field over the packets of the bucket |
| `PacketBuckets.HistogramsSum` | dni/go/sdk/utils/snding.go:376-427 | the five histograms of a bucket each sum to its packet count |
| `PacketBuckets.TwoBuckets` | dni/go/sdk/utils/snding.go:376-427 | a packet is in two buckets exactly when random counting is on and its source is both left over and in a network |
| `PacketBuckets.BucketsAreDisjoint` | dni/go/sdk/utils/snding.go:376-427 | after the stages the position lists of different buckets have nothing in common |
| `PacketBuckets.MergeAndCount` | dni/go/sdk/task/snding/snd_attaker_ip_merge_task.go:76-88 | the task and then the counting: no packet is in two buckets, and none is in the random bucket |
| `PacketBuckets.RandomPacketLost` | dni/go/sdk/task/snding/snd_attaker_ip_merge_task.go:76-88 | a random leftover source whose packet is in no bucket |
| `SourceMergeTask.BelongsIsGroup` | dni/tasks/snding/attacker_ip_merge_task.cc:29-39 | the shift test holds exactly when the address lies in the segment |
| `SourceMergeTask.ThirdByteIsLost` | dni/tasks/snding/attacker_ip_merge_task.cc:402-410 | the third byte kept of an address is always zero |
| `SourceMergeTask.PickedMeans` | dni/tasks/snding/attacker_ip_merge_task.cc:191-217 | a segment is picked exactly when its count reaches the threshold, or the halved one when there are at least as many segments as the first asks for |
| `SourceMergeTask.PickedAndChosen` | dni/tasks/snding/attacker_ip_merge_task.cc:191-217 | C++ picks all segments Go chooses, and no other exactly when no count equals the limit |
| `SourceMergeTask.LastBytes` | dni/tasks/snding/attacker_ip_merge_task.cc:234-243 | the last bytes of exactly the addresses of the /24 |
| `SourceMergeTask.Segment24` | dni/tasks/snding/attacker_ip_merge_task.cc:230-298 | the networks of a /24 are those of the Go stage |
| `SourceMergeTask.BothWays24` | dni/tasks/snding/attacker_ip_merge_task.cc:230-298 | the same /24 gives the same networks in both programs, those of the specification |
| `SourceMergeTask.Segment16` | dni/tasks/snding/attacker_ip_merge_task.cc:395-451 | a /16 turns into itself when it has many addresses and into its first /24 otherwise |
| `SourceMergeTask.Stage32` | dni/tasks/snding/attacker_ip_merge_task.cc:121-150 | the addresses at or over the threshold leave as disjoint /32 networks that cover them all |
| `SourceMergeTask.Stage24` | dni/tasks/snding/attacker_ip_merge_task.cc:164-319 | exactly the picked /24 segments leave, and each of their addresses is covered by disjoint networks inside them |
| `SourceMergeTask.Stage16` | dni/tasks/snding/attacker_ip_merge_task.cc:330-472 | exactly the picked /16 segments leave, with networks inside them, and exactly which addresses are covered |
| `SourceMergeTask.LostAddress16` | dni/tasks/snding/attacker_ip_merge_task.cc:402-410 | an address that leaves the map in the /16 stage and lies in no network |
| `SourceMergeTask.Attackers` | dni/tasks/snding/attacker_ip_merge_task.cc:121-472 | stages 1 to 3: no leftover address lies in a network, and what left in the first two stages is covered |
| `SlotRing.UsedExact` | dni/go/service/generator/ringbuffer.go:73-77 | the 32-bit formula agrees with the branching one exactly when tail - head + size < 2^32 |
| `SlotRing.UsedSmallRing` | samples/ddos/realtime_with_sccm/all_net_detect_defense_with_sccm.cc:539-546 | it always does for a ring of at most 2^31 bytes |
| `SlotRing.LargeRingFails` | dni/go/service/generator/ringbuffer.go:73-77 | a larger ring on which it does not |
| `SlotRing.UsedIsUnread` | dni/go/service/generator/ringbuffer.go:73-77 | both formulas give the number of unread slots times the slot size |
| `SlotRing.NextOffset` | dni/go/service/generator/ringbuffer.go:65-81 | advancing an offset moves it to the next slot around the ring |
| `SlotRing.Ring.constructor` | dni/go/service/generator/ringbuffer.go:35-63 | attaching starts with nothing unread |
| `SlotRing.Ring.Write` | dni/go/service/generator/ringbuffer.go:65-71 | the slot at tail, overlaid with the data, is queued last and no queued slot changes; with no free slot left over, all unread slots are lost |
| `SlotRing.Ring.Read` | dni/go/service/generator/ringbuffer.go:73-81 | nothing exactly when nothing is unread, else the oldest unread slot; without an overrun, what was written is what was read followed by what is unread |
| `SlotRing.FullLooksEmpty` | dni/go/service/generator/ringbuffer.go:73-77 | a full ring has a used size of zero |

## Left out

Assumptions that the source does not check:

- Producers of the synchroniser offer data that increase within a call, lie at or above the stream's bound and before TIMESTAMP_END. `StreamRuns.Legal` says so.
- Blocks given to `IPNetSet` are canonical (masked), and the map given to `cidr_merge` is not empty.
- All streams of a node take part in readiness. The source's `GetIds` (dni/framework/default_input_stream_handler.cc:5-10) returns no stream, so as it stands readiness is always close.
- Ring sizes are multiples of the slot size and at most 2^31 bytes in `SlotRing.Ring`.

Not part of the model:

- StreamRuns.PollOnce: SyncAt has no caller in the source; its use after readiness follows the design of the synchroniser, and nodes use Sync.
- Schedules.DeclarationOrder: does not model predecessors that come from side data, here and in the other members of the module; they add edges.
- RemoveRange and splitCIDR: they change the last byte only, without borrow or carry, so they do not compute a set difference.
- String forms of addresses (parsing, JSON, file dumps): they rest on Go's net package; the model starts from numbers and byte slices.
- IPNetSets.IPNetSet.Add: range end points are numbers and masks are numbers of host bits, here and in the other methods of the class; `ByteAddress.UitonOrder` relates them to the byte forms.
- Stage 4 of the C++ merge task: it needs a sorted list of known addresses, which it does not sort.
- Thresholds computed by floating-point products are arbitrary integers here; the statistics, scores and DMS rules built on them are absent.
- GraphRun.Graph.Process: does not model the early close on a final context timestamp, which never arises because only timestamps ready for processing, all before TIMESTAMP_END, are pushed; nor failing tasks and cancellation.
- StreamSync.InputStreamManager.PrepareForRun: `closed_` has no initial value in the source, so the model keeps whatever it was.
- GraphRun.Graph.RunOnce: does not add graph input by itself; `GraphRun.Graph.AddToInput` does so between runs.
- The undefined shift for bit number 33 in `set_bit`: the next call rejects the length whatever it yields.
- Side data, option caching, tag maps, the task registry and Datum's dynamic typing.
- Internals of the queues and of the taskflow executor: a FIFO, and any order that respects the precedence edges.
- The Go node loop and its channels, packet parsing, shared-memory calls, gRPC, InfluxDB, ONNX and the Python parts.
