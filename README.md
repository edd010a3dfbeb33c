# A verified model of the nomos-node consensus core and its simulator

This project models, in Dafny, the parts of nomos-node that decide what a
Carnot node does in a round and how the simulator plays a round:

- **Vote tallies** of the consensus service. The happy-path tally collects
  votes for a block until enough distinct participating voters have voted.
  The mock tally of nomos-core counts votes for a view until it passes a
  threshold.
- **View progression** of the consensus service: resolving a view, the next
  view's seed and number, and the service loop that follows resolved rounds.
- **The mock network backend**: per-topic stores of plain and weighted
  messages, and the queries that read them back.
- **The simulated Carnot node's event builder**: it turns the messages a node
  receives into consensus events. The four per-view tallies fire exactly when
  a view's bucket reaches its threshold.
- **The full-binary-tree overlay**: committees, parents, children, roles and
  layers of the committee tree.
- **The consensus runner**: it plays every layer and every leader of a round
  and reports the reduced round time.
- **Simulated regions**, the per-view overlays, node identifiers, step times
  and the max-view ward.

Each core source file becomes one module, except `simulations/src/node/mod.rs`.
That file is split in two, `SimNode` and `SimOverlays`, so that the overlay
datatypes stay free of import cycles. Shared consensus types (blocks, votes,
certificates, timeouts and the network messages) live in `CarnotTypes`.
`Wrappers` holds `Option` and `Result`.

Code that mutates state is modelled with classes and loops:

- the event builder and its tallies;
- the consensus runner;
- the mock network backend;
- the counting node.

Each of these methods is proved against a specification function on values.
Pure code is modelled with functions and lemmas. Randomness is an input of the
model:

- the shuffled node list of `create_regions`;
- the nodes picked by `choose_multiple` for the tree;
- the per-view overlay draws;
- the node constructor of the runner.

The same goes for the behaviour of a node running its steps and for the
reducer.

Properties proved include the following:

- A tally bucket fires at exactly every `threshold`-th distinct message of its
  view, and carries exactly the last `threshold` messages. The timeout tally,
  created with threshold 0, never fires.
- The event builder passes proposals and timeout certificates through in
  order. Its current view is the maximum new-view view seen.
- The happy tally succeeds exactly when enough distinct participating voters
  voted. It returns the votes accepted up to the first vote that reached the
  threshold.
- The tree layout is a full binary tree: parent and children agree, roles
  follow children, and layers are the breadth-first ranges.
- The regions split places every node in exactly one region.
- Messages sent to the mock network are read back in send order.

## Model

| member | source | states |
|---|---|---|
| HappyTally.New | nomos-services/consensus/src/tally/happy.rs:41-43 | the tally keeps the settings it was made with |
| HappyTally.Tally | nomos-services/consensus/src/tally/happy.rs:45-93 | threshold 0 gives the block's QC with no votes; otherwise Ok exactly when at least `threshold` distinct participating voters voted for the block's view and id, and then the result is the block's QC with the votes accepted up to the first vote reaching the threshold; running out of votes gives StreamEnded |
| HappyTally.TallyStep | nomos-services/consensus/src/tally/happy.rs:62-80 | one more vote adds its voter and its vote exactly when it is for the block's view and id and comes from a participating node |
| HappyTally.FirstReachAt | nomos-services/consensus/src/tally/happy.rs:79-89 | the first prefix of votes that reaches the threshold is where the QC is issued, and the whole stream then reaches it too |
| HappyTally.VotersGrow | nomos-services/consensus/src/tally/happy.rs:79 | more votes never lose a voter from the seen set |
| HappyTally.OutcomeAccepted | nomos-services/consensus/src/tally/happy.rs:63-80 | every counted voter is a participating node and every outcome vote is for the block's view and id |
| HappyTally.RepeatedVoterNotCounted | nomos-services/consensus/src/tally/happy.rs:79-81 | a voter voting again adds nothing: the count is of distinct voters |
| HappyTally.VoterCounted | nomos-services/consensus/src/tally/happy.rs:79 | an accepted vote has its voter in the seen set from then on |
| MockTally.NewMockQc | nomos-core/src/vote/mock.rs:37-43 | a MockQc reports the count it was made with |
| MockTally.New | nomos-core/src/vote/mock.rs:54-57 | the tally takes its threshold from the settings |
| MockTally.Tally | nomos-core/src/vote/mock.rs:59-75 | Ok exactly when the first threshold+1 votes are all for the view, with a QC of threshold+1 votes; "Invalid vote" exactly when one of those votes is for another view; "Not enough votes" exactly when the stream ends first with all votes valid |
| ConsensusView.ZeroSeed | nomos-services/consensus/src/lib.rs:153-157 | the initial seed is 32 zero bytes |
| ConsensusView.GenerateNextView | nomos-services/consensus/src/lib.rs:331-339 | the next view has number +1, first seed byte +1, the other 31 seed bytes and the staking keys unchanged |
| ConsensusView.Id | nomos-services/consensus/src/lib.rs:321-323 | a view's id is its view number |
| ConsensusView.IsLeader | nomos-services/consensus/src/lib.rs:317-319 | every node takes itself for the leader |
| ConsensusView.PipelinedSafeBlock | nomos-services/consensus/src/lib.rs:326-329 | every block is taken as safe |
| ConsensusView.Resolve | nomos-services/consensus/src/lib.rs:212-246 | resolving succeeds with the round's block and the view generated from it, whose id is one more |
| ConsensusView.ViewAfter | nomos-services/consensus/src/lib.rs:153-157 | k steps from the initial view give view number k, first seed byte k, the rest zero and no staking keys |
| ConsensusView.Resolved | nomos-services/consensus/src/lib.rs:172-193 | no more rounds resolve than were played |
| ConsensusView.RunViews | nomos-services/consensus/src/lib.rs:153-195 | the service loop ends in the view as many steps from the initial view as rounds resolved; `Err` rounds model the loop's error arm, which `resolve` as written never reaches, and keep the view |
| ConsensusView.ResolvedPrefix | nomos-services/consensus/src/lib.rs:172-193 | fewer rounds never resolve more |
| MockNetwork.Lookup | nomos-services/network/src/backends/mock.rs:150 | the stored list of a topic, or the empty list when the topic is absent |
| MockNetwork.Append | nomos-services/network/src/backends/mock.rs:121-125 | the topic's list grows by the message at its end, created empty if absent; other topics keep theirs |
| MockNetwork.SendsInOrder | nomos-services/network/src/backends/mock.rs:119-125 | after a run of sends, a query of the topic gives the earlier list followed by the messages in send order; other topics are untouched |
| MockNetwork.EmptyLists | nomos-services/network/src/backends/mock.rs:98-114 | a new store has an empty list for each initial peer and nothing else |
| MockNetwork.Mock.constructor | nomos-services/network/src/backends/mock.rs:79-115 | both stores start with an empty list per initial peer |
| MockNetwork.Mock.Process | nomos-services/network/src/backends/mock.rs:117-162 | plain and weighted messages are appended to their own store only; queries answer the topic's list or the empty list and change nothing |
| EventBuilder.TallyStepFires | simulations/src/node/carnot/event_builder.rs:189-198 | tally_by fires exactly when the view's bucket plus the message reaches the threshold, returning that set and removing the bucket; otherwise the bucket keeps the message |
| EventBuilder.TallyStepOtherViews | simulations/src/node/carnot/event_builder.rs:189-198 | tally_by leaves every other view's bucket unchanged |
| EventBuilder.TallyStepDuplicate | simulations/src/node/carnot/event_builder.rs:190-193 | a message already in its bucket adds nothing |
| EventBuilder.ZeroThresholdNeverFires | simulations/src/node/carnot/event_builder.rs:171-175 | a threshold-0 tally, the default one, never fires |
| EventBuilder.TallyStepKeepsBelowThreshold | simulations/src/node/carnot/event_builder.rs:189-198 | with a positive threshold every stored bucket stays non-empty and below the threshold |
| EventBuilder.Feed | simulations/src/node/carnot/event_builder.rs:189-198 | feeding a run of messages to one view gives one answer per message |
| EventBuilder.FeedFiresEveryThreshold | simulations/src/node/carnot/event_builder.rs:189-198 | fed distinct messages of one view, the tally fires at exactly every threshold-th message with exactly the last threshold messages, and the bucket then holds the messages since the last firing |
| EventBuilder.FeedOutputAt | simulations/src/node/carnot/event_builder.rs:189-198 | the answer to the i-th message is Some exactly when i+1 is a multiple of the threshold, and then holds messages i+1-threshold to i |
| EventBuilder.FeedLastOutput | simulations/src/node/carnot/event_builder.rs:189-198 | the answer to the last message fires exactly when the count is a multiple of the threshold |
| EventBuilder.FeedSince | simulations/src/node/carnot/event_builder.rs:189-198 | after a run of distinct messages the view's bucket is the messages since the last firing |
| EventBuilder.FeedOtherViews | simulations/src/node/carnot/event_builder.rs:189-198 | feeding one view leaves other views' buckets unchanged |
| EventBuilder.FeedPrefix | simulations/src/node/carnot/event_builder.rs:189-198 | the answers to a prefix of the messages do not depend on the later ones |
| EventBuilder.SinceIsSuffix | simulations/src/node/carnot/event_builder.rs:189-198 | the messages since the last firing are the last (count mod threshold) messages |
| EventBuilder.Tally.constructor | simulations/src/node/carnot/event_builder.rs:178-183 | a new tally has an empty cache and the given threshold |
| EventBuilder.Tally.Default | simulations/src/node/carnot/event_builder.rs:171-175 | the default tally has an empty cache and threshold 0 |
| EventBuilder.Tally.TallyBy | simulations/src/node/carnot/event_builder.rs:189-198 | the cache and answer are those of tally_by on the old cache |
| EventBuilder.Tally.Tally | simulations/src/node/carnot/event_builder.rs:185-187 | tally is tally_by with the tally's own threshold |
| EventBuilder.FindBlock | simulations/src/node/carnot/event_builder.rs:99-103 | a found block is the first of the view's blocks with the vote's id; nothing is found exactly when no block has that id |
| EventBuilder.GenesisApprovalFirst | simulations/src/node/carnot/event_builder.rs:39-53 | step starts with the approval of the genesis block exactly when the engine has voted in no view and the node is in the leaf committee |
| EventBuilder.VoteWithoutQcIgnored | simulations/src/node/carnot/event_builder.rs:86-89 | a vote without a QC changes nothing and emits nothing |
| EventBuilder.VoteRouting | simulations/src/node/carnot/event_builder.rs:72-98 | a root-committee vote is tallied in the leader tally with the leader threshold, any other in the vote tally with the super-majority threshold; nothing else changes |
| EventBuilder.VoteEventsAtMostOne | simulations/src/node/carnot/event_builder.rs:98-129 | a vote emits at most one event, only for a known block of its view; it is ProposeBlock exactly for a root vote at the next leader, and an Approve carries the vote's QC and the found block |
| EventBuilder.StepMessageFilters | simulations/src/node/carnot/event_builder.rs:57-71 | a proposal message emits exactly its proposal, a timeout-QC message exactly its QC, and no other message emits either |
| EventBuilder.RunKeepsProposalsAndTimeoutQcs | simulations/src/node/carnot/event_builder.rs:55-71 | the proposals and timeout QCs emitted are those received, in order |
| EventBuilder.StepKeepsProposalsAndTimeoutQcs | simulations/src/node/carnot/event_builder.rs:33-163 | the same holds for step with its genesis approval |
| EventBuilder.StepMessageView | simulations/src/node/carnot/event_builder.rs:139-142 | only a new-view message moves the current view, to the max of the two |
| EventBuilder.RunCurrentViewIsMax | simulations/src/node/carnot/event_builder.rs:139-142 | the current view after a run is the maximum of the start view and every new-view message's view |
| EventBuilder.NoRootTimeoutAtZeroThreshold | simulations/src/node/carnot/event_builder.rs:131-138 | with the timeout tally at its default threshold 0, no RootTimeout is ever emitted |
| EventBuilder.EventBuilder.constructor | simulations/src/node/carnot/event_builder.rs:22-31 | a new builder has four empty tallies, current view 0 and the node's id |
| EventBuilder.EventBuilder.StepOne | simulations/src/node/carnot/event_builder.rs:56-159 | one message updates the tallies and view and emits the events of the message-step function |
| EventBuilder.EventBuilder.StepAll | simulations/src/node/carnot/event_builder.rs:55-160 | the loop over the messages ends in the state and events of the run function |
| EventBuilder.EventBuilder.Step | simulations/src/node/carnot/event_builder.rs:33-163 | step emits the genesis approval, if any, followed by the run's events, and ends in the run's state |
| TreeOverlay.GetTreeProperties | simulations/src/overlay/tree.rs:125-132 | committee count is 2^depth - 1 and node count is committee count times committee size |
| TreeOverlay.CommitteeCountIsLayerSum | simulations/src/overlay/tree.rs:134-138 | 2^depth - 1 is the number of committees in depth full layers |
| TreeOverlay.CommitteeCountDepthTen | simulations/src/overlay/tree.rs:210-211 | depth 10 gives 1023 committees |
| TreeOverlay.GetParentId | simulations/src/overlay/tree.rs:140-142 | a non-root committee's parent p has it as child 2p+1 or 2p+2 |
| TreeOverlay.ParentOfChildren | simulations/src/overlay/tree.rs:140-142 | the parent of c is p exactly when c is 2p+1 or 2p+2 |
| TreeOverlay.GetLayer | simulations/src/overlay/tree.rs:144-147 | committee id lies in layer k's range 2^k-1 to 2^(k+1)-2 |
| TreeOverlay.LayerUnique | simulations/src/overlay/tree.rs:144-147 | that layer is the only one whose range holds the id |
| TreeOverlay.Nodes | simulations/src/overlay/tree.rs:103-106 | the overlay's nodes are the ids 0 to node count - 1 |
| TreeOverlay.FileCommittee | simulations/src/overlay/tree.rs:57-89 | one committee is filed: its chunk of nodes and role, its children when its right child is within the count, its parent when not the root, and its layer |
| TreeOverlay.BuildFullBinaryTree | simulations/src/overlay/tree.rs:35-93 | the layout is the full binary tree of the chosen nodes |
| TreeOverlay.LayersComplete | simulations/src/overlay/tree.rs:86-89 | layers 0 to depth-1 exist and layer k lists ids 2^k-1 to 2^(k+1)-2 in order |
| TreeOverlay.RoleFollowsChildren | simulations/src/overlay/tree.rs:73-77 | the root is Root, a committee with children is Intermediate, any other Leaf; Root exactly at 0 |
| TreeOverlay.ParentAndChildrenAgree | simulations/src/overlay/tree.rs:58-71 | each child's parent is the committee listing it, and each committee is among its parent's children |
| TreeOverlay.DepthOneLayout | simulations/src/overlay/tree.rs:154-167 | depth 1 gives one committee and no links |
| TreeOverlay.DepthThreeLayout | simulations/src/overlay/tree.rs:169-240 | depth 3 gives the children, parents and roles the tests expect |
| TreeOverlay.DepthFourLayers | simulations/src/overlay/tree.rs:242-255 | depth 4 gives layers [0], [1,2], [3,4,5,6] |
| TreeOverlay.CommitteeSizeLayout | simulations/src/overlay/tree.rs:199-222 | depth 10 and size 10 over nodes 0.. give 1023 committees, the root holding nodes 0-9 and the last holding nodes 10220-10229 |
| ConsensusRunner.GetCommitteeNodes | simulations/src/runner.rs:103-110 | one pair (committee, node) per committee node, in order |
| ConsensusRunner.GetLayerNodes | simulations/src/runner.rs:96-101 | every pair names a listed committee and one of its nodes |
| ConsensusRunner.LayerNodesAppend | simulations/src/runner.rs:96-101 | the pairs of concatenated committee lists are the concatenated pairs |
| ConsensusRunner.LayerNodesComplete | simulations/src/runner.rs:96-101 | every node of every listed committee appears with its committee |
| ConsensusRunner.Play | simulations/src/runner.rs:70-84 | playing runs keeps the node set and yields one time per run |
| ConsensusRunner.PlayLeavesOthers | simulations/src/runner.rs:70-84 | a node not run keeps its state |
| ConsensusRunner.LeaderRuns | simulations/src/runner.rs:53-62 | each leader runs the leader steps |
| ConsensusRunner.LayerRuns | simulations/src/runner.rs:72-81 | each layer node runs the step set of its committee's role |
| ConsensusRunner.PlayLayers | simulations/src/runner.rs:64-87 | one time list per layer, as long as the layer's node pairs, and the node set kept |
| ConsensusRunner.RunShape | simulations/src/runner.rs:49-93 | the round keeps the node set and gives one time list per layer followed by one singleton per leader |
| ConsensusRunner.RoundTimeSplits | simulations/src/runner.rs:89-90 | the round time is the reduced layer times plus the reduced leader times |
| ConsensusRunner.Runner.constructor | simulations/src/runner.rs:29-47 | one node per node id of the layout, made by the node constructor |
| ConsensusRunner.Runner.Run | simulations/src/runner.rs:49-93 | the nodes end as the round specification says and the report is the sum of the reducer over the time lists |
| ConsensusRunner.Runner.PlayLeaders | simulations/src/runner.rs:53-62 | leaders run in order, each time wrapped in its own list |
| ConsensusRunner.Runner.PlayLayersInOrder | simulations/src/runner.rs:64-87 | the layers are played one after the other |
| ConsensusRunner.Runner.PlayLayer | simulations/src/runner.rs:70-84 | the nodes of a layer are played in order |
| Regions.New | simulations/src/network/regions.rs:30-43 | the regions and behaviours are kept, and exactly the listed nodes are mapped, each to a region listing it |
| Regions.NewNodeRegion | simulations/src/network/regions.rs:34-37 | a node listed in one region only is mapped to that region |
| Regions.NodeRegion | simulations/src/network/regions.rs:45-47 | the stored region of a known node |
| Regions.NetworkBehaviour | simulations/src/network/regions.rs:49-56 | the behaviour for the two regions in that order, or else in the opposite order |
| Regions.NetworkBehaviourSymmetric | simulations/src/network/regions.rs:49-56 | the lookup is symmetric when the two orientations do not disagree |
| Regions.RegionNodes | simulations/src/network/regions.rs:58-60 | the nodes stored for the region |
| Regions.CreateRegions | simulations/src/network/regions.rs:65-95 | each region but the last takes the next count of shuffled nodes and the last takes the rest; no other key is present |
| Regions.RegionsCoverNodes | simulations/src/network/regions.rs:169-173 | the regions' lists together are the shuffled list, so their total is the node count and they hold the input nodes |
| Regions.RegionsDisjoint | simulations/src/network/regions.rs:81-94 | with distinct node ids no node is in two regions |
| SimNode.NewNodeId | simulations/src/node/mod.rs:24-34 | inner gives back the wrapped id |
| SimNode.NodeIdFrom | simulations/src/node/mod.rs:36-40 | the conversion agrees with new |
| SimNode.NewCommitteeId | simulations/src/node/mod.rs:46-51 | the committee id wraps the integer |
| SimNode.CommitteeIdFrom | simulations/src/node/mod.rs:53-57 | the conversion agrees with new |
| SimNode.NewStepTime | simulations/src/node/mod.rs:64-79 | into_inner gives back the wrapped duration |
| SimNode.StepTimeFromMillis | simulations/src/node/mod.rs:81-84 | from_millis wraps that many milliseconds |
| SimNode.StepTimeFromSecs | simulations/src/node/mod.rs:86-89 | from_secs wraps 1000 times as many milliseconds |
| SimNode.Durations | simulations/src/node/mod.rs:106-110 | the durations wrapped by the step times, one per step time |
| SimNode.SumStepTimesAppend | simulations/src/node/mod.rs:106-122 | sums split over concatenation and the three Sum implementations agree |
| SimNode.TotalMillisAppend | simulations/src/node/mod.rs:118-122 | the sum of concatenated durations is the sum of the sums |
| SimNode.CountingNode.constructor | simulations/src/node/mod.rs:199-206 | the test node starts at its id |
| SimNode.CountingNode.Id | simulations/src/node/mod.rs:208-210 | the node's id wraps its current view |
| SimNode.CountingNode.Step | simulations/src/node/mod.rs:220-223 | a step advances the current view by one |
| SimOverlays.GenerateOverlays | simulations/src/node/mod.rs:130-148 | views 0 to count-1 each get their drawn overlay and no other key is present |
| SimOverlays.GetView | simulations/src/node/mod.rs:164-167 | the stored overlay of the view, or nothing exactly when none is stored |
| SimOverlays.GetAllNodes | simulations/src/node/mod.rs:169-172 | all the node ids of the state |
| SimOverlays.GeneratedViewsReadBack | simulations/src/node/mod.rs:130-167 | every generated view reads back as drawn and any later view reads as nothing |
| MaxViewWard.Analyze | simulations/src/warding/ttf.rs:14-22 | `analyze` returns true exactly when every node is below the maximum view |
| MaxViewWard.AllBelowEveryNode | simulations/src/warding/ttf.rs:14-22 | the verdict as written is true exactly when all nodes are below the maximum view, including when there are none |
| MaxViewWard.AllBelowFalseAt | simulations/src/warding/ttf.rs:16-19 | any node at or past the maximum view makes `analyze` return false |
| MaxViewWard.RebaseThreshold | simulations/src/warding/ttf.rs:60-69 | with maximum 10, `analyze` returns true for a node at 9 and false once a node at 11 is added |
| MaxViewWard.AsWrittenStopsBelowThreshold | simulations/src/warding/ttf.rs:5-22 | with maximum 10, `analyze` returns true (the runners' stop signal) for nodes all at view 0 and false for a node at view 11, the reverse of the intended trigger |
| MaxViewWard.AnalyzeIntended | simulations/src/warding/ttf.rs:5-6 | the intended ward returns true exactly when some node is at or past the maximum view |
| MaxViewWard.ReachedAt | simulations/src/warding/ttf.rs:5-6 | the intended verdict is true exactly when some node has reached the maximum view, and false with no nodes |
| MaxViewWard.ReachedIsNotAllBelow | simulations/src/warding/ttf.rs:14-22 | the intended verdict is the negation of the verdict as written |

## Left out

- Integer widths: `usize`, `u64` and `i64` counters are unbounded in the model. Overflow of `1 << depth` in `committee_count`, of `2 * committee_id + 1` and of sums of durations is not modelled. The seed byte and the view number of the consensus view are the exception: they are `u8` and `u64` (see the next line).
- ConsensusView.GenerateNextView: requires the first seed byte below 255 and the view number below the largest `u64`, so the overflow of the two increments (a panic in debug builds, a wrap to 0 in release builds) is not modelled.
- TreeOverlay.GetLayer: the source computes `floor(log2(id + 1))` in `f64`. The model uses the exact integer logarithm; rounding of `f64` for very large ids is not modelled.
- Regions.CreateRegions: the per-region counts `(node_count as f32 * distribution).round()` are inputs, as floating point is not modelled. The counts must fit the node list, since `drain` would panic otherwise.
- Regions.CreateRegions: requires at least one region. With none, `regions.len() - 1` underflows in the source: a panic in debug builds, and an empty map in release builds. Neither outcome is modelled.
- Regions.CreateRegions: the `regions` argument is the iteration order of the `network_settings.regions` `HashMap`. That order decides which region is last and so takes the remaining nodes; the model takes it as an input.
- Regions.NodeRegion: requires the node to be known; the source's `node_region[&node_id]` panics otherwise.
- Regions.RegionNodes: requires the region to be present; the source's `regions[&region]` panics otherwise.
- Regions.New: the source builds `node_region` from a `HashMap` in its iteration order, so a node listed under two regions gets an arbitrary one. The model takes that order as an input.
- ConsensusRunner.Runner.Run: the source visits `layout.layers.values()` in `HashMap` order. The model plays the layers in increasing layer order, so the layer time lists come out in that order.
- ConsensusRunner.Runner.Run: requires every leader to be one of the runner's nodes. The source panics on `get_mut(leader).unwrap()` otherwise, and nothing in `new` ties the leaders to the layout. Its `Runnable` precondition requires every layer committee to be in `layout.committees` and every committee node to be a runner node; the source panics on `layout.committees[committee_id]` and `get_mut(node_id).unwrap()` otherwise. These panics are not modelled.
- ConsensusRunner.Runner.PlayLeaders: requires every leader to be one of the runner's nodes; the source's `get_mut(leader).unwrap()` panics otherwise.
- ConsensusRunner.GetCommitteeNodes: requires the committee to be in the layout; the source's `layout.committees[committee]` panics otherwise.
- TreeOverlay.BuildFullBinaryTree: requires a positive committee size, since `chunks(0)` panics in the source. It also requires enough node ids, as the source's `assert!` does; the failing assertion is not modelled.
- Randomness is an input throughout: `shuffle` in `create_regions`, `choose_multiple` in the tree overlay and in `leaders`, the per-view overlay draws in `generate_overlays`, and the random source of `Node::new` in the runner.
- `Node::run_steps`, the node settings and the runner's reducer are function parameters. The simulated Carnot node and the flat overlay are not part of this model.
- CarnotRole: only `Root`, `Intermediate` and `Leaf` come from the tree. `Leader` stands for the other roles the runner's fallback arm covers.
- EventBuilder: the consensus engine is a snapshot of what `step` reads (highest voted view, committee membership, next-leader flag, thresholds, genesis block, blocks per view). The engine itself is not part of this model.
- EventBuilder: the proposal event carries the message's chunk bytes, because `Block::from_bytes` is not part of this model.
- EventBuilder: logging (`tracing`) is left out.
- HappyTally.Tally and MockTally.Tally: the asynchronous vote stream is a finite sequence. A stream that never ends is not modelled.
- HappyTally.Tally and MockTally.Tally: the `InvalidVote` and `InsufficientVotes` errors of the happy tally are declared but never returned by the source, and the model returns them nowhere either.
- ConsensusView.Resolve: the leader and non-leader paths depend on the overlay, the network adapter, the fountain code and the leadership service. These are not part of this model, so the round's block is an input.
- ConsensusView.Resolve: the commit rule is described only in a comment of the source and is not implemented there, so it is not modelled.
- ConsensusView.RunViews: the service loop runs forever. The model runs it over a finite sequence of round outcomes.
- ConsensusView.RunViews: the `MarkInBlock` message to the mempool is left out, along with the settings and relays.
- ConsensusView.RunViews: requires fewer than 255 resolved rounds. The 255th resolved round overflows the `u8` first seed byte in `generate_next_view`: in debug builds the service panics at view 255, in release builds the byte wraps to 0 and the loop goes on. Neither outcome is modelled.
- ConsensusView.RunViews: a failed `MarkInBlock` send leaves the loop through `?`, so the service's `run` returns `Err`. The model has no such exit; every resolved round moves the view.
- ConsensusView.RunViews: `resolve` never returns `Err`; its failures panic (`panic!("we are leader")` and the `unwrap()` calls on the leader, non-leader and network paths). Those panics are not modelled, and the `Err` rounds of the model stand for the loop's error arm, which is dead in the source.
- SimNode.StepTime: a step time is a whole number of milliseconds. The source wraps a `Duration` with nanosecond resolution, so sub-millisecond step times and their sums are not represented.
- MockNetwork.Mock: the broadcast channel of network events, `subscribe`, and the task that replays `predefined_messages` after a delay are left out. These are asynchronous channel plumbing.
- MockNetwork.Mock: the mutex around each store is left out. Each `Process` call is atomic in the model.
- Regions.NetworkBehaviour: a network behaviour is carried unchanged, so it is a type parameter. A missing pair, which panics in the source, is excluded by its precondition.

## Findings

| source | as written | input that shows it | evidently intended | confidence | as-written member | corrected member |
|---|---|---|---|---|---|---|
| simulations/src/warding/ttf.rs:14-22 | `analyze` returns false at the first node at or past `max_view` and true otherwise, while the runners stop as soon as a ward returns true (simulations/src/runner/mod.rs:72-82, simulations/src/runner/sync_runner.rs:31-34) | `max_view` 10 with every node at view 0: `analyze` is true, so the run stops after its first step; with a node at view 11 it is false and the run goes on | the ward triggers once a node has reached `max_view`, as its doc comment at ttf.rs:5-6 says | high, not executed | MaxViewWard.AsWrittenStopsBelowThreshold | MaxViewWard.AnalyzeIntended |
