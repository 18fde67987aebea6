# Verified model of a DAG-based BFT node

This project models the consensus core of an asynchronous BFT node and some of the machinery around
it, and proves what that code is for. Validators emit *events* that link to earlier events. A node
indexes the events with vector clocks, assigns *frames* and *roots*, elects one root per frame as
*Atropos*, confirms everything the Atropos observes into a *block*, and spreads *consensus time* over
the confirmed events. Some validators may fork: emit two events with the same sequence number.

Everything is specified against one event graph, a map from event hashes to headers. A node that
connected only some of the events holds a part of it that is closed under parents. Because hashes
depend on content, one graph serves all nodes, and a fact stated over what an event observes holds
for every node, in whatever order it learned the events.

The main results:

- **Forkless cause** (`ForklessCause`, `VectorIndex`): the answer the code reads off two flat vectors
  is a relation of the graph, in every reachable index; and two forks are never both forkless-caused
  while the forking creators hold less stake than twice the quorum minus the total.
- **Election** (`Votes`, `Atropos`, `Election`): within that bound all roots decide alike, every frame
  has at most one Atropos, the errors of the election cannot occur, no decision is late, and what one
  node elected every other elects one frame later.
- **The node** (`Poset`, `Agreement`): over every sequence of processed events, decided Atropoi,
  confirmed events, times and delivered blocks are functions of the graph; any two nodes agree; nodes
  that processed the same events in different orders are in the same state; restarting changes nothing.
- **Consensus time** (`ConsensusTime`): in 64-bit arithmetic with wrap-around, ancestors get strictly
  earlier times, and block times strictly increase, also across epochs, exactly while they fit; they
  follow the median times, which a minority of stake cannot move out of the honest claims.
- **Sealing** (`Sealing`): consensus, application and service agree on every block about the epoch, over
  any number of epochs.
- **Emitting** (`Emitter`): what a node emits, every node accepts.
- **Around consensus**: gas power as a token bucket, truncation of the pool as water-filling, the
  transaction list against a map, turns from weighted permutations, the log index against a plain
  scan, and the header codec.

Classes stand for the objects the code updates in place. `World(d, stakes, ids)` in the contracts
means: the events `ids` were accepted, and the creators that forked among them are within the fault
bound. Invariants of the election hold under that condition; everything else holds without it.

Files follow the components: `Common`, `ByteStrings`; `Dag`, `EventChecks` (graph and its checks); `Stake`; `ForklessCause`,
`Branches`, `HighestBefore`, `ClockMerging`, `LowestAfter`, `IndexTables`, `MergedClock`,
`WeightedMedian`, `MedianTime`, `VectorIndex` (vector clocks); `Frames`, `EventRules`, `Twins`,
`FrameChecks`, `RootStore` (frames and roots); `Votes`, `Atropos`, `ElectionState`, `Election`;
`Confirmation`, `Wrapping`, `ConsensusTime`, `BlockOrder`, `Blocks`, `Application`, `Decisions`, `Poset`,
`Agreement`, `LateAtropos`; `Sealing`; `Emitter`; `GasPower`; `Transactions`, `NonceHeap`, `TxList`, `PendingPool`;
`WeightedShuffle`, `DrawChances`; `TopicKeys`, `TopicIndex`; `CompactCoding`, `HeaderCodec`, `CanonicalHeaders`.

## Model

| member | source | states |
|---|---|---|
| `Dag.ForkIffOffChain` | eventcheck/parentscheck/parents_check.go:51-76 | Two events of a creator with the same number exist among the observed ones exactly when some of its observed events lie off one self-parent chain: the graph notion of a fork that the branch tables must detect |
| `Dag.PastStable` | vector/index.go:113-121 | What an event observes never changes as more events are connected |
| `EventChecks.CheckParents` | eventcheck/parentscheck/parents_check.go:32-79 | The verdict of the parents check, each error in its order: Lamport time one above the highest parent, no double parents, exactly the self-parent by the creator, sequence number, claimed time |
| `EventChecks.ParentsOkIff` | eventcheck/parentscheck/parents_check.go:32-79 | What passes: the Lamport time follows the highest of different parents, only the first is by the creator, with the number before and an earlier time, or the event is the first and none is |
| `EventChecks.CheckedIsWellFormed` | eventcheck/parentscheck/parents_check.go:32-79 | An event that passes the basic and the parents check is well-formed, and connecting it keeps the whole graph well-formed |
| `Stake.QuorumsShareHonest` | inter/pos/validators.go:189-191 | Two quorums of stake share a validator outside any set whose stake stays below twice the quorum minus the total |
| `Stake.QuorumIff` | inter/pos/validators.go:189-191 | A quorum is exactly more than two thirds of the stake |
| `Stake.RestIsQuorum` | inter/pos/validators.go:189-191 | The validators outside a set are a quorum iff the set holds less than a third |
| `Stake.StakeCounter.CountByIdx` | inter/pos/stake.go:72-80 | A validator is counted at most once; the counted set and its stake grow by exactly that validator |
| `Stake.StakeCounter.HasQuorum` | inter/pos/stake.go:83-85 | The answer is whether the counted validators hold more than two thirds of the stake |
| `ForklessCause.ForksNotBothCaused` | vector/forkless_cause.go:22-80 | The BFT core theorem: if the creators that forked among the events hold less stake than twice the quorum minus the total, no two forks of a creator are both forkless-caused, by the same or by different events |
| `ForklessCause.ForklessCauseStable` | vector/forkless_cause.go:26-35 | The relation between two events is the same in every larger graph, so a cached answer never becomes wrong |
| `VectorIndex.Index.FillGlobalBranchID` | vector/index.go:142-178 | Branch numbering: the new event extends the branch of its self-parent or opens one, every branch stays a contiguous piece of one self-parent chain, and old branches keep their owners |
| `VectorIndex.Index.SetForkDetected` | vector/index.go:180-189 | Exactly the branches of one creator are marked |
| `VectorIndex.Index.MergeParents` | vector/index.go:222-253 | Merging the parents' vectors one branch at a time gives, for every branch, the true lowest and highest observed number and the claimed time of the highest, or the mark if a parent saw the fork |
| `HighestBefore.OverlapIsFork` | vector/index.go:254-281 | If the ranges of two branches of a creator overlap, the observed events contain a fork of it |
| `HighestBefore.ForkIsOverlap` | vector/index.go:254-281 | If the observed events contain a fork of a creator, the ranges of two of its branches overlap, so no fork is missed |
| `VectorIndex.Index.DetectForks` | vector/index.go:254-281 | After the pairwise test the vector is exact: a creator's branches are all marked iff the event observes a fork of it, and otherwise hold true ranges |
| `VectorIndex.Index.CalcHighestBefore` | vector/index.go:192-281 | HighestBefore of a new event is exact with respect to the graph |
| `VectorIndex.Index.UpdateLowestAfter` | vector/index.go:283-300 | The walk that stops at events already seen from the branch terminates, and leaves every event below either set before or set to the new number |
| `LowestAfter.WalkComplete` | vector/traversal.go:13-37 | The pruned walk misses nothing: since observers on a branch are closed under self-descendants, everything below that was not set before has been set when the stack is empty |
| `LowestAfter.LowestGrows` | vector/index.go:283-307 | After an event is added, each entry is the lowest number on its branch that observes the event, or zero if none does |
| `IndexTables.AddKeepsSound` | vector/index.go:192-309 | Adding an event keeps all tables exact: branch placement, HighestBefore and LowestAfter of every stored event |
| `VectorIndex.Index.Add` | vector/index.go:113-121 | In every reachable index the tables stay exact; an event already there changes nothing |
| `VectorIndex.Index.Flush` | vector/index.go:124-131 | The flushed tables become the current ones and stay exact |
| `VectorIndex.Index.DropNotFlushed` | vector/index.go:134-140 | The tables return to the flushed ones, exact again, while cached answers remain valid |
| `VectorIndex.Index.ForklessCause` | vector/forkless_cause.go:26-35 | With or without the cache, the answer from two flat vectors is the graph relation: no observed fork of the creator, and a quorum of validators not seen forking each with an observed event that observes the other one |
| `VectorIndex.Index.CalcForklessCause` | vector/forkless_cause.go:37-80 | The same for the calculation, whatever branches exist and in whatever order events came |
| `IndexTables.CountsIsSupporter` | vector/forkless_cause.go:64-78 | A branch that passes the comparison of the two vectors belongs to a supporter in the graph |
| `IndexTables.SupporterIsCounted` | vector/forkless_cause.go:64-78 | Every supporter in the graph has a branch that passes the comparison |
| `VectorIndex.Index.NoCheaters` | vector/forkless_cause.go:84-103 | The options kept are, in order, those whose creators the self-parent did not see forking |
| `VectorIndex.Index.GetHighestBeforeMerged` | vector/index.go:317-351 | One exact entry per creator: the mark iff the event observes a fork of it, else the range over all its branches; results for unknown events as in the code |
| `MergedClock.MergedUnique` | vector/index.go:317-351 | Merged vectors are a function of what the event observes: nodes with different branch numberings compute the same |
| `WeightedMedian.Median` | vector/median_time.go:61-83 | The loop over sorted readings returns a weighted median in the sense of stake before and up to it |
| `WeightedMedian.MedianPermuted` | vector/median_time.go:61-83 | Any two orders of the same readings give the same median, so ties in the sort do not matter |
| `WeightedMedian.MedianWithin` | vector/median_time.go:71-82 | If the stake of readings outside an interval is below half of the honest stake, the median lies in the interval |
| `VectorIndex.Index.MedianTime` | vector/median_time.go:19-83 | The result is the weighted median over the honest creators' highest observed claimed times, with the start time for creators not observed |
| `MedianTime.MedianTimeUnique` | vector/median_time.go:19-83 | An event has one median time, whoever computes it |
| `MedianTime.MedianTimeIff` | vector/median_time.go:19-83 | In terms of events and stakes only: the earliest time some validator has by which half of the stake not seen forking is reached, where an unobserved validator has the start time and an observed one the claim of its highest event |
| `MedianTime.MedianTimeWithin` | vector/median_time.go:19-83 | If less than half of the stake not seen forking has times outside a window, counting unobserved validators at the start time, the median time is in the window |
| `MedianTime.MedianTimeAmongClaims` | vector/median_time.go:19-83 | If all observed claims and the start time are in a window, so is the median time, once two units of stake were not seen forking |
| `MedianTime.MedianTimeMonotone` | vector/median_time.go:19-83 | If an event observes no fork and no claimed time precedes the start, its median time is at least that of every ancestor |
| `Frames.FrameStep` | poset/poset.go:235-286 | An accepted event has its self-parent's frame or the next one, starts at 1 with a root, and moves on exactly if it is a root |
| `Frames.ChainFrames` | poset/poset.go:235-286 | Along a whole accepted self-parent chain frames never fall and rise by at most one per event |
| `Frames.QuorumBelow` | poset/poset.go:256-263 | Every root above frame 1 has a quorum of validators with accepted roots one frame below |
| `Frames.NoHoles` | poset/poset.go:179-196 | If a frame has a root, so has every frame below |
| `Frames.HonestRootUnique` | poset/poset.go:235-286 | A creator without forks has at most one root in a frame |
| `EventRules.FrameErrors` | poset/poset.go:107-115 | The two frame errors are raised exactly for events that break the frame rule |
| `EventRules.AcceptedIff` | poset/poset.go:91-128 | Accepted are exactly the events by a validator, with the epoch hash right for their number, without a parent by a creator the self-parent saw forking, following the frame rule, and claiming their median time in the graph |
| `EventRules.ErrorsMean` | poset/poset.go:91-128 | Each error is raised exactly if what it names is wrong and everything checked before is right |
| `EventRules.VerdictStable` | poset/poset.go:91-128 | Every check has the same outcome in every larger graph: a node that knows more events, or learned them in another order, judges an event alike |
| `FrameChecks.QuorumAmongKnown` | poset/poset.go:218-230 | Counting among the stored roots is counting among the roots the event observes, so the verdict does not depend on what else the node knows |
| `Poset.Poset.ForklessCausedByQuorumOn` | poset/poset.go:218-230 | With its early exit, the loop answers whether the stored roots of a frame that forkless-cause the event have a quorum |
| `Poset.Poset.CalcFrameIdx` | poset/poset.go:235-286 | Checking: the frame and root verdict the graph implies for the claims; calculating: the fields to fill in |
| `Poset.Poset.CheckAndSaveEvent` | poset/poset.go:91-128 | The verdict is the graph's, each error in its order, and acceptance is admissibility; an accepted event is saved with its root, a refused one leaves index and store as they were; every known event is admissible, its claimed median time included |
| `Poset.Poset.Prepare` | poset/poset.go:70-88 | The index is left as it was, only the four consensus fields change, and under its final hash the event is accepted iff it does not link to a creator its self-parent saw forking |
| `FrameChecks.PreparedIsAccepted` | poset/poset.go:70-128 | Why: what was filled in under one hash is what the check calculates under another |
| `FrameChecks.PreparedMayBeRefused` | poset/poset.go:99-102 | The condition is needed: with stakes 5 and 2 there are four events, the first three accepted, the fourth with exactly the frame, root verdict and median time that preparing fills in, and refused for linking to a cheater |
| `Emitter.FindBestParents` | inter/ancestor/parents.go:25-43 | Whatever the strategy picks: the self-parent first, then different options, no more than allowed, except a self-parent when none is, and fewer only if every option is linked |
| `Emitter.FindHonestParents` | gossip/emitter.go:297-329 | No parent is by a creator the self-parent saw forking; refused iff it saw its own |
| `Emitter.BuildEvent` | gossip/emitter.go:353-390 | The header on them passes the parents check, Lamport time and number exact, and claims a time not before now |
| `Emitter.CreateEvent` | gossip/emitter.go:332-401 | Parent filter and preparing together: every event created is accepted under its final hash, and only creators outside the group or that forked are refused |
| `Twins.TwinCaused` | poset/poset.go:76-81 | Two headers that differ only in the consensus fields are forkless-caused by the same known events |
| `RootStore.Store.AddRoot` | poset/store_roots.go:22-43 | Table and cached list gain exactly the root; both keep listing each accepted root of a frame once |
| `RootStore.Store.GetFrameRoots` | poset/store_roots.go:53-94 | From the cache or from the table, the list holds every accepted root of the frame once |
| `Votes.DecisionsAgree` | poset/election/election_math.go:42-115 | Any two roots of any frames that decide a subject decide it the same way, within the fault bound |
| `Votes.DecisionSpreads` | poset/election/election_math.go:42-115 | Once a root decides a subject, every root of every higher frame decides it, the same way |
| `Votes.OneVisibleRoot` | poset/election/election.go:119-129 | Of a slot only one root is ever visible to accepted events, so overwriting in the map loses nothing |
| `Atropos.AtroposUnique` | poset/election/sort_roots.go:10-25 | Two nodes never elect different Atropoi for a frame, whatever events each knows |
| `Atropos.AtroposUniqueWithinThird` | poset/election/sort_roots.go:8 | The same under the bound the comment names: unless the forking creators hold more than a third of the stake |
| `Atropos.GreatestStakeElected` | poset/election/sort_roots.go:7 | In a group ordered by stake the elected root is by the validator with the greatest stake among all that anyone decides yes |
| `Decisions.OthersElect` | poset/election/sort_roots.go:7-9 | Other nodes come to the same Atropos as soon as they know one event above the highest frame of those that elected it, a frame earlier than the comment promises |
| `Atropos.NotAllDecidedNo` | poset/election/sort_roots.go:23-24 | Not every subject of a frame can be decided no, by counting first-round votes in rows and columns: the final error is unreachable within the fault bound |
| `ElectionState.OpenMeansUndecided` | poset/election/sort_roots.go:10-25 | If the election stays open after every known root was processed, the known events elect nobody |
| `Election.Voting.ChooseAtropos` | poset/election/sort_roots.go:10-25 | A result is elected in the graph for the frame; an open election has an undecided subject behind only no's; failure means forks beyond the bound |
| `Election.Voting.CountVotes` | poset/election/election_math.go:48-105 | The counted vote is the majority of the visible roots' votes in the graph and is decided iff one side has a quorum; none of the errors occurs within the fault bound |
| `Election.Voting.VoteFirstRound` | poset/election/election_math.go:36-47 | First-round votes are the slots whose roots the new root observes |
| `Election.Voting.ProcessRoot` | poset/election/election_math.go:12-115 | Every stored vote and decision stays true of the graph, no decision of a processed root is missed, and a result is the elected Atropos of the frame to decide |
| `Confirmation.ConfirmedRun` | poset/frame_decide.go:13-29 | After any run of decisions the confirmed events are closed under parents, each on one of the decided frames |
| `Confirmation.ConfirmedOnFirst` | poset/frame_decide.go:13-29 | An event is confirmed on a frame iff its Atropos observes the event and no earlier Atropos does |
| `Confirmation.ConfirmingEnd` | poset/traversal.go:14-37 | A finished walk confirmed exactly what the Atropos observes and was not confirmed before |
| `Poset.Poset.ConfirmEvents` | poset/frame_decide.go:13-29 | The walk terminates, the table gains exactly the unconfirmed events the Atropos observes, and each is reported once |
| `Blocks.CollectEvents` | poset/frame_decide.go:47-79 | Lamport range, depths and block events are those of the graph, and the inconsistency check never fires |
| `Blocks.DepthIsRight` | poset/frame_decide.go:58-74 | The merged clock gives each event's depth below its creator's last observed event, and never a number below the event's own unless the creator forked |
| `Blocks.DepthSteps` | poset/frame_decide.go:58-64 | Depth is 0 exactly for the last observed event of a creator, and one more with each self-parent |
| `Blocks.Cheaters` | poset/frame_decide.go:40-45 | The cheaters are, in order, the validators the Atropos saw forking |
| `Blocks.BlockUnique` | poset/frame_decide.go:83-90 | The decided Atropoi leave no choice about a block |
| `Application.BlocksChain` | poset/frame_decide.go:89 | Every block carries its Atropos, the Atropos of the block before and the next number |
| `Application.BlockWithoutCheaters` | poset/frame_decide.go:41-71 | A block holds nothing by the cheaters delivered with it, and everything allowed by others that its frame confirms |
| `BlockOrder.FareOrdering` | poset/event_ordering.go:62-86 | The block's events are the given ones, by Lamport time and then hash |
| `BlockOrder.OrderUnique` | poset/event_ordering.go:62-86 | A set of events has one such order |
| `BlockOrder.AncestorsComeFirst` | poset/event_ordering.go:62-86 | In that order every event comes after its ancestors |
| `Poset.Poset.ConfirmBlock` | poset/frame_decide.go:31-91 | Confirmed table, frame time, block and cheaters become those the run of Atropoi determines; the reports are the newly confirmed events once each with their depths |
| `ConsensusTime.OffsetRoundTrip` | poset/frame_info.go:31-50 | Storing and loading any 64-bit offset gives it back |
| `ConsensusTime.OffsetStored` | poset/frame_info.go:31-37 | What is stored is the offset plus half of the largest integer while that fits |
| `ConsensusTime.LineIsTrue` | poset/frame_info.go:53-55 | The stored line gives the true time modulo 2^64 even if the offset wrapped, hence the exact time if it fits |
| `ConsensusTime.TimeIncreasesIff` | poset/event_ordering.go:22-59 | Block time strictly increases at a frame iff the last time plus the frame's Lamport steps fits 64 bits; it ends less than those steps before the median time if they fit before it, and else it is that sum |
| `ConsensusTime.BlockTimesIncrease` | poset/event_ordering.go:22-59 | Over a whole run without overflow block times strictly increase |
| `ConsensusTime.BlockTimeFollowsMedian` | poset/event_ordering.go:36-49 | A block's time is less than the frame's Lamport steps behind its Atropos' median time if they fit since the last block, and otherwise one unit per step after it |
| `ConsensusTime.TimeRespectsCausality` | poset/frame_info.go:58-65 | Over a whole run a proper ancestor of a confirmed event is confirmed too, at a strictly earlier time |
| `ConsensusTime.AtroposIsHighestIff` | poset/event_ordering.go:48-49 | The frame's highest Lamport time is its Atropos' iff no earlier Atropos observed it; otherwise the frame confirms nothing |
| `LateAtropos.AtroposMayBeObservedBefore` | poset/event_ordering.go:48-49 | The comment is false: in a graph of fifteen accepted events without forks the Atropos of frame 1 observes that of frame 2, which then confirms nothing |
| `ConsensusTime.NoOverflowBound` | poset/event_ordering.go:22-59 | A bound on the median times and the number of blocks under which no frame overflows |
| `Poset.Poset.GetConsensusTime` | poset/frame_info.go:58-65 | A time is returned iff the event is confirmed, and it is the time the run of Atropoi fixes |
| `Poset.Poset.constructor` | poset/frame_decide.go:132-146 | A new epoch satisfies all invariants with an open first election |
| `Poset.Poset.OnFrameDecided` | poset/frame_decide.go:95-118 | All invariants hold for the run extended by the Atropos; the election of the next frame is open; the application decides on sealing |
| `Poset.Poset.ProcessRoot` | poset/poset.go:162-175 | A decision is about the frame after the last decided one and elects a known event; failure implies forks beyond the bound |
| `Poset.Poset.ProcessKnownRoots` | poset/poset.go:179-196 | Stopping at the first empty frame loses no root: without a decision every known root was processed; the loop terminates |
| `Poset.Poset.NoRootsAbove` | poset/poset.go:191-193 | Behind a frame without roots there are none |
| `Poset.Poset.HandleElection` | poset/poset.go:131-160 | The loop of elections terminates with every invariant kept, either sealed or caught up; stopping means forks beyond the bound |
| `Poset.Poset.ProcessEvent` | poset/poset.go:201-215 | The verdict is the graph's; after every event all invariants hold, decided Atropoi are only added, and the node is sealed or caught up |
| `Poset.Poset.NoAtroposYet` | poset/poset.go:131-160 | A caught-up node has decided every frame its events decide |
| `Poset.Poset.Bootstrap` | poset/checkpoint.go:32-54 | A restarted node that votes anew decides nothing new and loses nothing, within the fault bound |
| `Poset.Poset.SealEpoch` | poset/frame_decide.go:120-148 | The next epoch starts empty at the last consensus time, after the last block and Atropos, with the validators the application selects; its first events are checked against the hash of the sealed epoch's number, time, last Atropos and application hash |
| `Agreement.NodesAgree` | poset/poset.go:201-215 | Whatever two nodes processed in whatever order, the one with fewer decided frames has the same Atropoi, confirmed events, frame times, blocks and cheaters for them, unless forks exceed the bound over all these events |
| `Agreement.MoreEventsDecideMore` | poset/poset.go:131-160 | A caught-up node has decided at least what a node knowing no more events has |
| `Agreement.HigherEventsDecideMore` | poset/election/sort_roots.go:7-9 | A caught-up node that knows one event above all frames of another has decided every frame the other has, with the same Atropoi |
| `Agreement.SameEventsSameState` | poset/poset.go:201-215 | Two caught-up nodes that processed the same events in any orders agree on the whole state, the application's included |
| `Agreement.SealedTogether` | poset/frame_decide.go:107-117 | Once one node's application sealed the epoch no node decides more in it, and both are at the same block and state |
| `Agreement.NextEpochsAgree` | poset/frame_decide.go:120-148 | Nodes that sealed an epoch enter the same next one: validators, number, start, block, Atropos, application state and the epoch hash that first events must carry |
| `Agreement.TimesRiseAcrossEpochs` | poset/frame_decide.go:120-124 | Every block of the next epoch is later than every block of the sealed one |
| `Agreement.BlockTimeIsHonest` | poset/event_ordering.go:36-49 | On a node, the last block's time is not after, and less than the frame's Lamport steps before, any window with room for them outside which less than half of the stake is that its Atropos did not see forking |
| `Agreement.BlocksChainAcrossEpochs` | poset/frame_decide.go:120-124 | The first block of an epoch continues number and hash of the last block of the one before |
| `Sealing.Service.ApplyBlock` | gossip/consensus_callbacks.go:244-258 | The application's answer and the legacy one never differ, both are the sealing rule; unless sealing, the three components stay in step with the epoch, and on sealing with the next one; sealed epochs' statistics join without gaps |
| `Sealing.ApplyEpoch` | gossip/consensus_callbacks.go:87-165 | For every run of deliveries of an epoch: no panic, sealing at the first delivery the rule names, in step afterwards |
| `Sealing.NextEpochFollows` | poset/frame_decide.go:120-124 | A sealed consensus epoch goes on exactly where the sealing block leaves the service |
| `Sealing.SealedIffRule` | app/app.go:132-151 | An application that tests blocks against its last voting seals a consensus epoch at exactly the deliveries the sealing rule names |
| `Sealing.OpenEpochIsShort` | app/app.go:144-151 | An epoch stays open exactly while every delivery has fewer frames than configured, is within the configured duration, names no cheaters and is not forced |
| `Sealing.TrackingExists` | app/app.go:132-151 | Such an application exists for every configuration and every choice of forced seals |
| `Sealing.DriveEpoch` | gossip/consensus_callbacks.go:244-258 | Driving the service with all a node delivered never panics and seals iff the node's epoch is sealed, at its last delivery; then the service and the last voting are in step with the next epoch |
| `Sealing.DriveEpochs` | gossip/consensus_callbacks.go:244-258 | The same over any number of epochs, each following the one sealed before it |
| `Sealing.DeliveryNumber` | poset/frame_decide.go:89 | Block number minus the epoch's first block is the decided frame |
| `GasPower.CalcGasPower` | eventcheck/gaspowercheck/gas_power_check.go:110-144 | Gas power never exceeds the validator's maximum, wrap-around included |
| `GasPower.BucketStep` | eventcheck/gaspowercheck/gas_power_check.go:110-158 | An accepted event's use and remainder come from what its self-parent left and what accrued, capped at the maximum; equality unless it overflows |
| `GasPower.FirstStep` | eventcheck/gaspowercheck/gas_power_check.go:110-158 | The same for a creator's first event in an epoch: what was carried over, with the refund and at least the startup amount, and what accrued since its last confirmed event or else since the epoch's end |
| `GasPower.TokenBucket` | eventcheck/gaspowercheck/gas_power_check.go:110-158 | Along any chain of a validator's accepted events the gas used after the first is at most what it left plus rate times forward median time |
| `GasPower.EpochBucket` | eventcheck/gaspowercheck/gas_power_check.go:110-158 | All events of a validator in an epoch use no more than was carried over plus what accrued |
| `GasPower.BucketAcrossEpochs` | eventcheck/gaspowercheck/gas_power_check.go:110-158 | The bucket across an epoch's end: nothing is gained but the refund and what the startup amount adds |
| `GasPower.NeverMoreThanFull` | eventcheck/gaspowercheck/gas_power_check.go:136-144 | Remainders never exceed the maximum, so no window uses more than the maximum plus what accrues in it |
| `GasPower.RateIsShare` | eventcheck/gaspowercheck/gas_power_check.go:63-84 | A validator's rate is its share of the allocation by stake, rounded down |
| `GasPower.MaxIsPeriodsWorth` | eventcheck/gaspowercheck/gas_power_check.go:84-85 | The maximum is what accrues in the longest period, up to its last second |
| `GasPower.StartupIsPeriodsWorth` | eventcheck/gaspowercheck/gas_power_check.go:86-89 | The startup amount is what accrues in the startup period, or the minimum if that is more |
| `GasPower.SecondsWorth` | eventcheck/gaspowercheck/gas_power_check.go:135-137 | In whole seconds of nanoseconds exactly the rate accrues for each |
| `GasPower.EpochStart` | eventcheck/gaspowercheck/gas_power_check.go:116-129 | The first event of an epoch starts from at least the startup amount and from no more than that, or what its creator left, plus the refund |
| `GasPower.RatesWithinAllocation` | eventcheck/gaspowercheck/gas_power_check.go:63-92 | The rates of all validators sum to at most the configured rate |
| `PendingPool.Pool.TruncatePending` | evmcore/tx_pool.go:1221-1303 | The result is the original lists cut to one fair level: locals and small accounts untouched, only highest nonces dropped, dropped transactions gone from the pool, account nonces following; both loops terminate |
| `PendingPool.FairUnique` | evmcore/tx_pool.go:1221-1303 | There is one fair result: level at least the guaranteed slots, total within the limit or level at the guarantee, and one level more would exceed the limit; so ties do not matter |
| `PendingPool.FairMeans` | evmcore/tx_pool.go:1221-1303 | Local accounts and those within the guaranteed slots keep everything, nobody falls below them, the limit is met unless only they remain, and nobody else keeps more than an account that lost something |
| `PendingPool.Pool.LowerTo` | evmcore/tx_pool.go:1256-1279 | Rounds of drops lower the common level by one each until the limit or the floor is reached, and never below it |
| `PendingPool.CutStep` | evmcore/tx_pool.go:1257-1277 | Dropping one transaction of each account at the level is cutting one level lower |
| `NonceHeap.Pop` | evmcore/tx_list.go:84-98 | The least nonce is removed and the rest is a heap of the remaining nonces |
| `NonceHeap.Remove` | evmcore/tx_list.go:159-164 | The entry at a position is removed and the rest is a heap of the remaining nonces |
| `NonceHeap.Init` | evmcore/tx_list.go:114-119 | Any list becomes a heap of the same nonces |
| `TxList.TxSortedMap.Put` | evmcore/tx_list.go:73-79 | The map gains the transaction; index and cache stay right |
| `TxList.TxSortedMap.Forward` | evmcore/tx_list.go:84-98 | Exactly the lower nonces are removed and returned in order; a sliced cache still is the sorted contents |
| `TxList.TxSortedMap.Filter` | evmcore/tx_list.go:102-123 | Exactly the transactions named are removed and returned; index rebuilt and cache dropped only then |
| `TxList.TxSortedMap.Cap` | evmcore/tx_list.go:127-148 | The lowest nonces are kept, as many as allowed, the others returned highest first; a sliced cache still is the sorted contents |
| `TxList.TxSortedMap.Remove` | evmcore/tx_list.go:152-169 | One nonce is removed from map and heap, if present |
| `TxList.TxSortedMap.Ready` | evmcore/tx_list.go:178-193 | The longest run of consecutive nonces from the lowest is taken, if the lowest is not above the start |
| `TxList.TxSortedMap.Flatten` | evmcore/tx_list.go:203-216 | The sorted contents, cached or not |
| `Transactions.ListUnique` | evmcore/tx_list.go:203-216 | The sorted contents are one list only |
| `TxList.TxList.Add` | evmcore/tx_list.go:251-272 | A transaction of the same nonce is replaced iff the price is higher and reaches the bumped price; the caps stay upper bounds |
| `TxList.TxList.Filter` | evmcore/tx_list.go:290-314 | Exactly what exceeds the limits is removed, also by the short circuit of the caps; a strict list is cut at the lowest removed nonce and stays contiguous |
| `TxList.TxList.Remove` | evmcore/tx_list.go:325-336 | A strict list is cut at the removed nonce and stays contiguous |
| `TxList.ForwardKeepsContiguous` | evmcore/tx_list.go:277-279 | Moving a contiguous list forward leaves it contiguous |
| `TxList.CapKeepsContiguous` | evmcore/tx_list.go:318-320 | Capping a contiguous list leaves it contiguous |
| `WeightedShuffle.Tree.Rand64` | utils/weighted_shuffle.go:54-65 | The k-th number is the (k mod 4)-th part of the seed hashed k div 4 times |
| `WeightedShuffle.DrawsFollow` | utils/weighted_shuffle.go:54-65 | A seed gives the four numbers at its bytes 0, 8, 16 and 24, and then those of its hash follow |
| `WeightedShuffle.Tree.Build` | utils/weighted_shuffle.go:34-52 | Every node holds the weights of itself and of both sides; refused iff some weight is zero |
| `WeightedShuffle.Tree.Retrieve` | utils/weighted_shuffle.go:67-85 | The drawn index was not drawn before, and all nodes hold the remaining weights afterwards; no modulus is zero |
| `WeightedShuffle.WeightedPermutation` | utils/weighted_shuffle.go:90-111 | For positive weights and any seed: distinct indices in range, refused only for too few or zero weights |
| `WeightedShuffle.SomeoneLeft` | utils/weighted_shuffle.go:67-71 | With fewer draws than indices there is weight left to draw from |
| `DrawChances.NumbersByWeight` | utils/weighted_shuffle.go:67-88 | At each node as many numbers lead to it, to its left and to its right as they weigh |
| `DrawChances.ChanceIsShare` | utils/weighted_shuffle.go:67-88 | So the chance that an index is drawn next is its share of the weight left |
| `WeightedShuffle.PermPrefix` | utils/weighted_shuffle.go:87-111 | A shorter permutation is the front of a longer one |
| `WeightedShuffle.PermIsComplete` | utils/weighted_shuffle.go:87-111 | The full permutation holds every index |
| `WeightedShuffle.IsMyTurn` | gossip/emitter.go:235-251 | A node's answer is whether the round's entry of the full permutation is itself |
| `WeightedShuffle.OneTurnEach` | gossip/emitter.go:246-250 | In any n consecutive rounds each of n validators has exactly one turn |
| `TopicKeys.IdRoundTrip` | topicsdb/key.go:24-47 | Block, transaction and index can be read off an id |
| `TopicKeys.TopicKeyPrefix` | topicsdb/key.go:49-92 | A key starts with the prefix of a topic and position iff it belongs to them, and its log id can be cut off |
| `TopicKeys.OtherKeyPrefix` | topicsdb/key.go:59-102 | The same for the keys of a log's topics |
| `TopicIndex.Index.Push` | topicsdb/topicsdb.go:59-94 | The three tables hold exactly the pushed logs; refused iff there are too many topics |
| `TopicIndex.Index.Fetch` | topicsdb/record.go:70-116 | A stored log is rebuilt exactly; its positions never exceed its topic count |
| `TopicIndex.Index.FetchSync` | topicsdb/search_sync.go:10-71 | Each log once, iff it hits an alternative and the hits with the wildcards reach the number of positions; refused iff there are too many positions |
| `TopicIndex.MatchIsFound` | topicsdb/search_sync.go:10-71 | A matching log is always found, however often alternatives repeat |
| `TopicIndex.FoundIffMatches` | topicsdb/search_sync.go:10-71 | If the last position asks for a topic, and no alternative is repeated or nothing else is asked, the count alone is right about every log |
| `TopicIndex.CountIsExactIff` | topicsdb/search_sync.go:10-71 | That is the exact condition: for any other query of hashes there is a storable log that is found and does not match, or matches and is not found |
| `TopicIndex.LongLogFoundIffMatches` | topicsdb/search_sync.go:10-71 | Without repeated alternatives the count is right about every log with a topic at each position, trailing wildcards or not |
| `TopicIndex.RepeatedAlternativeOvercounts` | topicsdb/search_sync.go:28-40 | A repeated alternative makes the count accept a log that does not match, so the second filter is needed |
| `TopicIndex.TrailingWildcardOvercounts` | topicsdb/search_sync.go:22-26 | A wildcard after the last topic of a log makes the count accept a log that is too short |
| `TopicIndex.FilterLogs` | gossip/filters/filter.go:220-253 | Exactly the logs within the block range, of the addresses and with matching topics pass |
| `TopicIndex.Index.IndexedLogs` | gossip/filters/filter.go:133-142 | For a query that asks for some topic, index and filter together give the same logs as filtering all pushed logs |
| `CompactCoding.CompactLength` | inter/event_serializer.go:196-206 | A number takes at most k bytes iff it is below 256^k: its length is minimal |
| `CompactCoding.CompactIsCanonical` | inter/event_serializer.go:310-325 | A written number never ends in the zero byte the reader refuses |
| `CompactCoding.CompactDigit` | inter/event_serializer.go:196-206 | The i-th byte is the i-th digit to the base 256, the lowest first |
| `CompactCoding.PushPacks` | utils/fast/bits.go:79-106 | Pushing adds a number at its place and leaves the others; after numbers that fit, its bits were zero, and it stays within them iff it is below the limit the writer panics at |
| `CompactCoding.SlotOfPacked` | utils/fast/bits.go:92-106 | Popping gives the pushed numbers back in order |
| `HeaderCodec.Encoder.WriteUintCompact` | inter/event_serializer.go:196-206 | The minimal bytes are written and counted |
| `HeaderCodec.MarshalBinary` | inter/event_serializer.go:109-194 | The result is the encoding; the buffer of the calculated size is never overrun, and no number pushed is too big for its bits |
| `HeaderCodec.EncodedAreBytes` | inter/event_serializer.go:109-194 | Every entry of an encoding is a byte: packing truncates nothing |
| `HeaderCodec.UnmarshalBinary` | inter/event_serializer.go:209-308 | The result, error or header, is what the layout implies for any bytes |
| `HeaderCodec.RoundTrip` | inter/event_serializer.go:109-308 | Decoding an encoding gives every field back |
| `HeaderCodec.RoundTripIff` | inter/event_serializer.go:172-174 | It does so exactly for headers whose parents start with their epoch |
| `HeaderCodec.Layout` | inter/event_serializer.go:109-194 | Where every size, flag, number, parent and hash is in an encoding |
| `CanonicalHeaders.AcceptedIsEncodingIff` | inter/event_serializer.go:209-325 | A string that is decoded is the encoding of the result iff its sizes are in range, its flags 0 or 1 and its unused bits zero |
| `CanonicalHeaders.UnusedBitsIgnored` | utils/fast/bits.go:92-96 | The condition is needed: unused bits do not change what is decoded |

## Left out

A comment calls the event with a frame's highest Lamport time always the Atropos
(poset/event_ordering.go:48). That is false of the code: a frame follows the self-parent only, so a
validator that starts late can have a root of frame 1 above a root of frame 2, and both can be elected
(`LateAtropos.AtroposMayBeObservedBefore`). The model follows the code;
`ConsensusTime.AtroposIsHighestIff` says exactly when the comment holds.

- `Poset.Poset.Prepare`: that every prepared event is accepted is false of the code, because preparing does not look for cheaters among the parents; the contract gives the exact condition, and `Emitter.CreateEvent` shows that emitted events meet it.
- `TopicIndex.Index.FetchSync`: that its result alone is the set of matching logs is false of the code, because repeated alternatives and trailing wildcards overcount; `TopicIndex.CountIsExactIff` gives the exact condition on the query.
- `ConsensusTime.BlockTimesIncrease`: requires that no frame overflows 64 bits; `ConsensusTime.TimeIncreasesIff` shows that this is exactly when time increases.
- `Poset.Poset.ProcessEvent`: requires parents that were accepted, a new event and an unsealed epoch, which the caller guarantees; the epoch number is fixed, so the not-relevant error is not modelled.
- `VectorIndex.Index.ForklessCause`: requires both events in the index, where the code logs a critical error and exits.
- `Blocks.CollectEvents`: the reports to the application are a list after the walk instead of callbacks during it; the callbacks do not influence the walk.
- `HeaderCodec.UnmarshalBinary`: bytes beyond the input that a slice's spare capacity would expose are not modelled. That every string it accepts is an encoding is false of the code, because sizes, flags and unused bits are not checked; `CanonicalHeaders.AcceptedIsEncodingIff` gives the exact condition.
- `DrawChances.ChanceIsShare`: takes the remainders of random numbers as equally likely; the bias of a remainder of 64 bits is not modelled.
- `PendingPool.Pool.TruncatePending`: accounts' lists are values by nonce instead of references; the price heap and the metrics are left out.
- `Emitter.BuildEvent`: Lamport and claimed times are unbounded, so that the wrap-around of the successor of the highest value is not modelled.
- Stakes and their sums are unbounded: wrap-around of total stake times two is not modelled.
- Vectors, root records and checkpoints are values instead of bytes; LRU eviction is modelled for the root cache only, as an event that may happen at any time.
- Validators are their positions in the group; staker ids, the epoch number in headers and signatures are not modelled.
- The application is a function from its state and a block to its next state; EVM execution, staking contracts, scores and rewards are not modelled.
- Hashes are distinct numbers; hash functions and random seeds are parameters.
- The asynchronous log search, which feeds the same counting from several goroutines.
- Networking, event buffering and fetching, the emitter's timing, its strategies for scoring parents, and its gas and transactions, RPC, migrations, metrics.
- `txPricedList` and the rest of the transaction pool (promotion, queue truncation, reorganisation, journal).
- RLP, and the wrappers of the header codec in it.
- The spilling of events beyond the block gas limit (gossip/consensus_callbacks.go:168-195).
