/**
 Runs of decided Atropoi: how elections, confirmed events, times and blocks extend from frame to frame.
 */
module Decisions {
  import opened Dag
  import opened Stake
  import opened ForklessCause
  import opened Frames
  import opened Votes
  import opened Atropos
  import opened ElectionState
  import opened Election
  import opened Branches
  import opened MergedClock
  import opened Confirmation
  import opened ConsensusTime
  import opened BlockOrder
  import opened Blocks
  import opened Application
  import opened RootStore

  /** Fewer events, no more forks. */
  lemma WorldShrinks(d: Dag, stakes: seq<nat>, ids: set<EventId>, more: set<EventId>)
    requires ids <= more && AcceptedSet(d, stakes, ids) && World(d, stakes, more)
    ensures World(d, stakes, ids)
  {
    hide FrameOk;
    StakeMonotone(stakes, Forkers(d, ids), Forkers(d, more));
  }

  /** An elected Atropos stays elected as more events become known. */
  lemma ElectedGrows(d: Dag, stakes: seq<nat>, ids: set<EventId>, more: set<EventId>, f: nat, x: EventId)
    requires ids <= more <= d.Keys && Elected(d, stakes, ids, f, x)
    ensures Elected(d, stakes, more, f, x)
  {
    hide DecidedBy;
    hide Candidate;
    var v: nat :| ElectedAt(d, stakes, ids, f, v, x);
    forall u: nat | u < v
      ensures DecidedBy(d, stakes, more, f, u, false)
    {
      DecidedByGrows(d, stakes, ids, more, f, u, false);
    }
    DecidedByGrows(d, stakes, ids, more, f, v, true);
    CandidateGrows(d, stakes, ids, more, f, v, x);
    assert ElectedAt(d, stakes, more, f, v, x);
  }

  /** Whatever some nodes' roots decide, a root of a higher frame that another node knows decides too. */
  lemma DecidedByHigher(d: Dag, stakes: seq<nat>, ids: set<EventId>, known: set<EventId>, others: set<EventId>,
                        f: nat, v: nat, yes: bool, r: EventId)
    requires World(d, stakes, ids) && known <= ids && others <= ids
    requires r in others && d[r].isRoot && forall x | x in known :: d[x].frame < d[r].frame
    requires DecidedBy(d, stakes, known, f, v, yes)
    ensures Decides(d, stakes, f, r, v, yes) && DecidedBy(d, stakes, others, f, v, yes)
  {
    hide FaultBound;
    hide Decides;
    var x :| x in known && d[x].isRoot && Decides(d, stakes, f, x, v, yes);
    DecisionSpreads(d, stakes, ids, f, v, x, yes, r);
  }

  /** A node whose root decides yes has the candidate that any other node has. */
  lemma CandidateSpreads(d: Dag, stakes: seq<nat>, ids: set<EventId>, known: set<EventId>, others: set<EventId>,
                         f: nat, v: nat, x: EventId, r: EventId)
    requires World(d, stakes, ids) && World(d, stakes, others) && known <= ids && others <= ids
    requires r in others && d[r].isRoot && Decides(d, stakes, f, r, v, true) && Candidate(d, stakes, known, f, v, x)
    ensures Candidate(d, stakes, others, f, v, x)
  {
    hide World;
    hide VisibleRoots;
    hide VotesYes;
    WorldIsKnown(d, stakes, ids);
    DecisionBindsFrame(d, stakes, others, f, r, v, true, r);
    var y := YesHasCandidate(d, stakes, others, f, r, v);
    CandidateGrows(d, stakes, known, ids, f, v, x);
    CandidateGrows(d, stakes, others, ids, f, v, y);
    OneCandidate(d, stakes, ids, f, v, x, y);
  }

  /**
   Other nodes come to the same Atropos as soon as they know any event above the highest frame of
   those that elected it: one frame earlier than promised.
   */
  lemma OthersElect(d: Dag, stakes: seq<nat>, ids: set<EventId>, known: set<EventId>, others: set<EventId>,
                    f: nat, x: EventId, e: EventId)
    requires World(d, stakes, ids) && known <= ids && others <= ids && AcceptedSet(d, stakes, others)
    requires Elected(d, stakes, known, f, x)
    requires e in others && forall y | y in known :: d[y].frame < d[e].frame
    ensures Elected(d, stakes, others, f, x)
  {
    hide World;
    hide AcceptedSet;
    hide DecidedBy;
    hide Decides;
    hide Candidate;
    WorldShrinks(d, stakes, others, ids);
    WorldIsKnown(d, stakes, ids);
    WorldIsKnown(d, stakes, others);
    var r := ChainRootAt(d, stakes, others, e);
    var v: nat :| ElectedAt(d, stakes, known, f, v, x);
    forall u: nat | u < v
      ensures DecidedBy(d, stakes, others, f, u, false)
    {
      DecidedByHigher(d, stakes, ids, known, others, f, u, false, r);
    }
    DecidedByHigher(d, stakes, ids, known, others, f, v, true, r);
    CandidateSpreads(d, stakes, ids, known, others, f, v, x, r);
    assert ElectedAt(d, stakes, others, f, v, x);
  }

  /** The root an event's frame started with. */
  lemma ChainRootAt(d: Dag, stakes: seq<nat>, ids: set<EventId>, e: EventId) returns (r: EventId)
    requires AcceptedSet(d, stakes, ids) && e in ids
    ensures RootOf(d, ids, d[e].frame, r)
  {
    assert FrameOk(d, stakes, e);
    r := ChainRoot(d, stakes, ids, e, d[e].frame);
  }

  /** Each Atropos was elected for its frame. */
  ghost predicate AllElected(d: Dag, stakes: seq<nat>, ids: set<EventId>, atropoi: seq<EventId>)
    requires ids <= d.Keys
  {
    forall i {:trigger atropoi[i]} | 0 <= i < |atropoi| :: Elected(d, stakes, ids, i + 1, atropoi[i])
  }

  lemma ElectedNext(d: Dag, stakes: seq<nat>, ids: set<EventId>, atropoi: seq<EventId>, a: EventId)
    requires ids <= d.Keys && AllElected(d, stakes, ids, atropoi) && Elected(d, stakes, ids, |atropoi| + 1, a)
    ensures AllElected(d, stakes, ids, atropoi + [a])
  {
    hide Elected;
  }

  lemma {:induction false} AllElectedGrows(d: Dag, stakes: seq<nat>, ids: set<EventId>, more: set<EventId>,
                                           atropoi: seq<EventId>)
    requires ids <= more <= d.Keys && AllElected(d, stakes, ids, atropoi)
    ensures AllElected(d, stakes, more, atropoi)
  {
    hide Elected;
    forall i | 0 <= i < |atropoi|
      ensures Elected(d, stakes, more, i + 1, atropoi[i])
    {
      ElectedGrows(d, stakes, ids, more, i + 1, atropoi[i]);
    }
  }

  /** The highest frame of the events. */
  ghost function TopFrame(d: Dag, ids: set<EventId>): (f: nat)
    requires ids <= d.Keys
    ensures forall x | x in ids :: d[x].frame <= f
  {
    if ids == {} then 0
    else
      var x :| x in ids;
      var rest := TopFrame(d, ids - {x});
      assert ids == ids - {x} + {x};
      if d[x].frame > rest then d[x].frame else rest
  }

  lemma Listed(d: Dag, ids: set<EventId>, f: nat, slots: seq<RootSlot>, i: nat)
    requires ids <= d.Keys && ListsFrame(d, ids, f, slots) && i < |slots|
    ensures slots[i].id in ids && SlotOk(d, f, slots[i]) && f <= TopFrame(d, ids)
  {
    assert slots[i].id in Ids(slots);
  }

  lemma NoIds(slots: seq<RootSlot>)
    ensures Ids(slots[..0]) == {}
  {}

  lemma KnownRootsGrow(ids: set<EventId>, more: set<EventId>, votes: map<(EventId, nat), VoteValue>,
                       decided: map<nat, VoteValue>)
    requires ids <= more && KnownRoots(ids, votes, decided)
    ensures KnownRoots(more, votes, decided)
  {}

  lemma NothingDecided(n: nat)
    ensures n > 0 ==> StillOpen(n, map[])
  {
    var none: map<nat, VoteValue> := map[];
    assert n > 0 ==> 0 !in none && AllNo(none, 0);
  }

  lemma NothingNew(d: Dag, stakes: seq<nat>, ids: set<EventId>, before: seq<EventId>, after: seq<EventId>, f: nat)
    requires ids <= d.Keys && AllElected(d, stakes, ids, after) && before <= after && f == |before| + 1
    requires forall x {:trigger Elected(d, stakes, ids, f, x)} :: !Elected(d, stakes, ids, f, x)
    ensures after == before
  {
    hide Elected;
    if |before| < |after| {
      ElectedIn(d, stakes, ids, after, |before|);
    }
  }

  lemma VotingTotal(voting: Voting, d: Dag, ids: set<EventId>)
    requires voting.Valid(d, ids)
    ensures voting.totalStake == Total(voting.stakes)
  {}

  lemma NextAtropos(d: Dag, atropoi: seq<EventId>, a: EventId)
    requires AllIn(d, atropoi) && a in d
    ensures AllIn(d, atropoi + [a]) && Earlier(d, atropoi + [a]) == atropoi && AllInLast(d, atropoi + [a]) == a
    ensures NewlyConfirmed(d, atropoi + [a]) == Past(d, a) - ConfirmedBy(d, atropoi).Keys
    ensures ConfirmedBy(d, atropoi + [a]) == Confirm(ConfirmedBy(d, atropoi), Past(d, a), |atropoi| + 1)
  {
    hide Past;
    hide Confirm;
    assert Earlier(d, atropoi + [a]) == atropoi;
  }

  lemma NextLine(d: Dag, start: nat, atropoi: seq<EventId>, a: EventId)
    requires AllIn(d, atropoi) && a in d && AllIn(d, atropoi + [a])
    ensures var before := Infos(d, start, atropoi);
            var ids := NewlyConfirmed(d, atropoi + [a]);
            Infos(d, start, atropoi + [a]) ==
              before + [FareTimestamps(LastAt(start, before, |atropoi|), d[a].medianTime, Highest(d, ids),
                                       Lowest(d, ids))]
  {
    hide FareTimestamps;
    hide NewlyConfirmed;
    assert Earlier(d, atropoi + [a]) == atropoi;
  }

  lemma InfosCount(d: Dag, start: nat, atropoi: seq<EventId>)
    requires AllIn(d, atropoi)
    ensures |Infos(d, start, atropoi)| == |atropoi|
  {}

  /** Before the first decision there is nothing to be wrong. */
  lemma NothingRun(d: Dag, ep: Epoch)
    ensures AllIn(d, []) && ConfirmedBy(d, []) == map[] && Infos(d, ep.start, []) == []
    ensures Delivered(d, ep, [], []) && OpenUntilLast(ep, [])
    ensures Run(ep, []) == Progress(ep.firstState, ep.prev.appHash, false)
    ensures PrevAtropos(ep.firstAtropos, [] + [0]) == ep.firstAtropos && AllElected(d, ep.stakes, {}, [])
  {}

  lemma MergedSize(d: Dag, n: nat, ids: set<EventId>, ms: seq<BranchSeq>, mt: seq<nat>)
    requires ids <= d.Keys && MergedExact(d, n, ids, ms, mt)
    ensures |ms| == n
  {}

  lemma BlockIs(d: Dag, ep: Epoch, atropoi: seq<EventId>, a: EventId, lastAtropos: EventId, walked: seq<EventId>,
                picked: seq<EventId>, b: Block, infos: seq<FrameInfo>)
    requires AllIn(d, atropoi) && AllIn(d, atropoi + [a]) && a in d && AllIn(d, walked)
    requires ListOf(walked, NewlyConfirmed(d, atropoi + [a])) && Picked(d, ep.allowed, a, walked, picked)
    requires Ordered(d, b.events) && (forall x :: x in b.events <==> x in picked)
    requires infos == Infos(d, ep.start, atropoi + [a]) && lastAtropos == PrevAtropos(ep.firstAtropos, atropoi + [0])
    requires b.index == ep.firstBlock + |atropoi| + 1 && b.time == infos[|atropoi|].lastConsensusTime
    requires b.atropos == a && b.prevHash == lastAtropos
    ensures IsBlock(d, ep.allowed, ep.start, ep.firstBlock, ep.firstAtropos, atropoi + [a], b)
  {
    hide *;
    PickedEvents(d, ep.allowed, atropoi + [a], walked, picked, b.events);
    BlockParts(d, ep, atropoi, a, b);
  }

  lemma BlockParts(d: Dag, ep: Epoch, atropoi: seq<EventId>, a: EventId, b: Block)
    requires AllIn(d, atropoi) && AllIn(d, atropoi + [a]) && a in d && Ordered(d, b.events)
    requires b.index == ep.firstBlock + |atropoi| + 1
             && b.time == Infos(d, ep.start, atropoi + [a])[|atropoi|].lastConsensusTime
    requires b.atropos == a && b.prevHash == PrevAtropos(ep.firstAtropos, atropoi + [0])
    requires BlockEvents(d, ep.allowed, atropoi + [a], b.events)
    ensures IsBlock(d, ep.allowed, ep.start, ep.firstBlock, ep.firstAtropos, atropoi + [a], b)
  {
    hide BlockEvents;
    hide Infos;
    hide Ordered;
  }

  lemma PickedEvents(d: Dag, allowed: (EventId, nat) -> bool, atropoi: seq<EventId>, walked: seq<EventId>,
                     picked: seq<EventId>, events: seq<EventId>)
    requires AllIn(d, atropoi) && atropoi != [] && AllIn(d, walked)
    requires ListOf(walked, NewlyConfirmed(d, atropoi)) && Picked(d, allowed, AllInLast(d, atropoi), walked, picked)
    requires forall x :: x in events <==> x in picked
    ensures BlockEvents(d, allowed, atropoi, events)
  {
    hide InBlock;
    hide NewlyConfirmed;
  }

  lemma EmptyList()
    ensures ListOf([], {})
  {}

  lemma TopIsBelow(d: Dag, on0: map<EventId, nat>, on: map<EventId, nat>, below: set<EventId>, head: EventId,
                   frame: nat, done: set<EventId>, stack: seq<EventId>)
    requires |stack| > 0 && Confirming(d, on0, on, below, head, frame, done, stack)
    ensures stack[|stack| - 1] in below && stack[|stack| - 1] in d
    ensures stack[|stack| - 1] !in on ==> stack[|stack| - 1] !in done
  {
    assert stack[|stack| - 1] in stack;
  }

  lemma UnionAccepted(d: Dag, stakes: seq<nat>, a: set<EventId>, b: set<EventId>)
    requires AcceptedSet(d, stakes, a) && AcceptedSet(d, stakes, b)
    ensures AcceptedSet(d, stakes, a + b)
  {
    hide FrameOk;
    UnionClosed(d, a, b);
  }

  /** Runs of elections on different events never contradict each other. */
  lemma ElectionsAgree(d: Dag, stakes: seq<nat>, a: set<EventId>, b: set<EventId>, xs: seq<EventId>, ys: seq<EventId>)
    requires World(d, stakes, a + b) && a <= d.Keys && b <= d.Keys
    requires AllElected(d, stakes, a, xs) && AllElected(d, stakes, b, ys) && |xs| <= |ys|
    ensures xs <= ys
  {
    hide World;
    hide Elected;
    forall i | 0 <= i < |xs|
      ensures xs[i] == ys[i]
    {
      assert Elected(d, stakes, a, i + 1, xs[i]) && Elected(d, stakes, b, i + 1, ys[i]);
      AtroposUnique(d, stakes, a + b, a, b, i + 1, xs[i], ys[i]);
    }
  }

  /** A decided run is a prefix of any run that extends it, with all it determines. */
  lemma {:induction false} RunsExtend(d: Dag, start: nat, xs: seq<EventId>, ys: seq<EventId>)
    requires AllIn(d, xs) && AllIn(d, ys) && xs <= ys
    ensures Infos(d, start, xs) <= Infos(d, start, ys)
    ensures ConfirmedBy(d, xs).Items <= ConfirmedBy(d, ys).Items
    decreases |ys|
  {
    hide Past;
    if xs == ys {
    } else {
      var init := Earlier(d, ys);
      assert xs <= init;
      RunsExtend(d, start, xs, init);
      forall x | x in ConfirmedBy(d, init)
        ensures x in ConfirmedBy(d, ys) && ConfirmedBy(d, ys)[x] == ConfirmedBy(d, init)[x]
      {}
      assert ConfirmedBy(d, init).Items <= ConfirmedBy(d, ys).Items;
    }
  }

  lemma ElectedIn(d: Dag, stakes: seq<nat>, ids: set<EventId>, atropoi: seq<EventId>, i: nat)
    requires ids <= d.Keys && AllElected(d, stakes, ids, atropoi) && i < |atropoi|
    ensures Elected(d, stakes, ids, i + 1, atropoi[i])
  {}
}
