/**
 Agreement between the nodes of an epoch.
 */
module Agreement {
  import opened Dag
  import opened Stake
  import opened ForklessCause
  import opened Frames
  import opened Atropos
  import opened Confirmation
  import opened ConsensusTime
  import opened Application
  import opened Election
  import opened RootStore
  import opened VectorIndex
  import opened MedianTime
  import opened EventRules
  import opened Decisions
  import opened FrameChecks
  import opened Poset

  /** Two nodes in the same epoch. */
  ghost predicate SameEpoch(p: Poset, q: Poset)
  {
    p.d == q.d && p.ep == q.ep
  }

  /**
   Consensus: whatever events two nodes of an epoch have processed, in whatever order, the one
   that decided fewer frames decided the same Atropoi, confirmed the same events on the same
   frames, fixed the same times and delivered the same blocks and cheaters as the other one did
   for those frames; unless the creators that forked among all these events exceed the fault bound.
   */
  lemma NodesAgree(p: Poset, q: Poset)
    requires p.Valid() && q.Valid() && SameEpoch(p, q) && p.lastDecidedFrame <= q.lastDecidedFrame
    requires p.Known() <= p.d.Keys && q.Known() <= q.d.Keys && FaultBound(p.stakes, Forkers(p.d, p.Known() + q.Known()))
    ensures p.atropoi <= q.atropoi
    ensures p.deliveries <= q.deliveries
    ensures p.frameInfos <= q.frameInfos
    ensures p.confirmedOn.Items <= q.confirmedOn.Items
  {
    hide AcceptedSet;
    hide AllAdmissible;
    hide AllElected;
    hide Index.Valid;
    hide Store.Valid;
    hide Voting.Valid;
    hide ConfirmedBy;
    hide Infos;
    hide Delivered;
    hide Run;
    hide OpenUntilLast;
    hide FaultBound;
    hide Forkers;
    var d, a, b := p.d, p.Known(), q.Known();
    UnionAccepted(d, p.stakes, a, b);
    WorldShrinks(d, p.stakes, a, a + b);
    WorldShrinks(d, p.stakes, b, a + b);
    ElectionsAgree(d, p.stakes, a, b, p.atropoi, q.atropoi);
    RunsExtend(d, p.ep.start, p.atropoi, q.atropoi);
    DeliveriesAgree(d, p.ep, p.atropoi, p.deliveries, q.atropoi, q.deliveries);
  }

  /** Once the application sealed the epoch on one node, no node decides more in that epoch. */
  lemma SealedTogether(p: Poset, q: Poset)
    requires p.Valid() && q.Valid() && SameEpoch(p, q) && p.sealed && p.lastDecidedFrame <= q.lastDecidedFrame
    requires p.Known() <= p.d.Keys && q.Known() <= q.d.Keys && FaultBound(p.stakes, Forkers(p.d, p.Known() + q.Known()))
    ensures q.sealed && p.deliveries == q.deliveries && p.appState == q.appState && p.appHash == q.appHash
    ensures p.lastBlockN == q.lastBlockN && p.lastAtropos == q.lastAtropos && p.atropoi == q.atropoi
    ensures p.lastDecidedFrame == q.lastDecidedFrame && p.frameInfos == q.frameInfos
  {
    hide Poset.EventsOk;
    hide Poset.ElectionsOk;
    hide Store.Valid;
    hide Voting.Valid;
    hide ConfirmedBy;
    hide Infos;
    hide IsDelivery;
    hide Run;
    hide FaultBound;
    hide Forkers;
    NodesAgree(p, q);
    SealingAgrees(p.ep, p.deliveries, q.deliveries);
  }

  /** A caught-up node has decided whatever a node that knows no more events has decided. */
  lemma MoreEventsDecideMore(p: Poset, q: Poset)
    requires p.Valid() && q.Valid() && SameEpoch(p, q) && p.Known() <= q.Known() && q.CaughtUp()
    requires q.Known() <= q.d.Keys && FaultBound(q.stakes, Forkers(q.d, q.Known()))
    ensures p.lastDecidedFrame <= q.lastDecidedFrame
  {
    hide AcceptedSet;
    hide AllAdmissible;
    hide AllElected;
    hide Elected;
    hide Index.Valid;
    hide Store.Valid;
    hide Voting.Valid;
    hide ConfirmedBy;
    hide Infos;
    hide Delivered;
    hide Run;
    hide OpenUntilLast;
    hide FaultBound;
    hide Forkers;
    var d, a, b := p.d, p.Known(), q.Known();
    var f := q.lastDecidedFrame;
    if f < p.lastDecidedFrame {
      WorldShrinks(d, p.stakes, a, b);
      AllElectedGrows(d, p.stakes, a, b, p.atropoi);
      ElectedIn(d, p.stakes, b, p.atropoi, f);
      q.NoAtroposYet(p.atropoi[f]);
    }
  }

  /** A caught-up node that knows an event above all frames of another has decided whatever that one has. */
  lemma HigherEventsDecideMore(p: Poset, q: Poset, e: EventId)
    requires p.Valid() && q.Valid() && SameEpoch(p, q) && q.CaughtUp()
    requires p.Known() <= p.d.Keys && q.Known() <= q.d.Keys && FaultBound(p.stakes, Forkers(p.d, p.Known() + q.Known()))
    requires e in q.Known() && forall x | x in p.Known() :: p.d[x].frame < p.d[e].frame
    ensures p.lastDecidedFrame <= q.lastDecidedFrame && p.atropoi <= q.atropoi
  {
    hide AcceptedSet;
    hide AllAdmissible;
    hide AllElected;
    hide Elected;
    hide Index.Valid;
    hide Store.Valid;
    hide Voting.Valid;
    hide ConfirmedBy;
    hide Infos;
    hide Delivered;
    hide Run;
    hide OpenUntilLast;
    hide FaultBound;
    hide Forkers;
    var d, a, b := p.d, p.Known(), q.Known();
    var f := q.lastDecidedFrame;
    if f < p.lastDecidedFrame {
      UnionAccepted(d, p.stakes, a, b);
      WorldShrinks(d, p.stakes, a, a + b);
      WorldShrinks(d, p.stakes, b, a + b);
      ElectedIn(d, p.stakes, a, p.atropoi, f);
      OthersElect(d, p.stakes, a + b, a, b, f + 1, p.atropoi[f], e);
      q.NoAtroposYet(p.atropoi[f]);
    } else {
      NodesAgree(p, q);
    }
  }

  /**
   Order independence of the whole state: two caught-up nodes that processed the same events, in
   whatever orders, agree on everything consensus decides and on the state of the application.
   */
  lemma SameEventsSameState(p: Poset, q: Poset)
    requires p.Valid() && q.Valid() && SameEpoch(p, q) && p.Known() == q.Known() && p.CaughtUp() && q.CaughtUp()
    requires p.Known() <= p.d.Keys && FaultBound(p.stakes, Forkers(p.d, p.Known()))
    ensures p.atropoi == q.atropoi && p.deliveries == q.deliveries
    ensures p.lastDecidedFrame == q.lastDecidedFrame && p.lastBlockN == q.lastBlockN && p.lastAtropos == q.lastAtropos
    ensures p.frameInfos == q.frameInfos && p.confirmedOn == q.confirmedOn
    ensures p.appState == q.appState && p.appHash == q.appHash && p.sealed == q.sealed
  {
    hide Poset.EventsOk;
    hide Poset.ElectionsOk;
    hide Store.Valid;
    hide Voting.Valid;
    hide ConfirmedBy;
    hide Infos;
    hide IsDelivery;
    hide Run;
    hide FaultBound;
    hide Forkers;
    assert p.Known() + q.Known() == p.Known();
    MoreEventsDecideMore(p, q);
    MoreEventsDecideMore(q, p);
    NodesAgree(p, q);
  }

  /** Nodes that sealed an epoch enter the same next one: the same validators, number, start, block and
      Atropos, and the same hash that first events are checked against. */
  lemma NextEpochsAgree(p: Poset, q: Poset)
    requires p.Valid() && q.Valid() && SameEpoch(p, q) && p.sealed && q.sealed
    requires p.Known() <= p.d.Keys && q.Known() <= q.d.Keys && FaultBound(p.stakes, Forkers(p.d, p.Known() + q.Known()))
    ensures |p.frameInfos| == p.lastDecidedFrame && |q.frameInfos| == q.lastDecidedFrame
    ensures p.NextEpoch() == q.NextEpoch() && p.NextEpoch().prevHash == q.NextEpoch().prevHash
  {
    hide Poset.Valid;
    hide FaultBound;
    hide Forkers;
    EpochShape(p);
    EpochShape(q);
    assert q.Known() + p.Known() == p.Known() + q.Known();
    if p.lastDecidedFrame <= q.lastDecidedFrame {
      SealedTogether(p, q);
    } else {
      SealedTogether(q, p);
    }
  }

  lemma EpochShape(p: Poset)
    requires p.Valid()
    ensures |p.frameInfos| == p.lastDecidedFrame && p.stakes == p.ep.stakes
  {
    hide Poset.EventsOk;
    hide Poset.ElectionsOk;
    hide Store.Valid;
    hide Voting.Valid;
    hide ConfirmedBy;
    hide Delivered;
    hide Run;
    hide OpenUntilLast;
  }

  /** The chain of blocks goes on across epochs. */
  lemma BlocksChainAcrossEpochs(p: Poset, q: Poset)
    requires p.Valid() && q.Valid() && |p.frameInfos| == p.lastDecidedFrame && q.ep == p.NextEpoch()
    requires p.deliveries != [] && q.deliveries != []
    ensures var last, first := p.deliveries[|p.deliveries| - 1].block, q.deliveries[0].block;
            first.prevHash == last.atropos && first.index == last.index + 1
  {
    hide Poset.EventsOk;
    hide Poset.ElectionsOk;
    hide Store.Valid;
    hide Voting.Valid;
    hide ConfirmedBy;
    hide Infos;
    hide Delivered;
    hide Run;
    hide OpenUntilLast;
    BlocksChain(p.d, p.ep, p.atropoi, p.deliveries, |p.deliveries| - 1);
    BlocksChain(q.d, q.ep, q.atropoi, q.deliveries, 0);
    assert |p.deliveries| == |p.atropoi| by {
      SameLength(p.d, p.ep, p.atropoi, p.deliveries);
    }
  }

  lemma SameLength(d: Dag, ep: Epoch, atropoi: seq<EventId>, deliveries: seq<Delivery>)
    requires AllIn(d, atropoi) && Delivered(d, ep, atropoi, deliveries)
    ensures |deliveries| == |atropoi|
  {}

  /**
   The time of the last block is an honest one: if less than half of the stake that its Atropos did not see
   forking is outside a window, and the window begins with room for the frame's Lamport steps, the time is
   not after the window and less than those steps before it.
   */
  lemma BlockTimeIsHonest(p: Poset, lo: nat, hi: nat)
    requires p.Valid() && AllIn(p.d, p.atropoi) && p.atropoi != [] && |p.frameInfos| == p.lastDecidedFrame
    requires FieldsFit(p.d) && NoOverflow(p.d, p.ep.start, p.atropoi)
    requires var a := AllInLast(p.d, p.atropoi);
             StakeOf(p.stakes, HonestOutside(p.d, |p.stakes|, a, p.ep.start, lo, hi))
             < StakeOf(p.stakes, Honest(p.d, |p.stakes|, a)) / 2
    requires var ids := NewlyConfirmed(p.d, p.atropoi);
             LastAt(p.ep.start, p.frameInfos, p.lastDecidedFrame - 1) + Steps(p.d, ids) <= lo
    ensures var time := LastAt(p.ep.start, p.frameInfos, p.lastDecidedFrame);
            lo - Steps(p.d, NewlyConfirmed(p.d, p.atropoi)) < time <= hi
  {
    hide Poset.ElectionsOk;
    hide AcceptedSet;
    hide Index.Valid;
    hide Store.Valid;
    hide Voting.Valid;
    hide ConfirmedBy;
    hide NewlyConfirmed;
    hide Infos;
    hide NoOverflow;
    hide FieldsFit;
    hide Delivered;
    hide Run;
    hide OpenUntilLast;
    hide StakeOf;
    hide Honest;
    hide HonestOutside;
    hide IsMedianTime;
    hide FrameOk;
    hide LinksToCheater;
    var a := AllInLast(p.d, p.atropoi);
    assert a in p.Known();
    MedianTimeWithin(p.d, p.stakes, a, p.ep.start, p.d[a].medianTime, lo, hi);
    BlockTimeFollowsMedian(p.d, p.ep.start, p.atropoi);
  }

  /** The Lamport steps of some events. */
  ghost function Steps(d: Dag, ids: set<EventId>): (n: int)
    requires ids <= d.Keys
  {
    Highest(d, ids) - Lowest(d, ids) + 1
  }

  /** Block times strictly increase across epochs too: every block of the next epoch is later than
      every block of the sealed one. */
  lemma TimesRiseAcrossEpochs(p: Poset, q: Poset, i: nat, j: nat)
    requires p.Valid() && q.Valid() && |p.frameInfos| == p.lastDecidedFrame && q.ep == p.NextEpoch()
    requires i <= p.lastDecidedFrame && 1 <= j <= q.lastDecidedFrame && |q.frameInfos| == q.lastDecidedFrame
    requires AllIn(p.d, p.atropoi) && FieldsFit(p.d) && NoOverflow(p.d, p.ep.start, p.atropoi)
    requires AllIn(q.d, q.atropoi) && FieldsFit(q.d) && NoOverflow(q.d, q.ep.start, q.atropoi)
    ensures LastAt(p.ep.start, p.frameInfos, i) < LastAt(q.ep.start, q.frameInfos, j)
  {
    hide Poset.EventsOk;
    hide Poset.ElectionsOk;
    hide Store.Valid;
    hide Voting.Valid;
    hide ConfirmedBy;
    hide Infos;
    hide NoOverflow;
    hide Delivered;
    hide Run;
    hide OpenUntilLast;
    if i < p.lastDecidedFrame {
      BlockTimesIncrease(p.d, p.ep.start, p.atropoi, i, p.lastDecidedFrame);
    }
    BlockTimesIncrease(q.d, q.ep.start, q.atropoi, 0, j);
  }
}
