/**
 Frames and roots: the rule every accepted event follows, and what it means for whole
 chains and whole sets of accepted events.
 */
module Frames {
  import opened Dag
  import opened Stake
  import opened ForklessCause

  /** The frame of the self-parent, or 0. */
  function SelfParentFrame(d: map<EventId, Event>, e: Event): (f: nat)
    requires e.SelfParent().Some? ==> e.SelfParent().value in d
  {
    match e.SelfParent()
    case Some(p) => d[p].frame
    case None => 0
  }

  /** The roots of a frame that forkless-cause `a`. */
  ghost function VisibleRoots(d: Dag, stakes: seq<nat>, a: EventId, f: nat): (roots: set<EventId>)
    requires a in d
    ensures roots <= Past(d, a)
    ensures forall r | r in roots :: d[r].isRoot && d[r].frame == f
  {
    set r | r in Past(d, a) && d[r].isRoot && d[r].frame == f && ForklessCauses(d, stakes, a, r)
  }

  ghost function Creators(d: Dag, ids: set<EventId>): (who: set<nat>)
    requires ids <= d.Keys
  {
    set x | x in ids :: d[x].creator
  }

  /** A quorum of validators has roots at the frame that forkless-cause `a`. */
  ghost predicate QuorumOn(d: Dag, stakes: seq<nat>, a: EventId, f: nat)
    requires a in d
  {
    StakeOf(stakes, Creators(d, VisibleRoots(d, stakes, a, f))) >= Quorum(stakes)
  }

  /** What the frame check admits. */
  ghost predicate FrameOk(d: Dag, stakes: seq<nat>, id: EventId)
    requires id in d
  {
    var e := d[id];
    assert e.SelfParent().Some? ==> e.parents[0] in e.parents;
    var below := SelfParentFrame(d, e);
    && e.frame >= 1
    && (e.parents == [] ==> e.isRoot)
    && (if e.isRoot then e.frame == below + 1 && (e.frame == 1 || QuorumOn(d, stakes, id, e.frame - 1))
        else e.frame == below)
  }

  /** A parent-closed set of events that all passed the frame check. */
  ghost predicate AcceptedSet(d: Dag, stakes: seq<nat>, ids: set<EventId>)
  {
    && Closed(d, ids)
    && forall id {:trigger FrameOk(d, stakes, id)} | id in ids :: FrameOk(d, stakes, id)
  }

  /** `r` is an accepted root of frame `f`. */
  predicate RootOf(d: map<EventId, Event>, ids: set<EventId>, f: nat, r: EventId)
  {
    r in ids && r in d && d[r].isRoot && d[r].frame == f
  }

  // ---------- along one chain ----------

  /** Along an accepted self-parent chain frames start at 1 with a root, rise by at most one per
      event, and rise exactly at roots. */
  lemma FrameStep(d: Dag, stakes: seq<nat>, ids: set<EventId>, x: EventId)
    requires AcceptedSet(d, stakes, ids) && x in ids
    ensures d[x].seqNo == 1 ==> d[x].frame == 1 && d[x].isRoot
    ensures d[x].seqNo > 1 ==>
              && d[x].parents[0] in ids
              && d[x].frame == d[d[x].parents[0]].frame + if d[x].isRoot then 1 else 0
  {
    assert FrameOk(d, stakes, x);
    assert d[x].seqNo > 1 ==> d[x].parents[0] in d[x].parents;
  }

  lemma {:induction false} ChainFrames(d: Dag, stakes: seq<nat>, ids: set<EventId>, x: EventId, s: nat)
    requires AcceptedSet(d, stakes, ids) && x in ids && 1 <= s <= d[x].seqNo
    ensures ChainAt(d, x, s) in ids
    ensures d[ChainAt(d, x, s)].frame <= d[x].frame
    ensures s < d[x].seqNo && d[x].isRoot ==> d[ChainAt(d, x, s)].frame < d[x].frame
    ensures d[x].frame <= d[ChainAt(d, x, s)].frame + (d[x].seqNo - s)
    decreases d[x].lamport
  {
    FrameStep(d, stakes, ids, x);
    if s < d[x].seqNo {
      assert d[x].parents[0] in d[x].parents;
      ChainFrames(d, stakes, ids, d[x].parents[0], s);
    }
  }

  /** Every frame up to an event's own has a root on its self-parent chain. */
  lemma {:induction false} ChainRoot(d: Dag, stakes: seq<nat>, ids: set<EventId>, x: EventId, f: nat)
    returns (r: EventId)
    requires AcceptedSet(d, stakes, ids) && x in ids && 1 <= f <= d[x].frame
    ensures RootOf(d, ids, f, r) && d[r].creator == d[x].creator && r in Past(d, x)
    decreases d[x].lamport
  {
    FrameStep(d, stakes, ids, x);
    if d[x].isRoot && d[x].frame == f {
      r := x;
    } else {
      var p := d[x].parents[0];
      assert p in d[x].parents;
      r := ChainRoot(d, stakes, ids, p, f);
      assert r in Past(d, p);
    }
  }

  /** Two different roots of one creator at one frame are a fork. */
  lemma RootsOfSlotFork(d: Dag, stakes: seq<nat>, ids: set<EventId>, r1: EventId, r2: EventId)
    requires AcceptedSet(d, stakes, ids) && r1 in ids && r2 in ids && r1 != r2
    requires d[r1].isRoot && d[r2].isRoot && d[r1].frame == d[r2].frame && d[r1].creator == d[r2].creator
    ensures OffChain(d, r1, r2)
  {
    assert d[r1].seqNo >= 1 && d[r2].seqNo >= 1;
    if d[r2].seqNo <= d[r1].seqNo {
      ChainFrames(d, stakes, ids, r1, d[r2].seqNo);
    }
    if d[r1].seqNo <= d[r2].seqNo {
      ChainFrames(d, stakes, ids, r2, d[r1].seqNo);
    }
  }

  /** A validator without forks has at most one root per frame. */
  lemma HonestRootUnique(d: Dag, stakes: seq<nat>, ids: set<EventId>, r1: EventId, r2: EventId)
    requires AcceptedSet(d, stakes, ids) && r1 in ids && r2 in ids
    requires d[r1].isRoot && d[r2].isRoot && d[r1].frame == d[r2].frame && d[r1].creator == d[r2].creator
    requires !ForkIn(d, ids, d[r1].creator)
    ensures r1 == r2
  {
    if r1 != r2 {
      RootsOfSlotFork(d, stakes, ids, r1, r2);
      OffChainGivesFork(d, ids, r1, r2);
    }
  }

  // ---------- across the set ----------

  /** The accepted roots of a frame. */
  ghost function RootsAt(d: Dag, ids: set<EventId>, f: nat): (roots: set<EventId>)
    requires ids <= d.Keys
    ensures forall r :: r in roots <==> RootOf(d, ids, f, r)
  {
    set r | r in ids && RootOf(d, ids, f, r)
  }

  lemma VisibleAreAccepted(d: Dag, stakes: seq<nat>, ids: set<EventId>, a: EventId, f: nat)
    requires Closed(d, ids) && a in ids
    ensures VisibleRoots(d, stakes, a, f) <= RootsAt(d, ids, f)
  {
    ClosedHoldsPast(d, ids, a);
  }

  /** A frame above the first with any root has a quorum of validators with roots one frame below. */
  lemma QuorumBelow(d: Dag, stakes: seq<nat>, ids: set<EventId>, f: nat, r: EventId)
    requires AcceptedSet(d, stakes, ids) && RootOf(d, ids, f, r) && f > 1
    ensures StakeOf(stakes, Creators(d, RootsAt(d, ids, f - 1))) >= Quorum(stakes)
  {
    assert FrameOk(d, stakes, r);
    VisibleAreAccepted(d, stakes, ids, r, f - 1);
    StakeMonotone(stakes, Creators(d, VisibleRoots(d, stakes, r, f - 1)), Creators(d, RootsAt(d, ids, f - 1)));
  }

  /** There are no holes: below a frame with roots every frame has a root. */
  lemma {:induction false} NoHoles(d: Dag, stakes: seq<nat>, ids: set<EventId>, f: nat, g: nat)
    requires AcceptedSet(d, stakes, ids) && 1 <= g <= f
    requires RootsAt(d, ids, f) != {}
    ensures RootsAt(d, ids, g) != {}
  {
    var r :| r in RootsAt(d, ids, f);
    var r' := ChainRoot(d, stakes, ids, r, g);
    assert r' in RootsAt(d, ids, g);
  }
}
