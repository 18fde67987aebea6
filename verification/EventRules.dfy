/**
 What the consensus checks decide about a new event, as a statement about the graph.
 */
module EventRules {
  import opened Dag
  import opened ForklessCause
  import opened Frames
  import opened Common
  import opened Branches
  import opened HighestBefore
  import opened MergedClock
  import opened MedianTime

  datatype Verdict =
    | Accepted
    | ErrAuth
    | ErrWrongEpochHash
    | ErrNonZeroEpochHash
    | ErrCheatersObserved
    | ErrWrongIsRoot
    | ErrWrongFrame
    | ErrWrongMedianTime

  /** No parent is by a creator the self-parent saw forking. */
  ghost predicate NoCheaterParents(d: Dag, e: Event)
    requires AllIn(d, e.parents)
  {
    e.SelfParent().Some? ==>
      var s := e.parents[0];
      s in d && forall p | p in e.parents :: !SeesFork(d, s, d[p].creator)
  }

  /** The root verdict the check calculates for the event's claims. */
  ghost predicate CalcIsRoot(d: Dag, stakes: seq<nat>, id: EventId)
    requires id in d
  {
    var e := d[id];
    assert e.SelfParent().Some? ==> e.parents[0] in e.parents;
    || e.parents == []
    || (e.isRoot && e.frame == SelfParentFrame(d, e) + 1 && (e.frame <= 1 || QuorumOn(d, stakes, id, e.frame - 1)))
  }

  /** The frame the check calculates for the event's claims. */
  ghost function CalcFrame(d: Dag, id: EventId): (f: nat)
    requires id in d
  {
    var e := d[id];
    assert e.SelfParent().Some? ==> e.parents[0] in e.parents;
    if e.parents == [] then 1
    else SelfParentFrame(d, e) + if e.isRoot then 1 else 0
  }

  /** The verdict on an event, in the order of the checks. */
  ghost function VerdictOf(d: Dag, stakes: seq<nat>, epochHash: nat, start: nat, id: EventId): (v: Verdict)
    requires id in d
  {
    var e := d[id];
    assert AllIn(d, e.parents);
    assert e.SelfParent().Some? ==> e.parents[0] in e.parents;
    if e.creator >= |stakes| then ErrAuth
    else if e.seqNo <= 1 && e.prevEpochHash != epochHash then ErrWrongEpochHash
    else if e.seqNo > 1 && e.prevEpochHash != 0 then ErrNonZeroEpochHash
    else if !NoCheaterParents(d, e) then ErrCheatersObserved
    else if e.isRoot != CalcIsRoot(d, stakes, id) then ErrWrongIsRoot
    else if e.frame != CalcFrame(d, id) then ErrWrongFrame
    else if !IsMedianTime(d, stakes, id, start, e.medianTime) then ErrWrongMedianTime
    else Accepted
  }

  /** Breaking the frame rule is what the two frame errors mean. */
  lemma FrameErrors(d: Dag, stakes: seq<nat>, id: EventId)
    requires id in d && d[id].frame >= 1
    ensures d[id].isRoot == CalcIsRoot(d, stakes, id) && d[id].frame == CalcFrame(d, id) <==> FrameOk(d, stakes, id)
  {
    hide QuorumOn;
  }

  /** Some parent is by a creator that the self-parent saw forking. */
  ghost predicate LinksToCheater(d: Dag, id: EventId)
    requires id in d
  {
    exists s, p | d[id].SelfParent() == Some(s) && p in d[id].parents ::
      s in d && p in d && SeesFork(d, s, d[p].creator)
  }

  lemma LinksIff(d: Dag, id: EventId)
    requires id in d
    ensures AllIn(d, d[id].parents) && (LinksToCheater(d, id) <==> !NoCheaterParents(d, d[id]))
  {
    hide SeesFork;
    ParentsExist(d, id);
  }

  /** What an event must be to become part of an epoch, in terms of the graph: by a validator, committing to
      the previous epoch with its first event only, linking to nobody its self-parent saw forking, and with
      the frame, root flag and median time that follow from what it observes. */
  ghost predicate Admissible(d: Dag, stakes: seq<nat>, epochHash: nat, start: nat, id: EventId)
    requires id in d
  {
    var e := d[id];
    && e.creator < |stakes|
    && e.prevEpochHash == (if e.seqNo <= 1 then epochHash else 0)
    && !LinksToCheater(d, id)
    && FrameOk(d, stakes, id)
    && IsMedianTime(d, stakes, id, start, e.medianTime)
  }

  /** Exactly those events are accepted. */
  lemma AcceptedIff(d: Dag, stakes: seq<nat>, epochHash: nat, start: nat, id: EventId)
    requires id in d && d[id].frame >= 1
    ensures VerdictOf(d, stakes, epochHash, start, id) == Accepted <==> Admissible(d, stakes, epochHash, start, id)
  {
    hide QuorumOn;
    hide IsMedianTime;
    hide SeesFork;
    hide FrameOk;
    hide CalcIsRoot;
    hide CalcFrame;
    hide LinksToCheater;
    hide NoCheaterParents;
    LinksIff(d, id);
    FrameErrors(d, stakes, id);
  }

  lemma ParentsExist(d: Dag, id: EventId)
    requires id in d
    ensures AllIn(d, d[id].parents) && (d[id].SelfParent().Some? ==> d[id].parents[0] in d[id].parents)
  {}

  /** Every error names the first thing that is wrong. */
  lemma ErrorsMean(d: Dag, stakes: seq<nat>, epochHash: nat, start: nat, id: EventId)
    requires id in d && d[id].frame >= 1
    ensures var e, v := d[id], VerdictOf(d, stakes, epochHash, start, id);
            var hashOk := e.prevEpochHash == if e.seqNo <= 1 then epochHash else 0;
            var links := LinksToCheater(d, id);
            && (v == ErrAuth <==> e.creator >= |stakes|)
            && (v == ErrWrongEpochHash || v == ErrNonZeroEpochHash <==> e.creator < |stakes| && !hashOk)
            && (v == ErrWrongEpochHash ==> e.seqNo <= 1) && (v == ErrNonZeroEpochHash ==> e.seqNo > 1)
            && (v == ErrCheatersObserved <==> e.creator < |stakes| && hashOk && links)
            && (v == ErrWrongIsRoot || v == ErrWrongFrame <==>
                e.creator < |stakes| && hashOk && !links && !FrameOk(d, stakes, id))
            && (v == ErrWrongMedianTime <==>
                && e.creator < |stakes| && hashOk && !links && FrameOk(d, stakes, id)
                && !IsMedianTime(d, stakes, id, start, e.medianTime))
  {
    hide QuorumOn;
    hide IsMedianTime;
    hide SeesFork;
    hide FrameOk;
    hide CalcIsRoot;
    hide CalcFrame;
    hide LinksToCheater;
    hide NoCheaterParents;
    LinksIff(d, id);
    FrameErrors(d, stakes, id);
  }

  /** The quorum behind a root does not depend on which later or unrelated events are known. */
  lemma QuorumStable(d: Dag, d': Dag, stakes: seq<nat>, a: EventId, f: nat)
    requires a in d
    requires forall id | id in d :: id in d' && d'[id] == d[id]
    ensures QuorumOn(d, stakes, a, f) == QuorumOn(d', stakes, a, f)
  {
    hide ForklessCauses;
    PastStable(d, d', a);
    forall r | r in Past(d, a)
      ensures ForklessCauses(d, stakes, a, r) == ForklessCauses(d', stakes, a, r)
    {
      ForklessCauseStable(d, d', stakes, a, r);
    }
    assert VisibleRoots(d, stakes, a, f) == VisibleRoots(d', stakes, a, f);
    assert Creators(d, VisibleRoots(d, stakes, a, f)) == Creators(d', VisibleRoots(d', stakes, a, f));
  }

  lemma CreatorRangeStable(d: Dag, d': Dag, ids: set<EventId>, c: nat, r: BranchSeq, t: nat)
    requires ids <= d.Keys && forall id | id in d :: id in d' && d'[id] == d[id]
    ensures CreatorRange(d, ids, c, r, t) == CreatorRange(d', ids, c, r, t)
  {
    assert forall x, y | x in ids && y in ids :: ForkPair(d, x, y) == ForkPair(d', x, y);
    assert ByCreator(d, ids, c) == ByCreator(d', ids, c);
    assert RangeOf(d, ByCreator(d, ids, c), r, t) == RangeOf(d', ByCreator(d, ids, c), r, t);
  }

  /** Nor does the median time. */
  lemma MedianStable(d: Dag, d': Dag, stakes: seq<nat>, a: EventId, start: nat, m: nat)
    requires a in d && forall id | id in d :: id in d' && d'[id] == d[id]
    ensures IsMedianTime(d, stakes, a, start, m) == IsMedianTime(d', stakes, a, start, m)
  {
    hide CreatorRange;
    PastStable(d, d', a);
    forall c: nat, r, t
      ensures CreatorRange(d, Past(d, a), c, r, t) == CreatorRange(d', Past(d, a), c, r, t)
    {
      CreatorRangeStable(d, d', Past(d, a), c, r, t);
    }
    forall ms, mt
      ensures MergedExact(d, |stakes|, Past(d, a), ms, mt) == MergedExact(d', |stakes|, Past(d, a), ms, mt)
    {
    }
  }

  lemma CheaterParentsStable(d: Dag, d': Dag, e: Event)
    requires AllIn(d, e.parents) && forall id | id in d :: id in d' && d'[id] == d[id]
    ensures NoCheaterParents(d, e) == NoCheaterParents(d', e)
  {
    hide SeesFork;
    if e.SelfParent().Some? {
      var s := e.parents[0];
      assert s in e.parents;
      forall c
        ensures SeesFork(d, s, c) == SeesFork(d', s, c)
      {
        SeesForkStable(d, d', s, c);
      }
    }
  }

  /** No node that knows more events, or learned them in another order, judges an event otherwise. */
  lemma VerdictStable(d: Dag, d': Dag, stakes: seq<nat>, epochHash: nat, start: nat, id: EventId)
    requires id in d && forall x | x in d :: x in d' && d'[x] == d[x]
    ensures VerdictOf(d, stakes, epochHash, start, id) == VerdictOf(d', stakes, epochHash, start, id)
  {
    hide NoCheaterParents;
    hide QuorumOn;
    hide IsMedianTime;
    var e := d[id];
    CheaterParentsStable(d, d', e);
    MedianStable(d, d', stakes, id, start, e.medianTime);
    if e.frame >= 1 {
      QuorumStable(d, d', stakes, id, e.frame - 1);
    }
    assert e.SelfParent().Some? ==> e.parents[0] in e.parents;
  }
}
