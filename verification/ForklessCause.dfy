/**
 The forkless-cause relation as a statement about the graph, and the theorem the
 consensus algorithm rests on.
 */
module ForklessCause {
  import opened Dag
  import opened Stake

  /** `a` observes two events of `c` with the same number. */
  ghost predicate SeesFork(d: Dag, a: EventId, c: nat)
    requires a in d
  {
    ForkIn(d, Past(d, a), c)
  }

  /** An event of a creator not seen forking by `a`, observed by `a` and observing `b`. */
  ghost predicate Supports(d: Dag, a: EventId, b: EventId, x: EventId)
    requires a in d && x in d
  {
    x in Past(d, a) && b in Past(d, x) && !SeesFork(d, a, d[x].creator)
  }

  ghost function Supporters(d: Dag, a: EventId, b: EventId): (who: set<nat>)
    requires a in d
  {
    set x | x in Past(d, a) && Supports(d, a, b, x) :: d[x].creator
  }

  /** `a` sees no fork by the creator of `b`, and sees `b` observed by a quorum of non-forking creators. */
  ghost predicate ForklessCauses(d: Dag, stakes: seq<nat>, a: EventId, b: EventId)
    requires a in d && b in d
  {
    && !SeesFork(d, a, d[b].creator)
    && StakeOf(stakes, Supporters(d, a, b)) >= Quorum(stakes)
  }

  /** Creators with a fork among the given events. */
  ghost function Forkers(d: Dag, ids: set<EventId>): (who: set<nat>)
    requires ids <= d.Keys
  {
    set x | x in ids && ForkIn(d, ids, d[x].creator) :: d[x].creator
  }

  /** A forkless-caused event is observed. */
  lemma CausedIsObserved(d: Dag, stakes: seq<nat>, a: EventId, b: EventId)
    requires a in d && b in d && ForklessCauses(d, stakes, a, b)
    ensures b in Past(d, a)
  {
    if b !in Past(d, a) {
      forall x | x in Past(d, a)
        ensures b !in Past(d, x)
      {
        PastTransitive(d, a, x);
      }
      assert Supporters(d, a, b) == {};
      StakeNone(stakes, |stakes|);
    }
  }

  /** The verdict does not depend on which later or unrelated events are known. */
  lemma ForklessCauseStable(d: Dag, d': Dag, stakes: seq<nat>, a: EventId, b: EventId)
    requires a in d && b in d
    requires forall id | id in d :: id in d' && d'[id] == d[id]
    ensures ForklessCauses(d, stakes, a, b) == ForklessCauses(d', stakes, a, b)
  {
    SeesForkStable(d, d', a, d[b].creator);
    PastStable(d, d', a);
    forall x | x in Past(d, a)
      ensures Supports(d, a, b, x) == Supports(d', a, b, x)
    {
      SupportsStable(d, d', a, b, x);
    }
    assert Supporters(d, a, b) == Supporters(d', a, b);
  }

  lemma SupportsStable(d: Dag, d': Dag, a: EventId, b: EventId, x: EventId)
    requires a in d && x in d
    requires forall id | id in d :: id in d' && d'[id] == d[id]
    ensures Supports(d, a, b, x) == Supports(d', a, b, x)
  {
    PastStable(d, d', a);
    PastStable(d, d', x);
    SeesForkStable(d, d', a, d[x].creator);
  }

  lemma SeesForkStable(d: Dag, d': Dag, a: EventId, c: nat)
    requires a in d
    requires forall id | id in d :: id in d' && d'[id] == d[id]
    ensures SeesFork(d, a, c) == SeesFork(d', a, c)
  {
    PastStable(d, d', a);
    assert forall x, y | x in Past(d, a) && y in Past(d, a) :: ForkPair(d, x, y) == ForkPair(d', x, y);
  }

  /**
   The base of the BFT algorithm. Take two forking events `b1` and `b2` of one creator. As
   long as the creators that forked anywhere in `ids` are within the fault bound, no two
   events `a1` and `a2` of `ids`, equal or not, are forkless-caused by `b1` and by `b2`.
   */
  lemma ForksNotBothCaused(d: Dag, stakes: seq<nat>, ids: set<EventId>,
                           a1: EventId, b1: EventId, a2: EventId, b2: EventId)
    requires Closed(d, ids) && a1 in ids && a2 in ids
    requires FaultBound(stakes, Forkers(d, ids))
    requires b1 in d && b2 in d && OffChain(d, b1, b2)
    ensures !(ForklessCauses(d, stakes, a1, b1) && ForklessCauses(d, stakes, a2, b2))
  {
    if ForklessCauses(d, stakes, a1, b1) && ForklessCauses(d, stakes, a2, b2) {
      var v := QuorumsShareHonest(stakes, Supporters(d, a1, b1), Supporters(d, a2, b2), Forkers(d, ids));
      var x1 :| x1 in Past(d, a1) && b1 in Past(d, x1) && d[x1].creator == v;
      var x2 :| x2 in Past(d, a2) && b2 in Past(d, x2) && d[x2].creator == v;
      ClosedHoldsPast(d, ids, a1);
      ClosedHoldsPast(d, ids, a2);
      assert !ForkIn(d, ids, v);
      if d[x1].seqNo <= d[x2].seqNo {
        SharedSupporterSeesBoth(d, ids, a2, x2, x1, b2, b1);
      } else {
        SharedSupporterSeesBoth(d, ids, a1, x1, x2, b1, b2);
      }
    }
  }

  /** The higher of two events of an honest supporter observes both forks, and so does whoever observes it. */
  lemma SharedSupporterSeesBoth(d: Dag, ids: set<EventId>, a: EventId, hi: EventId, lo: EventId, b: EventId,
                                b': EventId)
    requires Closed(d, ids) && a in ids && hi in ids && lo in ids && hi in Past(d, a)
    requires d[hi].creator == d[lo].creator && d[lo].seqNo <= d[hi].seqNo
    requires !ForkIn(d, ids, d[hi].creator)
    requires b in Past(d, hi) && b' in Past(d, lo) && OffChain(d, b', b)
    ensures SeesFork(d, a, d[b].creator)
  {
    NoForkChain(d, ids, hi, lo);
    PastTransitive(d, hi, lo);
    PastTransitive(d, a, hi);
    PastClosed(d, a);
    OffChainGivesFork(d, Past(d, a), b', b);
  }
}
