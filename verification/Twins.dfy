/**
 Two headers that differ only in the fields consensus fills in observe the same and get the
 same answers. An event is prepared under one hash and checked under another.
 */
module Twins {
  import opened Dag
  import opened Branches
  import opened HighestBefore
  import opened ForklessCause
  import opened MergedClock
  import opened MedianTime
  import WeightedMedian

  /** Different ids, outside the known events, with the same place in the graph. */
  ghost predicate Twin(d: Dag, ids: set<EventId>, a: EventId, b: EventId)
  {
    && Closed(d, ids) && a in d && b in d && a !in ids && b !in ids
    && d[a].creator == d[b].creator && d[a].seqNo == d[b].seqNo && d[a].lamport == d[b].lamport
    && d[a].claimedTime == d[b].claimedTime && d[a].parents == d[b].parents
    && forall p | p in d[a].parents :: p in ids
  }

  /** What both observe besides themselves. */
  ghost function Shared(d: Dag, a: EventId): (ids: set<EventId>)
    requires a in d
  {
    PastOf(d, d[a].parents)
  }

  lemma TwinPast(d: Dag, ids: set<EventId>, a: EventId, b: EventId)
    requires Twin(d, ids, a, b)
    ensures Past(d, a) == {a} + Shared(d, a) && Past(d, b) == {b} + Shared(d, a)
    ensures Shared(d, a) <= ids
  {
    PastUnfold(d, a);
    PastUnfold(d, b);
    forall x | x in Shared(d, a)
      ensures x in ids
    {
      var p :| p in d[a].parents && x in Past(d, p);
      ClosedHoldsPast(d, ids, p);
    }
  }

  lemma TwinFork(d: Dag, ids: set<EventId>, a: EventId, b: EventId, c: nat)
    requires Twin(d, ids, a, b)
    ensures SeesFork(d, a, c) ==> SeesFork(d, b, c)
  {
    TwinPast(d, ids, a, b);
    if SeesFork(d, a, c) {
      var x, y :| x in Past(d, a) && y in Past(d, a) && ForkPair(d, x, y) && d[x].creator == c;
      ForkMoves(d, Shared(d, a), a, b, x, y);
    }
  }

  lemma ForkMoves(d: Dag, common: set<EventId>, a: EventId, b: EventId, x: EventId, y: EventId)
    requires a in d && b in d && common <= d.Keys && b !in common
    requires d[a].creator == d[b].creator && d[a].seqNo == d[b].seqNo
    requires x in {a} + common && y in {a} + common && ForkPair(d, x, y)
    ensures ForkIn(d, {b} + common, d[x].creator)
  {
    var x', y' := if x == a then b else x, if y == a then b else y;
    assert ForkPair(d, x', y');
  }

  lemma TwinSupport(d: Dag, ids: set<EventId>, a: EventId, b: EventId, r: EventId)
    requires Twin(d, ids, a, b) && r in ids
    ensures Supporters(d, a, r) <= Supporters(d, b, r)
  {
    hide SeesFork;
    TwinPast(d, ids, a, b);
    forall x | x in Past(d, a) && Supports(d, a, r, x)
      ensures d[x].creator in Supporters(d, b, r)
    {
      TwinFork(d, ids, b, a, d[x].creator);
      var x' := if x == a then b else x;
      assert x' in Past(d, b) && Supports(d, b, r, x');
    }
  }

  /** A twin is forkless-caused by the same known events. */
  lemma TwinCaused(d: Dag, stakes: seq<nat>, ids: set<EventId>, a: EventId, b: EventId, r: EventId)
    requires Twin(d, ids, a, b) && r in ids
    ensures ForklessCauses(d, stakes, a, r) == ForklessCauses(d, stakes, b, r)
  {
    hide SeesFork;
    hide Supporters;
    TwinFork(d, ids, a, b, d[r].creator);
    TwinFork(d, ids, b, a, d[r].creator);
    TwinSupport(d, ids, a, b, r);
    TwinSupport(d, ids, b, a, r);
    assert Supporters(d, a, r) == Supporters(d, b, r);
  }

  lemma TwinCreatorRange(d: Dag, ids: set<EventId>, a: EventId, b: EventId, c: nat, r: BranchSeq, t: nat)
    requires Twin(d, ids, a, b) && CreatorRange(d, Past(d, a), c, r, t)
    ensures CreatorRange(d, Past(d, b), c, r, t)
  {
    TwinPast(d, ids, a, b);
    TwinFork(d, ids, a, b, c);
    TwinFork(d, ids, b, a, c);
    if !SeesFork(d, a, c) {
      TwinRange(d, Shared(d, a), a, b, c, r, t);
    }
  }

  lemma TwinRange(d: Dag, common: set<EventId>, a: EventId, b: EventId, c: nat, r: BranchSeq, t: nat)
    requires a in d && b in d && common <= d.Keys
    requires d[a].creator == d[b].creator && d[a].seqNo == d[b].seqNo && d[a].claimedTime == d[b].claimedTime
    requires RangeOf(d, ByCreator(d, {a} + common, c), r, t)
    ensures RangeOf(d, ByCreator(d, {b} + common, c), r, t)
  {
    var mine, his := ByCreator(d, {a} + common, c), ByCreator(d, {b} + common, c);
    assert forall x | x in his :: (if x == b then a else x) in mine;
    if r.high != 0 {
      var x :| x in mine && d[x].seqNo == r.high && d[x].claimedTime == t;
      var y :| y in mine && d[y].seqNo == r.low;
      assert (if x == a then b else x) in his && (if y == a then b else y) in his;
    }
  }

  /** A twin has the same median time. */
  lemma TwinMedian(d: Dag, stakes: seq<nat>, ids: set<EventId>, a: EventId, b: EventId, start: nat, m: nat)
    requires Twin(d, ids, a, b) && IsMedianTime(d, stakes, a, start, m)
    ensures IsMedianTime(d, stakes, b, start, m)
  {
    hide CreatorRange;
    var ms, mt :| MergedExact(d, |stakes|, Past(d, a), ms, mt)
        && WeightedMedian.IsMedian(Readings(stakes, ms, mt, start), m);
    forall c | 0 <= c < |stakes|
      ensures CreatorRange(d, Past(d, b), c, ms[c], mt[c])
    {
      assert CreatorRange(d, Past(d, a), c, ms[c], mt[c]);
      TwinCreatorRange(d, ids, a, b, c, ms[c], mt[c]);
    }
    assert MergedExact(d, |stakes|, Past(d, b), ms, mt);
  }
}
