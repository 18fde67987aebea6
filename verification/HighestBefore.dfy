/**
 What the HighestBefore vectors of an event must hold, and the merging and fork detection
 steps that compute them.
 */
module HighestBefore {
  import opened Dag
  import opened Branches

  /** The events of `ids` that lie on branch `br`. */
  ghost function Part(at: map<EventId, nat>, ids: set<EventId>, br: nat): (part: set<EventId>)
    ensures part <= ids
  {
    set x | x in ids && x in at && at[x] == br
  }

  /** `r` holds the highest and lowest numbers of the events, and `t` the claimed time of a highest;
      all zero if there are no events. */
  ghost predicate RangeOf(d: Dag, ids: set<EventId>, r: BranchSeq, t: nat)
    requires ids <= d.Keys
  {
    if r.high == 0 then r.low == 0 && t == 0 && ids == {}
    else
      && (exists x | x in ids :: d[x].seqNo == r.high && d[x].claimedTime == t)
      && (exists y | y in ids :: d[y].seqNo == r.low)
      && forall x | x in ids :: r.low <= d[x].seqNo <= r.high
  }

  ghost predicate InRange(d: Dag, at: map<EventId, nat>, ids: set<EventId>, br: nat, r: BranchSeq, t: nat)
    requires ids <= d.Keys
  {
    RangeOf(d, Part(at, ids, br), r, t)
  }

  /** An entry is the fork mark, or the range of `ids` on the branch. */
  ghost predicate Entry(d: Dag, at: map<EventId, nat>, ids: set<EventId>, br: nat, forked: bool, r: BranchSeq, t: nat)
    requires ids <= d.Keys
  {
    if forked then r == FORK_DETECTED else InRange(d, at, ids, br, r, t)
  }

  /**
   The vectors stored for an event whose past is `ids`: they cover every branch known when it
   was added; a branch of a creator seen forking is marked, any other holds its range.
   */
  ghost predicate Exact(d: Dag, bi: BranchesInfo, at: map<EventId, nat>, ids: set<EventId>, hb: seq<BranchSeq>,
                        ht: seq<nat>)
    requires ids <= d.Keys
  {
    && |hb| == |ht| <= |bi.creatorOf|
    && (forall br {:trigger EntryExact(d, bi, at, ids, br, hb, ht)} | 0 <= br < |hb| ::
        EntryExact(d, bi, at, ids, br, hb, ht))
    && (forall x {:trigger x in ids, at[x]} | x in ids && x in at :: at[x] < |hb|)
  }

  ghost predicate EntryExact(d: Dag, bi: BranchesInfo, at: map<EventId, nat>, ids: set<EventId>, br: nat,
                             hb: seq<BranchSeq>, ht: seq<nat>)
    requires ids <= d.Keys && |hb| == |ht| <= |bi.creatorOf| && br < |hb|
  {
    Entry(d, at, ids, br, ForkIn(d, ids, bi.creatorOf[br]), hb[br], ht[br])
  }

  lemma InRangeStable(d: Dag, at: map<EventId, nat>, at': map<EventId, nat>, ids: set<EventId>, br: nat, r: BranchSeq,
                      t: nat)
    requires ids <= d.Keys && ids <= at.Keys
    requires forall x | x in at :: x in at' && at'[x] == at[x]
    ensures InRange(d, at, ids, br, r, t) == InRange(d, at', ids, br, r, t)
  {
    assert Part(at, ids, br) == Part(at', ids, br);
  }

  /** Adding events and branches leaves the vectors of older events exact. */
  lemma ExactStable(d: Dag, bi: BranchesInfo, bi': BranchesInfo, at: map<EventId, nat>, at': map<EventId, nat>,
                    ids: set<EventId>, hb: seq<BranchSeq>, ht: seq<nat>)
    requires ids <= d.Keys && ids <= at.Keys
    requires forall x | x in at :: x in at' && at'[x] == at[x]
    requires bi.creatorOf <= bi'.creatorOf
    requires Exact(d, bi, at, ids, hb, ht)
    ensures Exact(d, bi', at', ids, hb, ht)
  {
    forall br | 0 <= br < |hb|
      ensures EntryExact(d, bi', at', ids, br, hb, ht)
    {
      assert EntryExact(d, bi, at, ids, br, hb, ht);
      InRangeStable(d, at, at', ids, br, hb[br], ht[br]);
    }
  }

  // ---------- merging a parent's entry ----------

  /** The merged entry, as the loop over a parent's vector writes it. */
  function Merge(my: BranchSeq, his: BranchSeq): (r: BranchSeq)
  {
    BranchSeq(
      if my.high < his.high then his.high else my.high,
      if my.high == 0 || my.low > his.low then his.low else my.low)
  }

  function MergeTime(my: BranchSeq, his: BranchSeq, myTime: nat, hisTime: nat): (t: nat)
  {
    if my.high < his.high then hisTime else myTime
  }

  /** Merging two ranges gives the range of the union. */
  lemma MergeRanges(d: Dag, a: set<EventId>, b: set<EventId>, my: BranchSeq, his: BranchSeq, myTime: nat, hisTime: nat)
    requires a <= d.Keys && b <= d.Keys
    requires RangeOf(d, a, my, myTime) && RangeOf(d, b, his, hisTime) && his.high != 0
    ensures RangeOf(d, a + b, Merge(my, his), MergeTime(my, his, myTime, hisTime))
  {
    var x :| x in b && d[x].seqNo == his.high && d[x].claimedTime == hisTime;
    var y :| y in b && d[y].seqNo == his.low;
    assert x in a + b && y in a + b;
    if my.high != 0 {
      var x' :| x' in a && d[x'].seqNo == my.high && d[x'].claimedTime == myTime;
      var y' :| y' in a && d[y'].seqNo == my.low;
      assert x' in a + b && y' in a + b;
    }
  }

  lemma MergeRange(d: Dag, at: map<EventId, nat>, a: set<EventId>, b: set<EventId>, br: nat,
                   my: BranchSeq, his: BranchSeq, myTime: nat, hisTime: nat)
    requires a <= d.Keys && b <= d.Keys
    requires InRange(d, at, a, br, my, myTime) && InRange(d, at, b, br, his, hisTime)
    requires his.high != 0
    ensures InRange(d, at, a + b, br, Merge(my, his), MergeTime(my, his, myTime, hisTime))
  {
    MergeRanges(d, Part(at, a, br), Part(at, b, br), my, his, myTime, hisTime);
    assert Part(at, a + b, br) == Part(at, a, br) + Part(at, b, br);
  }

  lemma MergeEmpty(d: Dag, at: map<EventId, nat>, a: set<EventId>, b: set<EventId>, br: nat, my: BranchSeq, myTime: nat)
    requires a <= d.Keys && b <= d.Keys
    requires InRange(d, at, a, br, my, myTime)
    requires Part(at, b, br) == {}
    ensures InRange(d, at, a + b, br, my, myTime)
  {
    assert Part(at, a + b, br) == Part(at, a, br) + Part(at, b, br);
  }

  // ---------- detecting forks ----------

  /** The test on two branches of one creator. */
  predicate Overlap(a: BranchSeq, b: BranchSeq)
  {
    a.high != 0 && b.high != 0 && a.low <= b.high && b.low <= a.high
  }

  /** Two branches of one creator whose observed numbers overlap hold a fork. */
  lemma OverlapIsFork(d: Dag, bi: BranchesInfo, at: map<EventId, nat>, ids: set<EventId>,
                      b1: nat, r1: BranchSeq, t1: nat, b2: nat, r2: BranchSeq, t2: nat)
    requires |bi.lastSeq| == |bi.creatorOf| && Placed(d, bi, at)
    requires Closed(d, ids) && ids <= at.Keys
    requires b1 < |bi.creatorOf| && b2 < |bi.creatorOf| && b1 != b2
    requires InRange(d, at, ids, b1, r1, t1) && InRange(d, at, ids, b2, r2, t2)
    requires bi.creatorOf[b1] == bi.creatorOf[b2] && Overlap(r1, r2)
    ensures ForkIn(d, ids, bi.creatorOf[b1])
  {
    if r1.low <= r2.low {
      OverlapAtLow(d, bi, at, ids, b1, r1, t1, b2, r2, t2);
    } else {
      OverlapAtLow(d, bi, at, ids, b2, r2, t2, b1, r1, t1);
    }
  }

  /** The lowest event of the second branch forks off the event of the same number on the first. */
  lemma OverlapAtLow(d: Dag, bi: BranchesInfo, at: map<EventId, nat>, ids: set<EventId>,
                     b1: nat, r1: BranchSeq, t1: nat, b2: nat, r2: BranchSeq, t2: nat)
    requires |bi.lastSeq| == |bi.creatorOf| && Placed(d, bi, at)
    requires Closed(d, ids) && ids <= at.Keys
    requires b1 < |bi.creatorOf| && b2 < |bi.creatorOf| && b1 != b2
    requires InRange(d, at, ids, b1, r1, t1) && InRange(d, at, ids, b2, r2, t2)
    requires bi.creatorOf[b1] == bi.creatorOf[b2]
    requires r1.high != 0 && r2.high != 0 && r1.low <= r2.low <= r1.high
    ensures ForkIn(d, ids, bi.creatorOf[b1])
  {
    var x :| x in Part(at, ids, b1) && d[x].seqNo == r1.high;
    var w :| w in Part(at, ids, b1) && d[w].seqNo == r1.low;
    var y :| y in Part(at, ids, b2) && d[y].seqNo == r2.low;
    var z := ChainAt(d, x, r2.low);
    BranchIsChain(d, bi, at, x, w, r2.low);
    ClosedHoldsPast(d, ids, x);
    assert PlacedAt(d, bi, at, x) && PlacedAt(d, bi, at, y);
    assert z in ids && y in ids && ForkPair(d, z, y);
  }

  /** A fork among the observed events shows as two overlapping branches. */
  lemma ForkIsOverlap(d: Dag, bi: BranchesInfo, at: map<EventId, nat>, ids: set<EventId>, c: nat)
    returns (b1: nat, b2: nat)
    requires |bi.lastSeq| == |bi.creatorOf| && Placed(d, bi, at)
    requires ids <= d.Keys && ids <= at.Keys
    requires ForkIn(d, ids, c)
    ensures b1 != b2 && b1 < |bi.creatorOf| && b2 < |bi.creatorOf|
    ensures bi.creatorOf[b1] == c && bi.creatorOf[b2] == c
    ensures exists s :: Meet(d, at, ids, b1, b2, s)
  {
    var x, y :| x in ids && y in ids && ForkPair(d, x, y) && d[x].creator == c;
    b1, b2 := at[x], at[y];
    assert PlacedAt(d, bi, at, x) && PlacedAt(d, bi, at, y);
    assert !SamePlace(d, at, x, y);
    assert x in Part(at, ids, b1) && y in Part(at, ids, b2);
    assert Meet(d, at, ids, b1, b2, d[x].seqNo);
  }

  /** Both branches hold an event of `ids` with number `s`. */
  ghost predicate Meet(d: Dag, at: map<EventId, nat>, ids: set<EventId>, b1: nat, b2: nat, s: nat)
    requires ids <= d.Keys
  {
    && (exists x :: x in Part(at, ids, b1) && d[x].seqNo == s)
    && (exists y :: y in Part(at, ids, b2) && d[y].seqNo == s)
  }

  lemma MeetIsOverlap(d: Dag, at: map<EventId, nat>, ids: set<EventId>, b1: nat, b2: nat,
                      r1: BranchSeq, t1: nat, r2: BranchSeq, t2: nat)
    requires ids <= d.Keys
    requires InRange(d, at, ids, b1, r1, t1) && InRange(d, at, ids, b2, r2, t2)
    requires exists s :: Meet(d, at, ids, b1, b2, s)
    ensures Overlap(r1, r2)
  {
    var s :| Meet(d, at, ids, b1, b2, s);
    var x :| x in Part(at, ids, b1) && d[x].seqNo == s;
    var y :| y in Part(at, ids, b2) && d[y].seqNo == s;
  }

  /** With one branch per validator nobody has forked. */
  lemma NoExtraBranchNoFork(d: Dag, n: nat, bi: BranchesInfo, at: map<EventId, nat>, ids: set<EventId>, c: nat)
    requires TablesAgree(n, bi) && Placed(d, bi, at)
    requires ids <= d.Keys && ids <= at.Keys
    requires |bi.creatorOf| == n
    ensures !ForkIn(d, ids, c)
  {
    if ForkIn(d, ids, c) {
      var b1, b2 := ForkIsOverlap(d, bi, at, ids, c);
      assert false;
    }
  }

  // ---------- per-creator summary ----------

  /** The events of `ids` by creator `c`. */
  ghost function ByCreator(d: Dag, ids: set<EventId>, c: nat): (part: set<EventId>)
    requires ids <= d.Keys
    ensures part <= ids
  {
    set x | x in ids && d[x].creator == c
  }

  /** What merging a creator's branches must give: the fork mark, or the range of the creator's events. */
  ghost predicate CreatorRange(d: Dag, ids: set<EventId>, c: nat, r: BranchSeq, t: nat)
    requires ids <= d.Keys
  {
    if ForkIn(d, ids, c) then r == FORK_DETECTED && t == 0
    else RangeOf(d, ByCreator(d, ids, c), r, t)
  }

  /** The summary is a function of the observed events alone, not of how branches were numbered. */
  lemma CreatorRangeUnique(d: Dag, ids: set<EventId>, c: nat, r: BranchSeq, t: nat, r': BranchSeq, t': nat)
    requires ids <= d.Keys
    requires CreatorRange(d, ids, c, r, t) && CreatorRange(d, ids, c, r', t')
    ensures r == r' && t == t'
  {
    if !ForkIn(d, ids, c) && r.high != 0 {
      var part := ByCreator(d, ids, c);
      var x :| x in part && d[x].seqNo == r.high && d[x].claimedTime == t;
      var y :| y in part && d[y].seqNo == r.low;
      var x' :| x' in part && d[x'].seqNo == r'.high && d[x'].claimedTime == t';
      var y' :| y' in part && d[y'].seqNo == r'.low;
      assert !ForkPair(d, x, x');
    }
  }
}
