/**
 One clock entry per creator: merging a creator's branches.
 */
module MergedClock {
  import opened Common
  import opened Dag
  import opened Branches
  import opened HighestBefore
  import opened ForklessCause
  import opened ClockMerging

  /** One exact entry per creator. */
  ghost predicate MergedExact(d: Dag, n: nat, ids: set<EventId>, ms: seq<BranchSeq>, mt: seq<nat>)
    requires ids <= d.Keys
  {
    && |ms| == |mt| == n
    && forall c {:trigger CreatorRange(d, ids, c, ms[c], mt[c])} | 0 <= c < n :: CreatorRange(d, ids, c, ms[c], mt[c])
  }

  /** Any events have merged vectors. */
  lemma {:induction false} MergedExists(d: Dag, n: nat, ids: set<EventId>) returns (ms: seq<BranchSeq>, mt: seq<nat>)
    requires ids <= d.Keys
    ensures MergedExact(d, n, ids, ms, mt)
  {
    hide CreatorRange;
    if n == 0 {
      ms, mt := [], [];
    } else {
      var ms', mt' := MergedExists(d, n - 1, ids);
      var r, t := CreatorRangeExists(d, ids, n - 1);
      ms, mt := ms' + [r], mt' + [t];
      forall c | 0 <= c < n
        ensures CreatorRange(d, ids, c, ms[c], mt[c])
      {
        if c < n - 1 {
          assert CreatorRange(d, ids, c, ms'[c], mt'[c]);
        }
      }
    }
  }

  lemma CreatorRangeExists(d: Dag, ids: set<EventId>, c: nat) returns (r: BranchSeq, t: nat)
    requires ids <= d.Keys
    ensures CreatorRange(d, ids, c, r, t)
  {
    hide ForkIn;
    var mine := ByCreator(d, ids, c);
    if ForkIn(d, ids, c) {
      r, t := FORK_DETECTED, 0;
    } else if mine == {} {
      r, t := BranchSeq(0, 0), 0;
    } else {
      var x, y := Extremes(d, mine);
      assert WellFormedEvent(d, d[x]);
      r, t := BranchSeq(d[x].seqNo, d[y].seqNo), d[x].claimedTime;
    }
  }

  /** An event with the highest number and one with the lowest. */
  lemma {:induction false} Extremes(d: Dag, ids: set<EventId>) returns (x: EventId, y: EventId)
    requires ids <= d.Keys && ids != {}
    ensures x in ids && y in ids && forall z | z in ids :: d[y].seqNo <= d[z].seqNo <= d[x].seqNo
  {
    var e :| e in ids;
    x, y := e, e;
    var rest := ids - {e};
    assert ids == rest + {e};
    if rest != {} {
      var hi, lo := Extremes(d, rest);
      x := if d[hi].seqNo > d[e].seqNo then hi else e;
      y := if d[lo].seqNo < d[e].seqNo then lo else e;
    }
  }

  /** Merged vectors depend on the observed events only: whoever computes them, on whatever
      branch numbering, gets the same. */
  lemma MergedUnique(d: Dag, n: nat, ids: set<EventId>, ms: seq<BranchSeq>, mt: seq<nat>, ms': seq<BranchSeq>,
                     mt': seq<nat>)
    requires ids <= d.Keys
    requires MergedExact(d, n, ids, ms, mt) && MergedExact(d, n, ids, ms', mt')
    ensures ms == ms' && mt == mt'
  {
    forall c | 0 <= c < n
      ensures ms[c] == ms'[c] && mt[c] == mt'[c]
    {
      assert CreatorRange(d, ids, c, ms[c], mt[c]) && CreatorRange(d, ids, c, ms'[c], mt'[c]);
      CreatorRangeUnique(d, ids, c, ms[c], mt[c], ms'[c], mt'[c]);
    }
  }

  /** The events of `ids` on the listed branches. */
  ghost function Parts(at: map<EventId, nat>, ids: set<EventId>, branches: seq<nat>): (part: set<EventId>)
    ensures part <= ids
  {
    set x | x in ids && x in at && at[x] in branches
  }

  lemma PartsSnoc(at: map<EventId, nat>, ids: set<EventId>, branches: seq<nat>, br: nat)
    ensures Parts(at, ids, branches + [br]) == Parts(at, ids, branches) + Part(at, ids, br)
  {}

  /** The merging loop's update of one branch. */
  function Absorb(r: BranchSeq, branch: BranchSeq): (r': BranchSeq)
  {
    BranchSeq(
      if r.high < branch.high then branch.high else r.high,
      if branch.low != 0 && (r.low == 0 || r.low > branch.low) then branch.low else r.low)
  }

  function AbsorbTime(r: BranchSeq, branch: BranchSeq, t: nat, bt: nat): (t': nat)
  {
    if r.high < branch.high then bt else t
  }

  lemma RangeZeros(d: Dag, ids: set<EventId>, r: BranchSeq, t: nat)
    requires ids <= d.Keys && RangeOf(d, ids, r, t)
    ensures r.low == 0 <==> r.high == 0
  {
    if r.high != 0 {
      var y :| y in ids && d[y].seqNo == r.low;
      assert WellFormedEvent(d, d[y]);
    }
  }

  /** The part of the loop before branch `i` is merged. */
  ghost predicate MergedBranches(d: Dag, at: map<EventId, nat>, ids: set<EventId>, branches: seq<nat>, r: BranchSeq,
                                 t: nat)
    requires ids <= d.Keys
  {
    RangeOf(d, Parts(at, ids, branches), r, t)
  }

  lemma MergedBranchesNext(d: Dag, n: nat, bi: BranchesInfo, at: map<EventId, nat>, a: EventId, branches: seq<nat>,
                           br: nat, r: BranchSeq, t: nat, branch: BranchSeq, bt: nat)
    requires a in d && br < |bi.creatorOf| && !SeesFork(d, a, bi.creatorOf[br])
    requires ParentEntry(d, n, bi, at, a, br, branch, bt)
    requires MergedBranches(d, at, Past(d, a), branches, r, t)
    ensures MergedBranches(d, at, Past(d, a), branches + [br], Absorb(r, branch), AbsorbTime(r, branch, t, bt))
    ensures branch != FORK_DETECTED
  {
    var ids := Past(d, a);
    PartsSnoc(at, ids, branches, br);
    RangeZeros(d, Parts(at, ids, branches), r, t);
    if branch.high != 0 {
      RangeZeros(d, Part(at, ids, br), branch, bt);
      MergeRanges(d, Parts(at, ids, branches), Part(at, ids, br), r, branch, t, bt);
    } else {
      assert Part(at, ids, br) == {};
      assert Parts(at, ids, branches + [br]) == Parts(at, ids, branches);
    }
  }

  /** All branches of a creator together hold all its events. */
  lemma PartsAreCreators(d: Dag, n: nat, bi: BranchesInfo, at: map<EventId, nat>, ids: set<EventId>, c: nat)
    requires TablesAgree(n, bi) && Placed(d, bi, at) && c < n
    requires ids <= d.Keys && ids <= at.Keys
    ensures Parts(at, ids, bi.byCreator[c]) == ByCreator(d, ids, c)
  {
    forall x | x in ids
      ensures at[x] in bi.byCreator[c] <==> d[x].creator == c
    {
      assert PlacedAt(d, bi, at, x);
    }
  }

  /** Without extra branches a creator's branch holds all its events. */
  lemma OwnBranchIsCreators(d: Dag, n: nat, bi: BranchesInfo, at: map<EventId, nat>, ids: set<EventId>, c: nat)
    requires TablesAgree(n, bi) && Placed(d, bi, at) && c < n && |bi.creatorOf| == n
    requires ids <= d.Keys && ids <= at.Keys
    ensures Part(at, ids, c) == ByCreator(d, ids, c)
  {
    forall x | x in ids
      ensures at[x] == c <==> d[x].creator == c
    {
      assert PlacedAt(d, bi, at, x);
    }
  }

  /** Without extra branches the stored vectors are the merged ones. */
  lemma UnforkedIsMerged(d: Dag, n: nat, bi: BranchesInfo, at: map<EventId, nat>, a: EventId, hb: seq<BranchSeq>,
                         ht: seq<nat>)
    requires TablesAgree(n, bi) && Placed(d, bi, at) && |bi.creatorOf| == n
    requires a in d && Past(d, a) <= at.Keys && Exact(d, bi, at, Past(d, a), hb, ht) && |hb| >= n
    ensures MergedExact(d, n, Past(d, a), hb, ht)
  {
    forall c | 0 <= c < n
      ensures CreatorRange(d, Past(d, a), c, hb[c], ht[c])
    {
      assert EntryExact(d, bi, at, Past(d, a), c, hb, ht);
      NoExtraBranchNoFork(d, n, bi, at, Past(d, a), c);
      OwnBranchIsCreators(d, n, bi, at, Past(d, a), c);
    }
  }

  /** The first branch of a creator is marked exactly when the creator was seen forking. */
  lemma FirstBranchTellsFork(d: Dag, n: nat, bi: BranchesInfo, at: map<EventId, nat>, a: EventId, c: nat,
                             hb: seq<BranchSeq>, ht: seq<nat>)
    requires TablesAgree(n, bi) && c < n && a in d
    requires Exact(d, bi, at, Past(d, a), hb, ht) && |hb| >= n
    ensures Get(hb, bi.byCreator[c][0], NOTHING) == FORK_DETECTED <==> SeesFork(d, a, c)
  {
    assert EntryExact(d, bi, at, Past(d, a), c, hb, ht);
  }

  lemma NoBranchesMerged(d: Dag, at: map<EventId, nat>, ids: set<EventId>)
    requires ids <= d.Keys
    ensures MergedBranches(d, at, ids, [], NOTHING, 0)
  {}

  lemma ForkedRange(d: Dag, a: EventId, c: nat)
    requires a in d && SeesFork(d, a, c)
    ensures CreatorRange(d, Past(d, a), c, FORK_DETECTED, 0)
  {}

  lemma AllBranchesMerged(d: Dag, n: nat, bi: BranchesInfo, at: map<EventId, nat>, a: EventId, c: nat, r: BranchSeq,
                          t: nat)
    requires TablesAgree(n, bi) && Placed(d, bi, at) && c < n
    requires a in d && Past(d, a) <= at.Keys && !SeesFork(d, a, c)
    requires MergedBranches(d, at, Past(d, a), bi.byCreator[c], r, t)
    ensures CreatorRange(d, Past(d, a), c, r, t)
  {
    PartsAreCreators(d, n, bi, at, Past(d, a), c);
  }

  lemma MergedExactNext(d: Dag, c: nat, ids: set<EventId>, ms: seq<BranchSeq>, mt: seq<nat>, r: BranchSeq, t: nat)
    requires ids <= d.Keys && MergedExact(d, c, ids, ms, mt) && CreatorRange(d, ids, c, r, t)
    ensures MergedExact(d, c + 1, ids, ms + [r], mt + [t])
  {
    var ms', mt' := ms + [r], mt + [t];
    forall i | 0 <= i < c + 1
      ensures CreatorRange(d, ids, i, ms'[i], mt'[i])
    {
      if i < c {
        assert CreatorRange(d, ids, i, ms[i], mt[i]);
      }
    }
  }

  lemma BranchCount(n: nat, bi: BranchesInfo)
    requires TablesAgree(n, bi) && |bi.creatorOf| <= n
    ensures |bi.creatorOf| == n
  {}

  /** A validator's own branch tells whether it was seen forking. */
  lemma OwnBranchTellsFork(d: Dag, n: nat, bi: BranchesInfo, at: map<EventId, nat>, a: EventId, c: nat,
                           hb: seq<BranchSeq>, ht: seq<nat>)
    requires TablesAgree(n, bi) && c < n && a in d
    requires Exact(d, bi, at, Past(d, a), hb, ht) && |hb| >= n
    ensures Get(hb, c, NOTHING) == FORK_DETECTED <==> SeesFork(d, a, c)
  {
    assert EntryExact(d, bi, at, Past(d, a), c, hb, ht);
  }

  /** The options whose creators `a` does not see forking, in order. */
  ghost function HonestOptions(d: Dag, a: EventId, options: seq<EventId>): (kept: seq<EventId>)
    requires a in d && AllIn(d, options)
    ensures |kept| <= |options|
    ensures |kept| == |options| <==> forall p | p in options :: !SeesFork(d, a, d[p].creator)
  {
    if options == [] then []
    else
      var init, p := options[..|options| - 1], options[|options| - 1];
      assert options == init + [p];
      var kept := HonestOptions(d, a, init);
      if SeesFork(d, a, d[p].creator) then kept else kept + [p]
  }

  lemma {:induction false} HonestOptionsHolds(d: Dag, a: EventId, options: seq<EventId>, p: EventId)
    requires a in d && AllIn(d, options)
    ensures p in HonestOptions(d, a, options) <==> p in options && !SeesFork(d, a, d[p].creator)
  {
    hide SeesFork;
    if options != [] {
      var init := options[..|options| - 1];
      assert options == init + [options[|options| - 1]];
      HonestOptionsHolds(d, a, init, p);
    }
  }

  lemma HonestOptionsNone(d: Dag, a: EventId)
    requires a in d
    ensures AllIn(d, []) && HonestOptions(d, a, []) == []
  {}

  lemma HonestOptionsNext(d: Dag, a: EventId, options: seq<EventId>, i: nat)
    requires a in d && i < |options| && AllIn(d, options[..i]) && options[i] in d
    ensures AllIn(d, options[..i + 1])
    ensures HonestOptions(d, a, options[..i + 1]) ==
            HonestOptions(d, a, options[..i]) + if SeesFork(d, a, d[options[i]].creator) then [] else [options[i]]
  {
    TakeSnoc(options, i);
    assert options[..i + 1][..i] == options[..i];
  }

  lemma MergedLengths(d: Dag, n: nat, ids: set<EventId>, ms: seq<BranchSeq>, mt: seq<nat>)
    requires ids <= d.Keys && MergedExact(d, n, ids, ms, mt)
    ensures |ms| == |mt| == n
  {}
}
