/**
 Merging the parents' HighestBefore vectors into a new event's, one parent and one branch
 at a time.
 */
module ClockMerging {
  import opened Common
  import opened Dag
  import opened Branches
  import opened HighestBefore
  import opened ForklessCause

  /** Some event of `ps` saw creator `c` fork. */
  ghost predicate ParentSaw(d: Dag, ps: seq<EventId>, c: nat)
    requires forall p | p in ps :: p in d
  {
    exists p | p in ps :: SeesFork(d, p, c)
  }

  /** The vectors while parents are merged into them: `ids` is what they cover so far. */
  ghost predicate Merged(d: Dag, bi: BranchesInfo, at: map<EventId, nat>, ids: set<EventId>, ps: seq<EventId>,
                         hb: seq<BranchSeq>, ht: seq<nat>)
    requires ids <= d.Keys && (forall p | p in ps :: p in d)
  {
    && |hb| == |ht| == |bi.creatorOf|
    && forall br | 0 <= br < |hb| ::
         Entry(d, at, ids, br, ParentSaw(d, ps, bi.creatorOf[br]), hb[br], ht[br])
  }

  /** The same in the middle of a parent `p`: branches below `k` include it already. */
  ghost predicate MergingParent(d: Dag, bi: BranchesInfo, at: map<EventId, nat>, ids: set<EventId>, ps: seq<EventId>,
                                p: EventId, k: nat, hb: seq<BranchSeq>, ht: seq<nat>)
    requires ids <= d.Keys && p in d && (forall q | q in ps :: q in d)
  {
    && |hb| == |ht| == |bi.creatorOf|
    && forall br | 0 <= br < |hb| :: EntryMerging(d, bi, at, ids, ps, p, k, br, hb[br], ht[br])
  }

  ghost predicate EntryMerging(d: Dag, bi: BranchesInfo, at: map<EventId, nat>, ids: set<EventId>, ps: seq<EventId>,
                               p: EventId, k: nat, br: nat, r: BranchSeq, t: nat)
    requires ids <= d.Keys && p in d && (forall q | q in ps :: q in d) && br < |bi.creatorOf|
  {
    var c := bi.creatorOf[br];
    Entry(d, at, if br < k then ids + Past(d, p) else ids, br,
          ParentSaw(d, ps, c) || (c < k && SeesFork(d, p, c)), r, t)
  }

  lemma MergingStart(d: Dag, bi: BranchesInfo, at: map<EventId, nat>, ids: set<EventId>, ps: seq<EventId>,
                     p: EventId, hb: seq<BranchSeq>, ht: seq<nat>)
    requires ids <= d.Keys && p in d && (forall q | q in ps :: q in d)
    requires Merged(d, bi, at, ids, ps, hb, ht)
    ensures MergingParent(d, bi, at, ids, ps, p, 0, hb, ht)
  {}

  lemma MergingEnd(d: Dag, n: nat, bi: BranchesInfo, at: map<EventId, nat>, ids: set<EventId>, ps: seq<EventId>,
                   p: EventId, hb: seq<BranchSeq>, ht: seq<nat>)
    requires ids <= d.Keys && p in d && (forall q | q in ps :: q in d)
    requires TablesAgree(n, bi)
    requires MergingParent(d, bi, at, ids, ps, p, |bi.creatorOf|, hb, ht)
    ensures Merged(d, bi, at, ids + Past(d, p), ps + [p], hb, ht)
  {
    forall br | 0 <= br < |hb|
      ensures Entry(d, at, ids + Past(d, p), br, ParentSaw(d, ps + [p], bi.creatorOf[br]), hb[br], ht[br])
    {
      assert EntryMerging(d, bi, at, ids, ps, p, |bi.creatorOf|, br, hb[br], ht[br]);
      ParentSawSnoc(d, ps, p, bi.creatorOf[br]);
    }
  }

  lemma ParentSawSnoc(d: Dag, ps: seq<EventId>, p: EventId, c: nat)
    requires p in d && (forall q | q in ps :: q in d)
    ensures ParentSaw(d, ps + [p], c) <==> ParentSaw(d, ps, c) || SeesFork(d, p, c)
  {
    if ParentSaw(d, ps, c) {
      var q :| q in ps && SeesFork(d, q, c);
      assert q in ps + [p];
    }
    assert p in ps + [p];
  }

  /** What a parent's vector says about branch `k`; the branch may be newer than the parent. */
  ghost predicate ParentEntry(d: Dag, n: nat, bi: BranchesInfo, at: map<EventId, nat>, p: EventId, k: nat,
                              his: BranchSeq, hisTime: nat)
    requires p in d && k < |bi.creatorOf|
  {
    || (k >= n && his == NOTHING && Part(at, Past(d, p), k) == {})
    || Entry(d, at, Past(d, p), k, SeesFork(d, p, bi.creatorOf[k]), his, hisTime)
  }

  /** Moving one branch on when the entry of branch `k` alone changed. */
  lemma MergeStep(d: Dag, n: nat, bi: BranchesInfo, at: map<EventId, nat>, ids: set<EventId>, ps: seq<EventId>,
                  p: EventId, k: nat, hb: seq<BranchSeq>, ht: seq<nat>, r: BranchSeq, t: nat)
    requires ids <= d.Keys && p in d && (forall q | q in ps :: q in d)
    requires TablesAgree(n, bi) && k < |bi.creatorOf|
    requires MergingParent(d, bi, at, ids, ps, p, k, hb, ht)
    requires EntryMerging(d, bi, at, ids, ps, p, k + 1, k, r, t)
    requires k < n ==> !SeesFork(d, p, k) || ParentSaw(d, ps, k)
    ensures MergingParent(d, bi, at, ids, ps, p, k + 1, hb[k := r], ht[k := t])
  {
    var hb', ht' := hb[k := r], ht[k := t];
    forall br | 0 <= br < |hb'|
      ensures EntryMerging(d, bi, at, ids, ps, p, k + 1, br, hb'[br], ht'[br])
    {
      assert EntryMerging(d, bi, at, ids, ps, p, k, br, hb[br], ht[br]);
    }
  }

  /** Moving one branch on when the parent saw the creator of branch `k` fork and all its branches were marked. */
  lemma MarkStep(d: Dag, n: nat, bi: BranchesInfo, at: map<EventId, nat>, ids: set<EventId>, ps: seq<EventId>,
                 p: EventId, k: nat, hb: seq<BranchSeq>, ht: seq<nat>, hb': seq<BranchSeq>)
    requires ids <= d.Keys && p in d && (forall q | q in ps :: q in d)
    requires TablesAgree(n, bi) && k < |bi.creatorOf|
    requires MergingParent(d, bi, at, ids, ps, p, k, hb, ht)
    requires SeesFork(d, p, bi.creatorOf[k])
    requires |hb'| == |hb| && forall br | 0 <= br < |hb| ::
               hb'[br] == if bi.creatorOf[br] == bi.creatorOf[k] then FORK_DETECTED else hb[br]
    ensures MergingParent(d, bi, at, ids, ps, p, k + 1, hb', ht)
  {
    hide EntryMerging;
    hide SeesFork;
    forall br | 0 <= br < |hb|
      ensures EntryMerging(d, bi, at, ids, ps, p, k + 1, br, hb'[br], ht[br])
    {
      assert EntryMerging(d, bi, at, ids, ps, p, k, br, hb[br], ht[br]);
      MarkEntry(d, n, bi, at, ids, ps, p, k, br, hb[br], ht[br]);
    }
  }

  lemma MarkEntry(d: Dag, n: nat, bi: BranchesInfo, at: map<EventId, nat>, ids: set<EventId>, ps: seq<EventId>,
                  p: EventId, k: nat, br: nat, r: BranchSeq, t: nat)
    requires ids <= d.Keys && p in d && (forall q | q in ps :: q in d)
    requires k < |bi.creatorOf| && br < |bi.creatorOf| && (k < n ==> bi.creatorOf[k] == k) && bi.creatorOf[k] < n
             && bi.creatorOf[br] < n
    requires EntryMerging(d, bi, at, ids, ps, p, k, br, r, t) && SeesFork(d, p, bi.creatorOf[k])
    ensures EntryMerging(d, bi, at, ids, ps, p, k + 1, br,
                         if bi.creatorOf[br] == bi.creatorOf[k] then FORK_DETECTED else r, t)
  {
    hide SeesFork;
    hide ParentSaw;
    hide Past;
    hide InRange;
  }

  /** A marked entry stays as it is. */
  lemma EntryMarked(d: Dag, n: nat, bi: BranchesInfo, at: map<EventId, nat>, ids: set<EventId>, ps: seq<EventId>,
                    p: EventId, k: nat, r: BranchSeq, t: nat)
    requires ids <= d.Keys && p in d && (forall q | q in ps :: q in d)
    requires TablesAgree(n, bi) && k < |bi.creatorOf|
    requires EntryMerging(d, bi, at, ids, ps, p, k, k, r, t) && r == FORK_DETECTED
    ensures EntryMerging(d, bi, at, ids, ps, p, k + 1, k, r, t)
    ensures k < n ==> ParentSaw(d, ps, k)
  {}

  /** An entry the parent knows nothing about stays as it is. */
  lemma EntrySkipped(d: Dag, n: nat, bi: BranchesInfo, at: map<EventId, nat>, ids: set<EventId>, ps: seq<EventId>,
                     p: EventId, k: nat, r: BranchSeq, t: nat, hisTime: nat)
    requires ids <= d.Keys && p in d && (forall q | q in ps :: q in d)
    requires TablesAgree(n, bi) && k < |bi.creatorOf|
    requires EntryMerging(d, bi, at, ids, ps, p, k, k, r, t)
    requires ParentEntry(d, n, bi, at, p, k, NOTHING, hisTime)
    ensures EntryMerging(d, bi, at, ids, ps, p, k + 1, k, r, t)
    ensures k < n ==> !SeesFork(d, p, k)
  {
    if r != FORK_DETECTED {
      MergeEmpty(d, at, ids, Past(d, p), k, r, t);
    }
  }

  /** An unmarked entry takes the parent's range in. */
  lemma EntryMerged(d: Dag, n: nat, bi: BranchesInfo, at: map<EventId, nat>, ids: set<EventId>, ps: seq<EventId>,
                    p: EventId, k: nat, r: BranchSeq, t: nat, his: BranchSeq, hisTime: nat)
    requires ids <= d.Keys && p in d && (forall q | q in ps :: q in d)
    requires TablesAgree(n, bi) && k < |bi.creatorOf|
    requires EntryMerging(d, bi, at, ids, ps, p, k, k, r, t) && r != FORK_DETECTED
    requires ParentEntry(d, n, bi, at, p, k, his, hisTime) && his != NOTHING && his != FORK_DETECTED
    ensures EntryMerging(d, bi, at, ids, ps, p, k + 1, k, Merge(r, his), MergeTime(r, his, t, hisTime))
    ensures !SeesFork(d, p, bi.creatorOf[k])
  {
    MergeRange(d, at, ids, Past(d, p), k, r, his, t, hisTime);
  }

  lemma StepSkipped(d: Dag, n: nat, bi: BranchesInfo, at: map<EventId, nat>, ids: set<EventId>, ps: seq<EventId>,
                    p: EventId, k: nat, hb: seq<BranchSeq>, ht: seq<nat>, his: BranchSeq, hisTime: nat)
    requires ids <= d.Keys && p in d && (forall q | q in ps :: q in d)
    requires TablesAgree(n, bi) && k < |bi.creatorOf|
    requires MergingParent(d, bi, at, ids, ps, p, k, hb, ht)
    requires ParentEntry(d, n, bi, at, p, k, his, hisTime) && his.high == 0 && his != FORK_DETECTED
    ensures MergingParent(d, bi, at, ids, ps, p, k + 1, hb, ht)
  {
    assert EntryMerging(d, bi, at, ids, ps, p, k, k, hb[k], ht[k]);
    EntrySkipped(d, n, bi, at, ids, ps, p, k, hb[k], ht[k], hisTime);
    MergeStep(d, n, bi, at, ids, ps, p, k, hb, ht, hb[k], ht[k]);
    assert hb[k := hb[k]] == hb && ht[k := ht[k]] == ht;
  }

  lemma StepMarked(d: Dag, n: nat, bi: BranchesInfo, at: map<EventId, nat>, ids: set<EventId>, ps: seq<EventId>,
                   p: EventId, k: nat, hb: seq<BranchSeq>, ht: seq<nat>)
    requires ids <= d.Keys && p in d && (forall q | q in ps :: q in d)
    requires TablesAgree(n, bi) && k < |bi.creatorOf|
    requires MergingParent(d, bi, at, ids, ps, p, k, hb, ht)
    requires hb[k] == FORK_DETECTED
    ensures MergingParent(d, bi, at, ids, ps, p, k + 1, hb, ht)
  {
    assert EntryMerging(d, bi, at, ids, ps, p, k, k, hb[k], ht[k]);
    EntryMarked(d, n, bi, at, ids, ps, p, k, hb[k], ht[k]);
    MergeStep(d, n, bi, at, ids, ps, p, k, hb, ht, hb[k], ht[k]);
    assert hb[k := hb[k]] == hb && ht[k := ht[k]] == ht;
  }

  lemma StepMerged(d: Dag, n: nat, bi: BranchesInfo, at: map<EventId, nat>, ids: set<EventId>, ps: seq<EventId>,
                   p: EventId, k: nat, hb: seq<BranchSeq>, ht: seq<nat>, his: BranchSeq, hisTime: nat)
    requires ids <= d.Keys && p in d && (forall q | q in ps :: q in d)
    requires TablesAgree(n, bi) && k < |bi.creatorOf|
    requires MergingParent(d, bi, at, ids, ps, p, k, hb, ht)
    requires ParentEntry(d, n, bi, at, p, k, his, hisTime) && his.high != 0
    requires hb[k] != FORK_DETECTED
    ensures MergingParent(d, bi, at, ids, ps, p, k + 1,
                          hb[k := Merge(hb[k], his)], ht[k := MergeTime(hb[k], his, ht[k], hisTime)])
  {
    assert EntryMerging(d, bi, at, ids, ps, p, k, k, hb[k], ht[k]);
    EntryMerged(d, n, bi, at, ids, ps, p, k, hb[k], ht[k], his, hisTime);
    MergeStep(d, n, bi, at, ids, ps, p, k, hb, ht, Merge(hb[k], his), MergeTime(hb[k], his, ht[k], hisTime));
  }

  /** An event alone covers its own branch. */
  lemma MergedAlone(d: Dag, bi: BranchesInfo, at: map<EventId, nat>, id: EventId, me: nat, hb: seq<BranchSeq>,
                    ht: seq<nat>)
    requires id in d && id in at && at[id] == me && me < |bi.creatorOf|
    requires |hb| == |ht| == |bi.creatorOf|
    requires forall br: nat :: Get(hb, br, NOTHING) == if br == me then BranchSeq(d[id].seqNo, d[id].seqNo) else NOTHING
    requires forall br: nat :: Get(ht, br, 0) == if br == me then d[id].claimedTime else 0
    ensures Merged(d, bi, at, {id}, [], hb, ht)
  {
    forall br | 0 <= br < |hb|
      ensures InRange(d, at, {id}, br, hb[br], ht[br])
    {
      assert hb[br] == Get(hb, br, NOTHING) && ht[br] == Get(ht, br, 0);
      assert br == me ==> id in Part(at, {id}, br);
    }
  }

  /** The event itself and its first `i` parents are merged. */
  ghost predicate MergedUpTo(d: Dag, bi: BranchesInfo, at: map<EventId, nat>, id: EventId, i: nat,
                             hb: seq<BranchSeq>, ht: seq<nat>)
    requires id in d && i <= |d[id].parents|
  {
    var done := d[id].parents[..i];
    assert forall p | p in done :: p in d[id].parents;
    Merged(d, bi, at, {id} + PastOf(d, done), done, hb, ht)
  }

  lemma MergedNone(d: Dag, bi: BranchesInfo, at: map<EventId, nat>, id: EventId, hb: seq<BranchSeq>, ht: seq<nat>)
    requires id in d && Merged(d, bi, at, {id}, [], hb, ht)
    ensures MergedUpTo(d, bi, at, id, 0, hb, ht)
  {
    assert {id} + PastOf(d, d[id].parents[..0]) == {id};
  }

  lemma MergedEveryone(d: Dag, bi: BranchesInfo, at: map<EventId, nat>, id: EventId, hb: seq<BranchSeq>, ht: seq<nat>)
    requires id in d && MergedUpTo(d, bi, at, id, |d[id].parents|, hb, ht)
    ensures Merged(d, bi, at, Past(d, id), d[id].parents, hb, ht)
  {
    TakeAll(d[id].parents);
    PastUnfold(d, id);
  }

  lemma MergedNext(d: Dag, bi: BranchesInfo, at: map<EventId, nat>, id: EventId, i: nat, hb: seq<BranchSeq>,
                   ht: seq<nat>)
    requires id in d && i < |d[id].parents|
    requires forall p | p in d[id].parents[..i] :: p in d
    requires d[id].parents[i] in d
    requires Merged(d, bi, at, {id} + PastOf(d, d[id].parents[..i]) + Past(d, d[id].parents[i]),
                    d[id].parents[..i] + [d[id].parents[i]], hb, ht)
    ensures MergedUpTo(d, bi, at, id, i + 1, hb, ht)
  {
    var done, p := d[id].parents[..i], d[id].parents[i];
    PastOfSnoc(d, done, p);
    TakeSnoc(d[id].parents, i);
    assert {id} + PastOf(d, done) + Past(d, p) == {id} + PastOf(d, done + [p]);
  }

  // ---------- the new event's own fork check ----------

  /** Two of the listed branches overlap. */
  predicate OverlapAt(hb: seq<BranchSeq>, branches: seq<nat>, i: int, j: int)
  {
    && 0 <= i < |branches| && 0 <= j < |branches|
    && branches[i] != branches[j]
    && branches[i] < |hb| && branches[j] < |hb|
    && Overlap(hb[branches[i]], hb[branches[j]])
  }

  /** Creators below `c` are checked; for the others only what parents saw is marked. */
  ghost predicate Detecting(d: Dag, bi: BranchesInfo, at: map<EventId, nat>, id: EventId, c: nat,
                            hb: seq<BranchSeq>, ht: seq<nat>)
    requires id in d
  {
    && |hb| == |ht| == |bi.creatorOf|
    && forall br | 0 <= br < |hb| :: EntryDetecting(d, bi, at, id, c, br, hb[br], ht[br])
  }

  ghost predicate EntryDetecting(d: Dag, bi: BranchesInfo, at: map<EventId, nat>, id: EventId, c: nat,
                                 br: nat, r: BranchSeq, t: nat)
    requires id in d && br < |bi.creatorOf|
  {
    var c' := bi.creatorOf[br];
    Entry(d, at, Past(d, id), br, if c' < c then SeesFork(d, id, c') else ParentSaw(d, d[id].parents, c'), r, t)
  }

  lemma DetectingStart(d: Dag, bi: BranchesInfo, at: map<EventId, nat>, id: EventId, hb: seq<BranchSeq>, ht: seq<nat>)
    requires id in d && Merged(d, bi, at, Past(d, id), d[id].parents, hb, ht)
    ensures Detecting(d, bi, at, id, 0, hb, ht)
  {}

  lemma ParentSawIsSeen(d: Dag, id: EventId, c: nat)
    requires id in d && ParentSaw(d, d[id].parents, c)
    ensures SeesFork(d, id, c)
  {
    var p :| p in d[id].parents && SeesFork(d, p, c);
    assert p in Past(d, p);
    assert p in Past(d, id);
    PastTransitive(d, id, p);
    ForkMonotone(d, Past(d, p), Past(d, id), c);
  }

  lemma DetectingMarked(d: Dag, n: nat, bi: BranchesInfo, at: map<EventId, nat>, id: EventId, c: nat,
                        hb: seq<BranchSeq>, ht: seq<nat>)
    requires id in d && TablesAgree(n, bi) && c < n
    requires Detecting(d, bi, at, id, c, hb, ht) && hb[c] == FORK_DETECTED
    ensures Detecting(d, bi, at, id, c + 1, hb, ht)
  {
    assert EntryDetecting(d, bi, at, id, c, c, hb[c], ht[c]);
    ParentSawIsSeen(d, id, c);
    forall br | 0 <= br < |hb|
      ensures EntryDetecting(d, bi, at, id, c + 1, br, hb[br], ht[br])
    {
      assert EntryDetecting(d, bi, at, id, c, br, hb[br], ht[br]);
    }
  }

  /** The branch test decides whether the creator forked, and marking its branches records it. */
  lemma DetectingStep(d: Dag, n: nat, bi: BranchesInfo, at: map<EventId, nat>, id: EventId, c: nat,
                      hb: seq<BranchSeq>, ht: seq<nat>, found: bool, hb': seq<BranchSeq>)
    requires id in d && TablesAgree(n, bi) && c < n && Placed(d, bi, at) && Past(d, id) <= at.Keys
    requires Detecting(d, bi, at, id, c, hb, ht) && hb[c] != FORK_DETECTED
    requires found <==> exists i, j :: OverlapAt(hb, bi.byCreator[c], i, j)
    requires if found then MarkedFrom(bi, c, hb, hb') else hb' == hb
    ensures Detecting(d, bi, at, id, c + 1, hb', ht)
  {
    assert EntryDetecting(d, bi, at, id, c, c, hb[c], ht[c]);
    assert !ParentSaw(d, d[id].parents, c);
    FoundIffFork(d, n, bi, at, id, c, hb, ht);
    assert found == SeesFork(d, id, c);
    DetectingRecorded(d, n, bi, at, id, c, hb, ht, found, hb');
  }

  lemma DetectingRecorded(d: Dag, n: nat, bi: BranchesInfo, at: map<EventId, nat>, id: EventId, c: nat,
                          hb: seq<BranchSeq>, ht: seq<nat>, found: bool, hb': seq<BranchSeq>)
    requires id in d && c < n && !ParentSaw(d, d[id].parents, c) && found == SeesFork(d, id, c)
    requires Detecting(d, bi, at, id, c, hb, ht)
    requires if found then MarkedFrom(bi, c, hb, hb') else hb' == hb
    ensures Detecting(d, bi, at, id, c + 1, hb', ht)
  {
    forall br | 0 <= br < |hb'|
      ensures EntryDetecting(d, bi, at, id, c + 1, br, hb'[br], ht[br])
    {
      assert EntryDetecting(d, bi, at, id, c, br, hb[br], ht[br]);
    }
  }

  predicate MarkedFrom(bi: BranchesInfo, c: nat, hb: seq<BranchSeq>, hb': seq<BranchSeq>)
  {
    && |hb'| == |hb| <= |bi.creatorOf|
    && forall br | 0 <= br < |hb| :: hb'[br] == if bi.creatorOf[br] == c then FORK_DETECTED else hb[br]
  }

  lemma FoundIffFork(d: Dag, n: nat, bi: BranchesInfo, at: map<EventId, nat>, id: EventId, c: nat,
                     hb: seq<BranchSeq>, ht: seq<nat>)
    requires id in d && TablesAgree(n, bi) && c < n && Placed(d, bi, at) && Past(d, id) <= at.Keys
    requires Detecting(d, bi, at, id, c, hb, ht) && !ParentSaw(d, d[id].parents, c)
    ensures SeesFork(d, id, c) <==> exists i, j :: OverlapAt(hb, bi.byCreator[c], i, j)
  {
    var bs := bi.byCreator[c];
    PastClosed(d, id);
    if i, j :| OverlapAt(hb, bs, i, j) {
      assert EntryDetecting(d, bi, at, id, c, bs[i], hb[bs[i]], ht[bs[i]]);
      assert EntryDetecting(d, bi, at, id, c, bs[j], hb[bs[j]], ht[bs[j]]);
      OverlapIsFork(d, bi, at, Past(d, id), bs[i], hb[bs[i]], ht[bs[i]], bs[j], hb[bs[j]], ht[bs[j]]);
    }
    if SeesFork(d, id, c) {
      var b1, b2 := ForkIsOverlap(d, bi, at, Past(d, id), c);
      assert EntryDetecting(d, bi, at, id, c, b1, hb[b1], ht[b1]);
      assert EntryDetecting(d, bi, at, id, c, b2, hb[b2], ht[b2]);
      MeetIsOverlap(d, at, Past(d, id), b1, b2, hb[b1], ht[b1], hb[b2], ht[b2]);
      assert b1 in bs && b2 in bs;
      var i :| 0 <= i < |bs| && bs[i] == b1;
      var j :| 0 <= j < |bs| && bs[j] == b2;
      assert OverlapAt(hb, bs, i, j);
    }
  }

  lemma DetectingEnd(d: Dag, n: nat, bi: BranchesInfo, at: map<EventId, nat>, id: EventId, hb: seq<BranchSeq>,
                     ht: seq<nat>)
    requires id in d && TablesAgree(n, bi) && Placed(d, bi, at)
    requires Detecting(d, bi, at, id, n, hb, ht)
    ensures Exact(d, bi, at, Past(d, id), hb, ht)
  {
    forall br | 0 <= br < |hb|
      ensures EntryExact(d, bi, at, Past(d, id), br, hb, ht)
    {
      assert EntryDetecting(d, bi, at, id, n, br, hb[br], ht[br]);
    }
    BranchesInBounds(d, bi, at, Past(d, id));
  }

  lemma BranchesInBounds(d: Dag, bi: BranchesInfo, at: map<EventId, nat>, ids: set<EventId>)
    requires |bi.lastSeq| == |bi.creatorOf| && Placed(d, bi, at)
    ensures forall x {:trigger x in ids, at[x]} | x in ids && x in at :: at[x] < |bi.creatorOf|
  {
    forall x | x in ids && x in at
      ensures at[x] < |bi.creatorOf|
    {
      assert PlacedAt(d, bi, at, x);
    }
  }

  /** With one branch per validator there is nothing to detect. */
  lemma DetectingNothing(d: Dag, n: nat, bi: BranchesInfo, at: map<EventId, nat>, id: EventId, hb: seq<BranchSeq>,
                         ht: seq<nat>)
    requires id in d && TablesAgree(n, bi) && Placed(d, bi, at) && Past(d, id) <= at.Keys
    requires |bi.creatorOf| == n
    requires Merged(d, bi, at, Past(d, id), d[id].parents, hb, ht)
    ensures Exact(d, bi, at, Past(d, id), hb, ht)
  {
    forall br | 0 <= br < |hb|
      ensures EntryExact(d, bi, at, Past(d, id), br, hb, ht)
    {
      NoExtraBranchNoFork(d, n, bi, at, Past(d, id), bi.creatorOf[br]);
      if ParentSaw(d, d[id].parents, bi.creatorOf[br]) {
        ParentSawIsSeen(d, id, bi.creatorOf[br]);
      }
    }
    BranchesInBounds(d, bi, at, Past(d, id));
  }
}
