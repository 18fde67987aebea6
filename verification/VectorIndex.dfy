/**
 The vector-clock index: adding events, flushing and dropping them, and the answers it
 gives about forks, forkless causing and merged clocks.
 */
module VectorIndex {
  import opened Common
  import opened Dag
  import opened Stake
  import opened Branches
  import opened HighestBefore
  import opened LowestAfter
  import opened ForklessCause
  import opened ClockMerging
  import opened MergedClock
  import opened IndexTables
  import opened WeightedMedian
  import opened MedianTime

  class Index {
    const stakes: seq<nat>
    const totalStake: nat
    /** What every id stands for; the index knows a part of it. */
    ghost const d: Dag
    /** The headers the event source can return. */
    var headers: map<EventId, Event>
    /** The branches in use, or none if they are to be loaded. */
    var bi: Option<BranchesInfo>
    /** The tables as seen now, and as last flushed. */
    var db: Tables
    var flushed: Tables
    /** Remembered answers of ForklessCause; never invalidated. */
    var causeCache: map<(EventId, EventId), bool>

    function Current(): (b: BranchesInfo)
      reads this
    {
      match bi
      case Some(b) => b
      case None => StoredBranches(|stakes|, db)
    }

    /** Whatever was remembered is true of the graph, even of events dropped since. */
    ghost predicate CacheSound()
      reads this`causeCache
    {
      forall a, b {:trigger (a, b) in causeCache} | (a, b) in causeCache ::
        a in d && b in d && causeCache[(a, b)] == ForklessCauses(d, stakes, a, b)
    }

    ghost predicate FlushedSound()
      reads this`flushed
    {
      Sound(d, |stakes|, flushed, StoredBranches(|stakes|, flushed))
    }

    ghost predicate HeadersAgree()
      reads this`headers
    {
      forall id {:trigger headers[id]} | id in headers :: id in d && headers[id] == d[id]
    }

    ghost predicate Valid()
      reads this
    {
      && totalStake == Total(stakes)
      && Sound(d, |stakes|, db, Current())
      && FlushedSound()
      && HeadersAgree()
      && flushed.branchOf.Keys <= db.branchOf.Keys <= headers.Keys
      && CacheSound()
    }

    constructor (stakes: seq<nat>, totalStake: nat, ghost d: Dag)
      requires totalStake == Total(stakes)
      ensures Valid() && this.stakes == stakes && this.d == d
      ensures db == EMPTY_TABLES && flushed == EMPTY_TABLES && causeCache == map[]
    {
      this.stakes := stakes;
      this.totalStake := totalStake;
      this.d := d;
      headers := map[];
      bi := None;
      db := EMPTY_TABLES;
      flushed := EMPTY_TABLES;
      causeCache := map[];
      new;
      EmptyIsSound(d, |stakes|);
    }

    method InitBranchesInfo()
      requires Valid()
      modifies this`bi
      ensures Valid() && bi == Some(old(Current()))
    {
      if bi == None {
        bi := Some(StoredBranches(|stakes|, db));
      }
    }

    predicate AtLeastOneFork()
      requires bi.Some?
      reads this
    {
      |bi.value.creatorOf| > |stakes|
    }

    /** Chooses the branch of a new event: the validator's own if still empty, the self-parent's
        if the event extends its tip, or else a new one. */
    method FillGlobalBranchID(e: Event) returns (me: nat)
      requires bi.Some? && TablesAgree(|stakes|, bi.value) && Placed(d, bi.value, db.branchOf)
      requires WellFormedEvent(d, e) && e.creator < |stakes|
      requires forall p | p in e.parents :: p in db.branchOf
      modifies this`bi
      ensures bi.Some? && TablesAgree(|stakes|, bi.value)
      ensures old(bi.value).creatorOf <= bi.value.creatorOf
      ensures |bi.value.creatorOf| <= |old(bi.value).creatorOf| + 1
      ensures |bi.value.creatorOf| > |old(bi.value).creatorOf| ==> me == |old(bi.value).creatorOf|
      ensures forall br | 0 <= br < |old(bi.value).lastSeq| :: old(bi.value).lastSeq[br] <= bi.value.lastSeq[br]
      ensures FreshPlace(d, bi.value, db.branchOf, e, me)
    {
      var b := bi.value;
      if e.SelfParent().None? {
        if b.lastSeq[e.creator] == 0 {
          FirstEventPlace(d, |stakes|, b, db.branchOf, e);
          bi := Some(b.(lastSeq := b.lastSeq[e.creator := e.seqNo]));
          return e.creator;
        }
      } else {
        var p := e.SelfParent().value;
        assert p in e.parents && PlacedAt(d, b, db.branchOf, p);
        var branch := db.branchOf[p];
        if b.lastSeq[branch] + 1 == e.seqNo {
          ExtendingPlace(d, |stakes|, b, db.branchOf, e, p);
          bi := Some(b.(lastSeq := b.lastSeq[branch := e.seqNo]));
          return branch;
        }
      }
      me := |b.creatorOf|;
      NewBranchPlace(d, |stakes|, b, db.branchOf, e, b.byCreator[e.creator := b.byCreator[e.creator] + [me]]);
      bi := Some(BranchesInfo(b.lastSeq + [e.seqNo], b.creatorOf + [e.creator],
                              b.byCreator[e.creator := b.byCreator[e.creator] + [me]]));
      AppendKeepsTables(|stakes|, b, e.creator, e.seqNo);
    }

    /** Marks every branch of a creator. */
    method SetForkDetected(hb: seq<BranchSeq>, branch: nat) returns (r: seq<BranchSeq>)
      requires bi.Some? && TablesAgree(|stakes|, bi.value)
      requires |hb| == |bi.value.creatorOf| && branch < |hb|
      ensures |r| == |hb|
      ensures forall br | 0 <= br < |hb| ::
                r[br] == if bi.value.creatorOf[br] == bi.value.creatorOf[branch] then FORK_DETECTED else hb[br]
    {
      r := hb;
      var c := bi.value.creatorOf[branch];
      var branches := bi.value.byCreator[c];
      for i := 0 to |branches|
        invariant |r| == |hb|
        invariant forall br | 0 <= br < |hb| ::
                    r[br] == hb[br] || (r[br] == FORK_DETECTED && bi.value.creatorOf[br] == c)
        invariant forall j | 0 <= j < i :: r[branches[j]] == FORK_DETECTED
      {
        r := Set(r, branches[i], FORK_DETECTED, NOTHING);
      }
    }

    /** Takes a parent's range of branch `k` in, lowest and highest separately. */
    static method TakeRange(hb0: seq<BranchSeq>, ht0: seq<nat>, k: nat, his: BranchSeq, hisTime: nat)
      returns (hb: seq<BranchSeq>, ht: seq<nat>)
      requires k < |hb0| == |ht0|
      ensures hb == hb0[k := Merge(hb0[k], his)]
      ensures ht == ht0[k := MergeTime(hb0[k], his, ht0[k], hisTime)]
    {
      hb, ht := hb0, ht0;
      var my := Get(hb, k, NOTHING);
      if my.high == 0 || my.low > his.low {
        my := my.(low := his.low);
        hb := Set(hb, k, my, NOTHING);
      }
      if my.high < his.high {
        my := my.(high := his.high);
        hb := Set(hb, k, my, NOTHING);
        ht := Set(ht, k, hisTime, 0);
      }
    }

    /** One step of the loop over a parent's branches. */
    method MergeBranch(p: EventId, k: nat, hb0: seq<BranchSeq>, ht0: seq<nat>,
                       ghost at: map<EventId, nat>, ghost ids: set<EventId>, ghost ps: seq<EventId>)
      returns (hb: seq<BranchSeq>, ht: seq<nat>)
      requires bi.Some? && TablesAgree(|stakes|, bi.value) && k < |bi.value.creatorOf|
      requires p in d && p in db.highestSeq && p in db.highestTime
      requires ParentEntry(d, |stakes|, bi.value, at, p, k, Get(db.highestSeq[p], k, NOTHING),
                           Get(db.highestTime[p], k, 0))
      requires ids <= d.Keys && (forall q | q in ps :: q in d)
      requires MergingParent(d, bi.value, at, ids, ps, p, k, hb0, ht0)
      ensures MergingParent(d, bi.value, at, ids, ps, p, k + 1, hb, ht)
    {
      hb, ht := hb0, ht0;
      var his, hisTime := Get(db.highestSeq[p], k, NOTHING), Get(db.highestTime[p], k, 0);
      if his.high == 0 && his != FORK_DETECTED {
        StepSkipped(d, |stakes|, bi.value, at, ids, ps, p, k, hb, ht, his, hisTime);
        return;
      }
      var my := Get(hb, k, NOTHING);
      if my == FORK_DETECTED {
        StepMarked(d, |stakes|, bi.value, at, ids, ps, p, k, hb, ht);
      } else if his == FORK_DETECTED {
        hb := SetForkDetected(hb, k);
        MarkStep(d, |stakes|, bi.value, at, ids, ps, p, k, hb0, ht0, hb);
      } else {
        StepMerged(d, |stakes|, bi.value, at, ids, ps, p, k, hb, ht, his, hisTime);
        hb, ht := TakeRange(hb, ht, k, his, hisTime);
      }
    }

    /** Merges the vectors of parent `i` into the new event's. */
    method MergeParent(id: EventId, i: nat, p: EventId, hb0: seq<BranchSeq>, ht0: seq<nat>, ghost at: map<EventId, nat>)
      returns (hb: seq<BranchSeq>, ht: seq<nat>)
      requires bi.Some? && TablesAgree(|stakes|, bi.value)
      requires id in d && i < |d[id].parents| && d[id].parents[i] == p && ParentStored(bi.value, at, p)
      requires MergedUpTo(d, bi.value, at, id, i, hb0, ht0)
      ensures MergedUpTo(d, bi.value, at, id, i + 1, hb, ht)
    {
      hb, ht := hb0, ht0;
      ghost var ps := d[id].parents[..i];
      assert forall q | q in ps :: q in d[id].parents;
      ghost var ids := {id} + PastOf(d, ps);
      MergingStart(d, bi.value, at, ids, ps, p, hb, ht);
      for k := 0 to |bi.value.creatorOf|
        invariant MergingParent(d, bi.value, at, ids, ps, p, k, hb, ht)
      {
        StoredParentEntry(d, |stakes|, bi.value, at, p, k, db.highestSeq[p], db.highestTime[p]);
        hb, ht := MergeBranch(p, k, hb, ht, at, ids, ps);
      }
      MergingEnd(d, |stakes|, bi.value, at, ids, ps, p, hb, ht);
      MergedNext(d, bi.value, at, id, i, hb, ht);
    }

    /** The new event's HighestBefore vectors before its own fork check: itself and its parents merged. */
    method MergeParents(id: EventId, e: Event, me: nat, size: nat, ghost at: map<EventId, nat>)
      returns (hb: seq<BranchSeq>, ht: seq<nat>)
      requires bi.Some? && TablesAgree(|stakes|, bi.value)
      requires id in d && e == d[id] && id in at && at[id] == me && me < |bi.value.creatorOf|
      requires |bi.value.creatorOf| == if me < size then size else me + 1
      requires forall p | p in e.parents :: ParentStored(bi.value, at, p)
      ensures Merged(d, bi.value, at, Past(d, id), e.parents, hb, ht)
    {
      hb := Set(seq(size, _ => NOTHING), me, BranchSeq(e.seqNo, e.seqNo), NOTHING);
      ht := Set(seq(size, _ => 0), me, e.claimedTime, 0);
      MergedAlone(d, bi.value, at, id, me, hb, ht);
      MergedNone(d, bi.value, at, id, hb, ht);
      for i := 0 to |e.parents|
        invariant MergedUpTo(d, bi.value, at, id, i, hb, ht)
      {
        hb, ht := MergeParent(id, i, e.parents[i], hb, ht, at);
      }
      MergedEveryone(d, bi.value, at, id, hb, ht);
    }

    /** The parent's vectors are stored and exact. */
    ghost predicate ParentStored(b: BranchesInfo, at: map<EventId, nat>, p: EventId)
      reads this
    {
      && p in d && p in db.highestSeq && p in db.highestTime
      && Exact(d, b, at, Past(d, p), db.highestSeq[p], db.highestTime[p])
      && |db.highestSeq[p]| >= |stakes|
    }

    /** Whether two of the branches overlap. */
    static method AnyOverlap(hb: seq<BranchSeq>, branches: seq<nat>) returns (found: bool)
      requires forall i | 0 <= i < |branches| :: branches[i] < |hb|
      ensures found <==> exists i, j :: OverlapAt(hb, branches, i, j)
    {
      for i := 0 to |branches|
        invariant forall i', j' | 0 <= i' < i :: !OverlapAt(hb, branches, i', j')
      {
        for j := 0 to |branches|
          invariant forall j' | 0 <= j' < j :: !OverlapAt(hb, branches, i, j')
        {
          if branches[i] == branches[j] {
            continue;
          }
          var a, b := Get(hb, branches[i], NOTHING), Get(hb, branches[j], NOTHING);
          if a.high == 0 || b.high == 0 {
            continue;
          }
          if a.low <= b.high && b.low <= a.high {
            assert OverlapAt(hb, branches, i, j);
            return true;
          }
        }
      }
      return false;
    }

    /** Checks one creator for a fork that no single parent observed. */
    method CheckCreator(id: EventId, c: nat, hb0: seq<BranchSeq>, ht: seq<nat>, ghost at: map<EventId, nat>)
      returns (hb: seq<BranchSeq>)
      requires bi.Some? && TablesAgree(|stakes|, bi.value) && Placed(d, bi.value, at)
      requires id in d && Past(d, id) <= at.Keys && c < |stakes|
      requires Detecting(d, bi.value, at, id, c, hb0, ht)
      ensures Detecting(d, bi.value, at, id, c + 1, hb, ht)
    {
      hb := hb0;
      if Get(hb, c, NOTHING) == FORK_DETECTED {
        DetectingMarked(d, |stakes|, bi.value, at, id, c, hb, ht);
        return;
      }
      var found := AnyOverlap(hb, bi.value.byCreator[c]);
      if found {
        hb := SetForkDetected(hb, c);
      }
      DetectingStep(d, |stakes|, bi.value, at, id, c, hb0, ht, found, hb);
    }

    /** Detects the forks that no single parent observed. */
    method DetectForks(id: EventId, hb0: seq<BranchSeq>, ht: seq<nat>, ghost at: map<EventId, nat>)
      returns (hb: seq<BranchSeq>)
      requires bi.Some? && TablesAgree(|stakes|, bi.value) && Placed(d, bi.value, at)
      requires id in d && Past(d, id) <= at.Keys
      requires Merged(d, bi.value, at, Past(d, id), d[id].parents, hb0, ht)
      ensures Exact(d, bi.value, at, Past(d, id), hb, ht) && |hb| == |bi.value.creatorOf|
    {
      hb := hb0;
      if !AtLeastOneFork() {
        DetectingNothing(d, |stakes|, bi.value, at, id, hb, ht);
        return;
      }
      DetectingStart(d, bi.value, at, id, hb, ht);
      for c := 0 to |stakes|
        invariant Detecting(d, bi.value, at, id, c, hb, ht)
      {
        hb := CheckCreator(id, c, hb, ht, at);
      }
      DetectingEnd(d, |stakes|, bi.value, at, id, hb, ht);
    }

    /** Walks the graph below a new event, excluding it, and sets the missing LowestAfter entries. */
    method UpdateLowestAfter(id: EventId, e: Event, me: nat)
      requires id in d && e == d[id] && db.lowestAfter.Keys == db.branchOf.Keys <= headers.Keys
      requires HeadersAgree() && Closed(d, db.branchOf.Keys)
      requires forall p | p in e.parents :: p in db.branchOf
      modifies this`db
      ensures db == old(db).(lowestAfter := db.lowestAfter)
      ensures Walking(d, old(db).lowestAfter, db.lowestAfter, PastOf(d, e.parents), e, me, [])
    {
      hide Walking;
      hide PastOf;
      ghost var below := PastOf(d, e.parents);
      ghost var la0 := db.lowestAfter;
      BelowIsClosed(d, id);
      WalkStart(d, la0, id, me);
      var stack := e.parents;
      ghost var missing := db.lowestAfter.Keys;
      while |stack| > 0
        invariant db == old(db).(lowestAfter := db.lowestAfter)
        invariant Walking(d, la0, db.lowestAfter, below, e, me, stack)
        invariant forall x | x in db.lowestAfter && !Done(db.lowestAfter, me, x) :: x in missing
        decreases missing, |stack|
      {
        var top := stack[|stack| - 1];
        WalkTop(d, la0, db.lowestAfter, below, e, me, stack);
        if Get(db.lowestAfter[top], me, 0) != 0 {
          WalkSkip(d, la0, db.lowestAfter, below, e, me, stack);
          stack := stack[..|stack| - 1];
        } else {
          WalkDeeper(d, la0, db.lowestAfter, below, e, me, stack, top);
          assert top in missing;
          missing := missing - {top};
          db := db.(lowestAfter := db.lowestAfter[top := Set(db.lowestAfter[top], me, e.seqNo, 0)]);
          stack := stack[..|stack| - 1] + headers[top].parents;
        }
      }
      assert stack == [];
    }

    /** The HighestBefore vectors of a new event placed on branch `me`. */
    method CalcHighestBefore(id: EventId, e: Event, me: nat, size: nat, ghost b0: BranchesInfo,
                             ghost at: map<EventId, nat>)
      returns (hb: seq<BranchSeq>, ht: seq<nat>)
      requires bi.Some? && TablesAgree(|stakes|, bi.value) && Placed(d, bi.value, at)
      requires Sound(d, |stakes|, db, b0) && b0.creatorOf <= bi.value.creatorOf
      requires id in d && e == d[id] && at == db.branchOf[id := me] && id !in db.branchOf && me < |bi.value.creatorOf|
      requires |bi.value.creatorOf| == if me < size then size else me + 1
      requires forall p | p in e.parents :: p in db.branchOf
      ensures Exact(d, bi.value, at, Past(d, id), hb, ht) && |hb| == |bi.value.creatorOf|
    {
      hide Sound;
      hide PastOf;
      hide Exact;
      hide Merged;
      forall p | p in e.parents
        ensures ParentStored(bi.value, at, p)
      {
        OldVectorsExact(d, |stakes|, db, b0, bi.value, at, p);
      }
      hb, ht := MergeParents(id, e, me, size, at);
      ClosedHoldsPast(d, at.Keys, id);
      hb := DetectForks(id, hb, ht, at);
    }

    /** Stores the calculated vectors of a new event. */
    method StoreVectors(id: EventId, e: Event, me: nat, hb: seq<BranchSeq>, ht: seq<nat>, own: seq<nat>)
      requires bi.Some? && id in d && e == d[id] && totalStake == Total(stakes)
      requires FlushedSound() && HeadersAgree() && CacheSound()
      requires flushed.branchOf.Keys <= db.branchOf.Keys <= headers.Keys
      requires Sound(d, |stakes|, WithEvent(db, id, me, hb, ht, db.lowestAfter, own), bi.value)
      modifies this`db, this`headers
      ensures Valid()
      ensures db.branchOf.Keys == old(db.branchOf.Keys) + {id}
    {
      hide Sound;
      hide CacheSound;
      hide FlushedSound;
      db := WithEvent(db, id, me, hb, ht, db.lowestAfter, own);
      headers := headers[id := e];
    }

    /** Calculates and stores the vectors of a new event and updates LowestAfter of the events it observes. */
    method FillEventVectors(id: EventId, e: Event)
      requires Valid() && bi.Some?
      requires id in d && e == d[id] && id !in db.branchOf && e.creator < |stakes|
      requires forall p | p in e.parents :: p in db.branchOf
      modifies this`bi, this`db, this`headers
      ensures Valid()
      ensures db.branchOf.Keys == old(db.branchOf.Keys) + {id}
    {
      hide Walking;
      hide PastOf;
      hide Exact;
      hide Sound;
      hide Placed;
      hide TablesAgree;
      hide FreshPlace;
      hide CacheSound;
      hide FlushedSound;
      hide HeadersAgree;
      hide WithEvent;
      hide Closed;
      var size := |bi.value.creatorOf|;
      ghost var b0, t0 := bi.value, db;
      SoundParts(d, |stakes|, db, bi.value);
      var me, hb, ht := PlaceAndMerge(id, e);
      UpdateLowestAfter(id, e, me);
      var own := Set(seq(size, _ => 0), me, e.seqNo, 0);
      AddKeepsSound(d, |stakes|, t0, b0, bi.value, id, me, hb, ht, db.lowestAfter, own);
      WithEventReplacesLowest(t0, id, me, hb, ht, db.lowestAfter, own);
      StoreVectors(id, e, me, hb, ht, own);
    }

    /** Chooses the branch of a new event and calculates its HighestBefore vectors. */
    method PlaceAndMerge(id: EventId, e: Event) returns (me: nat, hb: seq<BranchSeq>, ht: seq<nat>)
      requires bi.Some? && Sound(d, |stakes|, db, bi.value)
      requires id in d && e == d[id] && id !in db.branchOf && e.creator < |stakes|
      requires forall p | p in e.parents :: p in db.branchOf
      modifies this`bi
      ensures bi.Some? && TablesAgree(|stakes|, bi.value) && old(bi.value).creatorOf <= bi.value.creatorOf
      ensures Placed(d, bi.value, db.branchOf[id := me]) && Closed(d, db.branchOf[id := me].Keys)
      ensures FreshPlace(d, bi.value, db.branchOf, e, me)
      ensures Exact(d, bi.value, db.branchOf[id := me], Past(d, id), hb, ht) && |hb| >= |stakes|
    {
      hide Exact;
      hide Sound;
      var size := |bi.value.creatorOf|;
      ghost var b0 := bi.value;
      SoundParts(d, |stakes|, db, bi.value);
      me := FillGlobalBranchID(e);
      PlaceKeepsChains(d, b0, bi.value, db.branchOf, id, me);
      hb, ht := CalcHighestBefore(id, e, me, size, b0, db.branchOf[id := me]);
    }

    /** Adds an event whose parents are indexed. Adding it twice changes nothing. */
    method Add(id: EventId, e: Event)
      requires Valid()
      requires id in d && e == d[id] && e.creator < |stakes|
      requires forall p | p in e.parents :: p in db.branchOf
      modifies this`bi, this`db, this`headers
      ensures Valid()
      ensures db.branchOf.Keys == old(db.branchOf.Keys) + {id}
    {
      if id in db.highestSeq {
        return;
      }
      InitBranchesInfo();
      FillEventVectors(id, e);
    }

    /** Makes everything added so far permanent. */
    method Flush()
      requires Valid()
      modifies this`db, this`flushed
      ensures Valid()
      ensures flushed.branchOf == db.branchOf == old(db.branchOf)
    {
      if bi.Some? {
        db := db.(branches := bi);
      }
      flushed := db;
    }

    /** Forgets the remembered answers. */
    method PurgeCache()
      requires Valid()
      modifies this`causeCache
      ensures Valid() && causeCache == map[]
    {
      hide Sound;
      causeCache := map[];
    }

    /** Forgets everything added since the last flush. */
    method DropNotFlushed()
      requires Valid()
      modifies this`bi, this`db
      ensures Valid()
      ensures db == flushed
    {
      bi := None;
      db := flushed;
    }

    /** Answers from the two vectors alone whether `b` forkless-causes `a`. */
    method CalcForklessCause(a: EventId, b: EventId) returns (yes: bool)
      requires Valid() && a in db.branchOf && b in db.branchOf
      modifies this`bi
      ensures Valid()
      ensures yes == ForklessCauses(d, stakes, a, b)
    {
      hide Sound;
      hide CacheSound;
      hide FlushedSound;
      hide ForklessCauses;
      hide TablesAgree;
      hide Placed;
      hide Counted;
      InitBranchesInfo();
      var info := bi.value;
      SoundParts(d, |stakes|, db, info);
      EventPlaced(d, |stakes|, db, info, a);
      EventPlaced(d, |stakes|, db, info, b);
      var ha := db.highestSeq[a];
      if AtLeastOneFork() && Get(ha, db.branchOf[b], NOTHING) == FORK_DETECTED {
        MarkedMeansNo(d, stakes, db, info, a, b);
        return false;
      }
      yes := QuorumOfBranches(info, ha, db.lowestAfter[b]);
      CountedAreSupporters(d, stakes, db, info, a, b);
    }

    /** Whether the creators that some branch adds hold a quorum. */
    method QuorumOfBranches(info: BranchesInfo, ha: seq<BranchSeq>, lb: seq<nat>) returns (yes: bool)
      requires TablesAgree(|stakes|, info) && totalStake == Total(stakes)
      ensures yes <==> StakeOf(stakes, Counted(info, ha, lb, |info.creatorOf|)) >= Quorum(stakes)
    {
      hide Counted;
      hide StakeOf;
      var counter := new StakeCounter(stakes, totalStake);
      CountedNone(info, ha, lb);
      for br := 0 to |info.creatorOf|
        invariant fresh(counter) && fresh(counter.already) && counter.Valid() && counter.stakes == stakes
        invariant counter.Counted() == Counted(info, ha, lb, br)
      {
        if Counts(ha, lb, br) {
          // one creator may have several such branches; only the first adds its stake
          var _ := counter.CountByIdx(info.creatorOf[br]);
        }
        CountedNext(info, ha, lb, br);
      }
      yes := counter.HasQuorum();
    }

    /** The same answer, remembered. */
    method ForklessCause(a: EventId, b: EventId) returns (yes: bool)
      requires Valid() && a in db.branchOf && b in db.branchOf
      modifies this`bi, this`causeCache
      ensures Valid()
      ensures yes == ForklessCauses(d, stakes, a, b)
    {
      hide Sound;
      hide FlushedSound;
      hide ForklessCauses;
      hide Placed;
      hide TablesAgree;
      if (a, b) in causeCache {
        return causeCache[(a, b)];
      }
      yes := CalcForklessCause(a, b);
      SoundParts(d, |stakes|, db, Current());
      causeCache := causeCache[(a, b) := yes];
    }

    /** Merges the branches of a creator into one entry; stops at a fork mark. */
    method MergeCreator(a: EventId, c: nat, hb: seq<BranchSeq>, ht: seq<nat>) returns (r: BranchSeq, t: nat)
      requires bi.Some? && TablesAgree(|stakes|, bi.value) && Placed(d, bi.value, db.branchOf) && c < |stakes|
      requires a in d && Past(d, a) <= db.branchOf.Keys
      requires Exact(d, bi.value, db.branchOf, Past(d, a), hb, ht) && |hb| >= |stakes|
      ensures CreatorRange(d, Past(d, a), c, r, t)
    {
      hide Exact;
      hide Placed;
      hide ParentEntry;
      hide MergedBranches;
      hide SeesFork;
      var branches := bi.value.byCreator[c];
      r, t := NOTHING, 0;
      FirstBranchTellsFork(d, |stakes|, bi.value, db.branchOf, a, c, hb, ht);
      NoBranchesMerged(d, db.branchOf, Past(d, a));
      for i := 0 to |branches|
        invariant SeesFork(d, a, c) ==> i == 0
        invariant r.high != 0 || r != FORK_DETECTED
        invariant i == 0 ==> t == 0
        invariant MergedBranches(d, db.branchOf, Past(d, a), branches[..i], r, t)
      {
        var branch, time := Get(hb, branches[i], NOTHING), Get(ht, branches[i], 0);
        if branch == FORK_DETECTED {
          if !SeesFork(d, a, c) {
            StoredParentEntry(d, |stakes|, bi.value, db.branchOf, a, branches[i], hb, ht);
            MergedBranchesNext(d, |stakes|, bi.value, db.branchOf, a, branches[..i], branches[i], r, t, branch, time);
          }
          ForkedRange(d, a, c);
          return branch, t;
        }
        StoredParentEntry(d, |stakes|, bi.value, db.branchOf, a, branches[i], hb, ht);
        MergedBranchesNext(d, |stakes|, bi.value, db.branchOf, a, branches[..i], branches[i], r, t, branch, time);
        TakeSnoc(branches, i);
        var r0 := r;
        if r.high < branch.high {
          r := r.(high := branch.high);
          t := time;
        }
        if branch.low != 0 && (r.low == 0 || r.low > branch.low) {
          r := r.(low := branch.low);
        }
        assert r == Absorb(r0, branch);
      }
      TakeAll(branches);
      AllBranchesMerged(d, |stakes|, bi.value, db.branchOf, a, c, r, t);
    }

    /** The merged vectors of an event; for an unknown event nothing, or zeros once there is a fork. */
    method GetHighestBeforeMerged(a: EventId) returns (ms: Option<seq<BranchSeq>>, mt: Option<seq<nat>>)
      requires Valid()
      modifies this`bi
      ensures Valid() && bi.Some?
      ensures a in db.branchOf ==>
                a in d && ms.Some? && mt.Some? && MergedExact(d, |stakes|, Past(d, a), ms.value, mt.value)
      ensures a !in db.branchOf ==> ms.Some? == mt.Some? == AtLeastOneFork()
      ensures a !in db.branchOf && ms.Some? ==>
                ms.value == seq(|stakes|, _ => NOTHING) && mt.value == seq(|stakes|, _ => 0)
    {
      hide Sound;
      hide CacheSound;
      hide FlushedSound;
      hide Placed;
      hide TablesAgree;
      hide Exact;
      hide MergedExact;
      InitBranchesInfo();
      SoundParts(d, |stakes|, db, bi.value);
      if a !in db.highestSeq {
        if !AtLeastOneFork() {
          return None, None;
        }
        return Some(seq(|stakes|, _ => NOTHING)), Some(seq(|stakes|, _ => 0));
      }
      EventPlaced(d, |stakes|, db, bi.value, a);
      if !AtLeastOneFork() {
        BranchCount(|stakes|, bi.value);
        UnforkedIsMerged(d, |stakes|, bi.value, db.branchOf, a, db.highestSeq[a], db.highestTime[a]);
        return Some(db.highestSeq[a]), Some(db.highestTime[a]);
      }
      var rs, ts := MergeCreators(a, db.highestSeq[a], db.highestTime[a]);
      return Some(rs), Some(ts);
    }

    method MergeCreators(a: EventId, hb: seq<BranchSeq>, ht: seq<nat>) returns (ms: seq<BranchSeq>, mt: seq<nat>)
      requires bi.Some? && TablesAgree(|stakes|, bi.value) && Placed(d, bi.value, db.branchOf)
      requires a in d && Past(d, a) <= db.branchOf.Keys
      requires Exact(d, bi.value, db.branchOf, Past(d, a), hb, ht) && |hb| >= |stakes|
      ensures MergedExact(d, |stakes|, Past(d, a), ms, mt)
    {
      hide Exact;
      hide Placed;
      hide TablesAgree;
      hide CreatorRange;
      ms, mt := [], [];
      for c := 0 to |stakes|
        invariant MergedExact(d, c, Past(d, a), ms, mt)
      {
        var r, t := MergeCreator(a, c, hb, ht);
        MergedExactNext(d, c, Past(d, a), ms, mt, r, t);
        ms, mt := ms + [r], mt + [t];
      }
    }

    /** The stake-weighted median of the highest observed claimed times; 0 for an unknown event. */
    method MedianTime(a: EventId, genesis: nat) returns (m: nat)
      requires Valid()
      modifies this`bi
      ensures Valid()
      ensures a in db.branchOf ==> a in d && IsMedianTime(d, stakes, a, genesis, m)
      ensures a !in db.branchOf ==> m == 0 || (bi.Some? && AtLeastOneFork() && m == genesis)
    {
      hide Sound;
      hide CacheSound;
      hide FlushedSound;
      hide HeadersAgree;
      hide MergedExact;
      var ms, mt := GetHighestBeforeMerged(a);
      if ms.None? || mt.None? {
        return 0;
      }
      if a in db.branchOf {
        MergedLengths(d, |stakes|, Past(d, a), ms.value, mt.value);
      }
      var es, total := CollectReadings(ms.value, mt.value, genesis);
      m := Median(es, total);
      if a !in db.branchOf && es != [] {
        var i :| 0 <= i < |es| && es[i].time == m;
        assert es[i] == ReadingOf(stakes[i], NOTHING, 0, genesis);
      }
    }

    /** One reading per validator, and their stake. */
    method CollectReadings(ms: seq<BranchSeq>, mt: seq<nat>, genesis: nat) returns (es: seq<Reading>, total: nat)
      requires |ms| == |mt| == |stakes|
      ensures es == Readings(stakes, ms, mt, genesis) && total == StakeSum(es)
    {
      es, total := [], 0;
      for c := 0 to |stakes|
        invariant |es| == c && total == StakeSum(es)
        invariant forall i | 0 <= i < c :: es[i] == ReadingOf(stakes[i], ms[i], mt[i], genesis)
      {
        var highest := Reading(stakes[c], mt[c]);
        if ms[c] == FORK_DETECTED {
          highest := highest.(stake := 0);
        } else if ms[c].high == 0 {
          highest := highest.(time := genesis);
        }
        assert (es + [highest])[..c] == es;
        es := es + [highest];
        total := total + highest.stake;
      }
    }

    /** Drops the events whose creators the self-parent observes as cheaters. */
    method NoCheaters(selfParent: Option<EventId>, options: seq<EventId>) returns (filtered: seq<EventId>)
      requires Valid()
      requires selfParent.Some? ==> selfParent.value in db.branchOf
      requires forall p | p in options :: p in headers && headers[p].creator < |stakes|
      modifies this`bi
      ensures Valid()
      ensures selfParent.None? ==> filtered == options
      ensures selfParent.Some? ==> selfParent.value in d && filtered == HonestOptions(d, selfParent.value, options)
    {
      hide Sound;
      hide CacheSound;
      hide FlushedSound;
      hide Placed;
      hide TablesAgree;
      hide Exact;
      if selfParent.None? {
        return options;
      }
      InitBranchesInfo();
      SoundParts(d, |stakes|, db, bi.value);
      EventPlaced(d, |stakes|, db, bi.value, selfParent.value);
      filtered := FilterForked(selfParent.value, options);
    }

    method FilterForked(a: EventId, options: seq<EventId>) returns (filtered: seq<EventId>)
      requires bi.Some? && TablesAgree(|stakes|, bi.value) && HeadersAgree()
      requires VectorsExact(d, |stakes|, bi.value, db.branchOf, db.highestSeq, db.highestTime, a)
      requires forall p | p in options :: p in headers && headers[p].creator < |stakes|
      ensures filtered == HonestOptions(d, a, options)
    {
      hide Exact;
      hide SeesFork;
      hide TablesAgree;
      hide HonestOptions;
      var highest := db.highestSeq[a];
      filtered := [];
      HonestOptionsNone(d, a);
      for i := 0 to |options|
        invariant AllIn(d, options[..i]) && filtered == HonestOptions(d, a, options[..i])
      {
        var p := options[i];
        assert p in options && headers[p] == d[p];
        OwnBranchTellsFork(d, |stakes|, bi.value, db.branchOf, a, d[p].creator, db.highestSeq[a], db.highestTime[a]);
        if Get(highest, headers[p].creator, NOTHING) != FORK_DETECTED {
          filtered := filtered + [p];
        }
        HonestOptionsNext(d, a, options, i);
      }
      TakeAll(options);
    }
  }
}
