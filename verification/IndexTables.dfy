/**
 The tables of the vector-clock index, what it means for them to be exact about the graph,
 and why adding an event keeps them so.
 */
module IndexTables {
  import opened Common
  import opened Dag
  import opened Stake
  import opened Branches
  import opened HighestBefore
  import opened LowestAfter
  import opened ForklessCause
  import opened ClockMerging

  /** The tables behind the index. */
  datatype Tables = Tables(
    highestSeq: map<EventId, seq<BranchSeq>>,
    highestTime: map<EventId, seq<nat>>,
    lowestAfter: map<EventId, seq<nat>>,
    branchOf: map<EventId, nat>,
    branches: Option<BranchesInfo>)

  const EMPTY_TABLES := Tables(map[], map[], map[], map[], None)

  /** The stored branches, or the initial ones of a first run. */
  function StoredBranches(n: nat, t: Tables): (bi: BranchesInfo)
  {
    match t.branches
    case Some(bi) => bi
    case None => InitialBranches(n)
  }

  /** Every vector in the tables is exact about the graph. */
  ghost predicate Sound(d: Dag, n: nat, t: Tables, bi: BranchesInfo)
  {
    && TablesAgree(n, bi)
    && Placed(d, bi, t.branchOf)
    && t.highestSeq.Keys == t.highestTime.Keys == t.branchOf.Keys
    && AllExact(d, n, bi, t.branchOf, t.highestSeq, t.highestTime)
    && LowestExact(d, t.branchOf, t.lowestAfter)
  }

  ghost predicate AllExact(d: Dag, n: nat, bi: BranchesInfo, at: map<EventId, nat>,
                           hs: map<EventId, seq<BranchSeq>>, ht: map<EventId, seq<nat>>)
  {
    forall a {:trigger VectorsExact(d, n, bi, at, hs, ht, a)} | a in at :: VectorsExact(d, n, bi, at, hs, ht, a)
  }

  /** The HighestBefore vectors of one event are exact. */
  ghost predicate VectorsExact(d: Dag, n: nat, bi: BranchesInfo, at: map<EventId, nat>,
                               hs: map<EventId, seq<BranchSeq>>, ht: map<EventId, seq<nat>>, a: EventId)
  {
    && a in d && a in hs && a in ht
    && Exact(d, bi, at, Past(d, a), hs[a], ht[a])
    && |hs[a]| >= n
  }

  lemma SoundParts(d: Dag, n: nat, t: Tables, bi: BranchesInfo)
    requires Sound(d, n, t, bi)
    ensures TablesAgree(n, bi) && Placed(d, bi, t.branchOf) && Closed(d, t.branchOf.Keys)
    ensures t.highestSeq.Keys == t.highestTime.Keys == t.branchOf.Keys == t.lowestAfter.Keys
  {}

  lemma EmptyIsSound(d: Dag, n: nat)
    ensures Sound(d, n, EMPTY_TABLES, InitialBranches(n))
  {}

  /** Appending a branch for a creator keeps the branch tables in step. */
  lemma AppendKeepsTables(n: nat, bi: BranchesInfo, c: nat, s: nat)
    requires TablesAgree(n, bi) && c < n
    ensures TablesAgree(n, BranchesInfo(bi.lastSeq + [s], bi.creatorOf + [c],
                                        bi.byCreator[c := bi.byCreator[c] + [|bi.creatorOf|]]))
  {
    var new' := bi.byCreator[c] + [|bi.creatorOf|];
    var bi' := BranchesInfo(bi.lastSeq + [s], bi.creatorOf + [c], bi.byCreator[c := new']);
    assert new'[|new'| - 1] == |bi.creatorOf|;
    forall br | 0 <= br < |bi'.creatorOf|
      ensures br in bi'.byCreator[bi'.creatorOf[br]]
    {
      assert br < |bi.creatorOf| ==> br in bi.byCreator[bi.creatorOf[br]];
    }
  }

  /** A validator without events starts on its own branch. */
  lemma FirstEventPlace(d: Dag, n: nat, bi: BranchesInfo, at: map<EventId, nat>, e: Event)
    requires TablesAgree(n, bi) && Placed(d, bi, at) && e.creator < n
    requires bi.lastSeq[e.creator] == 0
    ensures FreshPlace(d, bi.(lastSeq := bi.lastSeq[e.creator := e.seqNo]), at, e, e.creator)
  {
    assert forall x | x in at :: at[x] != e.creator by {
      forall x | x in at
        ensures at[x] != e.creator
      {
        assert PlacedAt(d, bi, at, x) && d[x].seqNo >= 1;
      }
    }
  }

  /** An event that follows the last of its self-parent's branch extends that branch. */
  lemma ExtendingPlace(d: Dag, n: nat, bi: BranchesInfo, at: map<EventId, nat>, e: Event, p: EventId)
    requires TablesAgree(n, bi) && Placed(d, bi, at) && WellFormedEvent(d, e)
    requires e.SelfParent() == Some(p) && p in e.parents && PlacedAt(d, bi, at, p)
    requires bi.lastSeq[at[p]] + 1 == e.seqNo
    ensures FreshPlace(d, bi.(lastSeq := bi.lastSeq[at[p] := e.seqNo]), at, e, at[p])
  {
    forall x | x in at && at[x] == at[p]
      ensures d[x].seqNo < e.seqNo
    {
      assert PlacedAt(d, bi, at, x);
    }
  }

  /** A new branch holds no event yet. */
  lemma NewBranchPlace(d: Dag, n: nat, bi: BranchesInfo, at: map<EventId, nat>, e: Event, byCreator: seq<seq<nat>>)
    requires TablesAgree(n, bi) && Placed(d, bi, at)
    ensures FreshPlace(d, BranchesInfo(bi.lastSeq + [e.seqNo], bi.creatorOf + [e.creator], byCreator), at, e,
                       |bi.creatorOf|)
  {
    forall x | x in at
      ensures at[x] < |bi.creatorOf|
    {
      assert PlacedAt(d, bi, at, x);
    }
  }

  /** The vectors a parent stored, read at branch `k`. */
  lemma StoredParentEntry(d: Dag, n: nat, bi: BranchesInfo, at: map<EventId, nat>, p: EventId, k: nat,
                          hb: seq<BranchSeq>, ht: seq<nat>)
    requires p in d && k < |bi.creatorOf|
    requires Exact(d, bi, at, Past(d, p), hb, ht) && |hb| >= n
    ensures ParentEntry(d, n, bi, at, p, k, Get(hb, k, NOTHING), Get(ht, k, 0))
  {
    if k < |hb| {
      assert EntryExact(d, bi, at, Past(d, p), k, hb, ht);
    }
  }

  /** The tables with the vectors of a new event stored. */
  function WithEvent(t: Tables, id: EventId, me: nat, hb: seq<BranchSeq>, ht: seq<nat>,
                     la: map<EventId, seq<nat>>, own: seq<nat>): (t': Tables)
  {
    Tables(t.highestSeq[id := hb], t.highestTime[id := ht], la[id := own], t.branchOf[id := me], t.branches)
  }

  lemma WithEventReplacesLowest(t: Tables, id: EventId, me: nat, hb: seq<BranchSeq>, ht: seq<nat>,
                                la: map<EventId, seq<nat>>, own: seq<nat>)
    ensures WithEvent(t.(lowestAfter := la), id, me, hb, ht, la, own) == WithEvent(t, id, me, hb, ht, la, own)
  {}

  /** The tables stay exact when an event's vectors are stored and the walk below it is done. */
  lemma AddKeepsSound(d: Dag, n: nat, t: Tables, bi: BranchesInfo, bi': BranchesInfo, id: EventId, me: nat,
                      hb: seq<BranchSeq>, ht: seq<nat>, la: map<EventId, seq<nat>>, own: seq<nat>)
    requires Sound(d, n, t, bi)
    requires id in d && id !in t.branchOf && (forall p | p in d[id].parents :: p in t.branchOf)
    requires TablesAgree(n, bi') && bi.creatorOf <= bi'.creatorOf
    requires Placed(d, bi', t.branchOf[id := me]) && Closed(d, t.branchOf[id := me].Keys)
    requires FreshPlace(d, bi', t.branchOf, d[id], me)
    requires Exact(d, bi', t.branchOf[id := me], Past(d, id), hb, ht) && |hb| >= n
    requires Walking(d, t.lowestAfter, la, PastOf(d, d[id].parents), d[id], me, [])
    requires forall b: nat :: Get(own, b, 0) == if b == me then d[id].seqNo else 0
    ensures Sound(d, n, WithEvent(t, id, me, hb, ht, la, own), bi')
  {
    hide *;
    AddKeepsExact(d, n, t, bi, bi', id, me, hb, ht);
    AddKeepsLowest(d, n, t, bi, bi', id, me, la, own);
    AssembleSound(d, n, t, bi, bi', id, me, hb, ht, la, own);
  }

  lemma AssembleSound(d: Dag, n: nat, t: Tables, bi: BranchesInfo, bi': BranchesInfo, id: EventId, me: nat,
                      hb: seq<BranchSeq>, ht: seq<nat>, la: map<EventId, seq<nat>>, own: seq<nat>)
    requires Sound(d, n, t, bi)
    requires TablesAgree(n, bi') && Placed(d, bi', t.branchOf[id := me])
    requires AllExact(d, n, bi', t.branchOf[id := me], t.highestSeq[id := hb], t.highestTime[id := ht])
    requires LowestExact(d, t.branchOf[id := me], la[id := own])
    ensures Sound(d, n, WithEvent(t, id, me, hb, ht, la, own), bi')
  {
    hide TablesAgree;
    hide Placed;
    hide AllExact;
    hide LowestExact;
  }

  lemma AddKeepsExact(d: Dag, n: nat, t: Tables, bi: BranchesInfo, bi': BranchesInfo, id: EventId, me: nat,
                      hb: seq<BranchSeq>, ht: seq<nat>)
    requires Sound(d, n, t, bi)
    requires id in d && id !in t.branchOf
    requires bi.creatorOf <= bi'.creatorOf
    requires Closed(d, t.branchOf[id := me].Keys)
    requires Exact(d, bi', t.branchOf[id := me], Past(d, id), hb, ht) && |hb| >= n
    ensures AllExact(d, n, bi', t.branchOf[id := me], t.highestSeq[id := hb], t.highestTime[id := ht])
  {
    hide Exact;
    hide Sound;
    var at' := t.branchOf[id := me];
    var hs', ht' := t.highestSeq[id := hb], t.highestTime[id := ht];
    forall a | a in at'
      ensures VectorsExact(d, n, bi', at', hs', ht', a)
    {
      if a != id {
        OldVectorsExact(d, n, t, bi, bi', at', a);
      }
    }
  }

  lemma AddKeepsLowest(d: Dag, n: nat, t: Tables, bi: BranchesInfo, bi': BranchesInfo, id: EventId, me: nat,
                       la: map<EventId, seq<nat>>, own: seq<nat>)
    requires Sound(d, n, t, bi)
    requires id in d && id !in t.branchOf && (forall p | p in d[id].parents :: p in t.branchOf)
    requires FreshPlace(d, bi', t.branchOf, d[id], me)
    requires Walking(d, t.lowestAfter, la, PastOf(d, d[id].parents), d[id], me, [])
    requires forall b: nat :: Get(own, b, 0) == if b == me then d[id].seqNo else 0
    ensures LowestExact(d, t.branchOf[id := me], la[id := own])
  {
    hide Walking;
    hide PastOf;
    hide LowestExact;
    hide AllExact;
    WalkKeepsLowest(d, t.branchOf, t.lowestAfter, la, id, me, own);
  }

  /** The vectors of an indexed event stay exact when more events and branches come. */
  lemma OldVectorsExact(d: Dag, n: nat, t: Tables, bi: BranchesInfo, bi': BranchesInfo, at': map<EventId, nat>,
                        a: EventId)
    requires Sound(d, n, t, bi) && a in t.branchOf
    requires bi.creatorOf <= bi'.creatorOf
    requires forall x | x in t.branchOf :: x in at' && at'[x] == t.branchOf[x]
    ensures VectorsExact(d, n, bi', at', t.highestSeq, t.highestTime, a)
  {
    assert VectorsExact(d, n, bi, t.branchOf, t.highestSeq, t.highestTime, a);
    ClosedHoldsPast(d, t.branchOf.Keys, a);
    ExactStable(d, bi, bi', t.branchOf, at', Past(d, a), t.highestSeq[a], t.highestTime[a]);
  }

  lemma WalkKeepsLowest(d: Dag, at: map<EventId, nat>, la0: map<EventId, seq<nat>>, la: map<EventId, seq<nat>>,
                        id: EventId, me: nat, own: seq<nat>)
    requires id in d && id !in at && (forall p | p in d[id].parents :: p in at)
    requires LowestExact(d, at, la0) && Closed(d, at.Keys)
    requires forall y | y in at && at[y] == me :: d[y].seqNo < d[id].seqNo
    requires Walking(d, la0, la, PastOf(d, d[id].parents), d[id], me, [])
    requires forall b: nat :: Get(own, b, 0) == if b == me then d[id].seqNo else 0
    ensures LowestExact(d, at[id := me], la[id := own])
  {
    var at', la' := at[id := me], la[id := own];
    forall x, br: nat | x in at'
      ensures Lowest(d, at', br, x, Get(la'[x], br, 0))
    {
      if x == id {
        OwnVectorExact(d, at, id, me, own, br);
      } else {
        assert Lowest(d, at, br, x, Get(la0[x], br, 0));
        WalkSets(d, at, la0, la, id, me, x, br);
        LowestGrows(d, at, id, me, br, x, Get(la0[x], br, 0));
      }
    }
  }

  // ---------- answering forkless cause from two vectors ----------

  /** Branch `br` adds its creator: its lowest event observing B is not above its highest event observed by A. */
  predicate Counts(ha: seq<BranchSeq>, lb: seq<nat>, br: nat)
  {
    var l, h := Get(lb, br, 0), Get(ha, br, NOTHING);
    l <= h.high && l != 0 && h != FORK_DETECTED
  }

  /** The creators the first `k` branches add. */
  ghost function Counted(bi: BranchesInfo, ha: seq<BranchSeq>, lb: seq<nat>, k: nat): (who: set<nat>)
    requires k <= |bi.creatorOf|
  {
    set br: nat | br < k && Counts(ha, lb, br) :: bi.creatorOf[br]
  }

  lemma CountedNone(bi: BranchesInfo, ha: seq<BranchSeq>, lb: seq<nat>)
    ensures Counted(bi, ha, lb, 0) == {}
  {}

  lemma CountedNext(bi: BranchesInfo, ha: seq<BranchSeq>, lb: seq<nat>, k: nat)
    requires k < |bi.creatorOf|
    ensures Counted(bi, ha, lb, k + 1) == Counted(bi, ha, lb, k) + if Counts(ha, lb, k) then {bi.creatorOf[k]} else {}
  {}

  lemma EventPlaced(d: Dag, n: nat, t: Tables, bi: BranchesInfo, a: EventId)
    requires Sound(d, n, t, bi) && a in t.branchOf
    ensures PlacedAt(d, bi, t.branchOf, a) && Past(d, a) <= t.branchOf.Keys
    ensures VectorsExact(d, n, bi, t.branchOf, t.highestSeq, t.highestTime, a)
  {
    assert PlacedAt(d, bi, t.branchOf, a);
    assert VectorsExact(d, n, bi, t.branchOf, t.highestSeq, t.highestTime, a);
    ClosedHoldsPast(d, t.branchOf.Keys, a);
  }

  /** Within an event's past, its vectors tell whether a creator forked and how high a branch reaches. */
  lemma EntryOfObserved(d: Dag, n: nat, t: Tables, bi: BranchesInfo, a: EventId, x: EventId)
    requires Sound(d, n, t, bi) && a in t.branchOf && x in Past(d, a)
    ensures x in t.branchOf && t.branchOf[x] < |t.highestSeq[a]|
    ensures Get(t.highestSeq[a], t.branchOf[x], NOTHING) == FORK_DETECTED <==> SeesFork(d, a, d[x].creator)
    ensures !SeesFork(d, a, d[x].creator) ==> d[x].seqNo <= Get(t.highestSeq[a], t.branchOf[x], NOTHING).high
  {
    EventPlaced(d, n, t, bi, a);
    assert PlacedAt(d, bi, t.branchOf, x);
    var at, hb, ht := t.branchOf, t.highestSeq[a], t.highestTime[a];
    assert EntryExact(d, bi, at, Past(d, a), at[x], hb, ht);
    assert x in Part(at, Past(d, a), at[x]);
  }

  /** The fork mark on B's branch means A sees B's creator fork. */
  lemma MarkedMeansNo(d: Dag, stakes: seq<nat>, t: Tables, bi: BranchesInfo, a: EventId, b: EventId)
    requires Sound(d, |stakes|, t, bi) && a in t.branchOf && b in t.branchOf
    requires Get(t.highestSeq[a], t.branchOf[b], NOTHING) == FORK_DETECTED
    ensures !ForklessCauses(d, stakes, a, b)
  {
    EventPlaced(d, |stakes|, t, bi, a);
    assert PlacedAt(d, bi, t.branchOf, b);
    assert EntryExact(d, bi, t.branchOf, Past(d, a), t.branchOf[b], t.highestSeq[a], t.highestTime[a]);
  }

  /** A branch counts only for a supporter: the highest event of the branch that A observes observes B. */
  lemma CountsIsSupporter(d: Dag, n: nat, t: Tables, bi: BranchesInfo, a: EventId, b: EventId, br: nat)
    requires Sound(d, n, t, bi) && a in t.branchOf && b in t.branchOf
    requires br < |bi.creatorOf| && Counts(t.highestSeq[a], t.lowestAfter[b], br)
    ensures bi.creatorOf[br] in Supporters(d, a, b)
  {
    EventPlaced(d, n, t, bi, a);
    var at, hb, ht := t.branchOf, t.highestSeq[a], t.highestTime[a];
    assert EntryExact(d, bi, at, Past(d, a), br, hb, ht);
    var x :| x in Part(at, Past(d, a), br) && d[x].seqNo == hb[br].high;
    assert Lowest(d, at, br, b, Get(t.lowestAfter[b], br, 0));
    var y :| y in Observers(d, at, br, b) && d[y].seqNo == Get(t.lowestAfter[b], br, 0);
    BranchIsChain(d, bi, at, x, y, d[y].seqNo);
    PastTransitive(d, x, y);
    assert PlacedAt(d, bi, at, x);
    assert Supports(d, a, b, x);
  }

  /** Every supporter is counted, on the branch of its supporting event. */
  lemma SupporterIsCounted(d: Dag, n: nat, t: Tables, bi: BranchesInfo, a: EventId, b: EventId, x: EventId)
    requires Sound(d, n, t, bi) && a in t.branchOf && b in t.branchOf
    requires x in Past(d, a) && Supports(d, a, b, x)
    ensures d[x].creator in Counted(bi, t.highestSeq[a], t.lowestAfter[b], |bi.creatorOf|)
  {
    EntryOfObserved(d, n, t, bi, a, x);
    var br := t.branchOf[x];
    assert PlacedAt(d, bi, t.branchOf, x);
    assert x in Observers(d, t.branchOf, br, b);
    assert Lowest(d, t.branchOf, br, b, Get(t.lowestAfter[b], br, 0));
    assert Counts(t.highestSeq[a], t.lowestAfter[b], br);
  }

  /** Counting over branches gives exactly the supporters, and decides the relation. */
  lemma CountedAreSupporters(d: Dag, stakes: seq<nat>, t: Tables, bi: BranchesInfo, a: EventId, b: EventId)
    requires Sound(d, |stakes|, t, bi) && a in t.branchOf && b in t.branchOf
    requires !(|bi.creatorOf| > |stakes| && Get(t.highestSeq[a], t.branchOf[b], NOTHING) == FORK_DETECTED)
    ensures StakeOf(stakes, Counted(bi, t.highestSeq[a], t.lowestAfter[b], |bi.creatorOf|)) >= Quorum(stakes)
       <==> ForklessCauses(d, stakes, a, b)
  {
    var counted := Counted(bi, t.highestSeq[a], t.lowestAfter[b], |bi.creatorOf|);
    forall c | c in counted
      ensures c in Supporters(d, a, b)
    {
      var br: nat :| br < |bi.creatorOf| && Counts(t.highestSeq[a], t.lowestAfter[b], br) && bi.creatorOf[br] == c;
      CountsIsSupporter(d, |stakes|, t, bi, a, b, br);
    }
    forall c | c in Supporters(d, a, b)
      ensures c in counted
    {
      var x :| x in Past(d, a) && Supports(d, a, b, x) && d[x].creator == c;
      SupporterIsCounted(d, |stakes|, t, bi, a, b, x);
    }
    assert counted == Supporters(d, a, b);
    UnmarkedMeansUnforked(d, stakes, t, bi, a, b);
  }

  /** An unmarked branch of B means A sees no fork by B's creator, or does not observe B at all. */
  lemma UnmarkedMeansUnforked(d: Dag, stakes: seq<nat>, t: Tables, bi: BranchesInfo, a: EventId, b: EventId)
    requires Sound(d, |stakes|, t, bi) && a in t.branchOf && b in t.branchOf
    requires !(|bi.creatorOf| > |stakes| && Get(t.highestSeq[a], t.branchOf[b], NOTHING) == FORK_DETECTED)
    ensures SeesFork(d, a, d[b].creator) ==> Supporters(d, a, b) == {} && StakeOf(stakes, {}) == 0
  {
    EventPlaced(d, |stakes|, t, bi, a);
    StakeNone(stakes, |stakes|);
    if |bi.creatorOf| == |stakes| {
      NoExtraBranchNoFork(d, |stakes|, bi, t.branchOf, Past(d, a), d[b].creator);
    } else if SeesFork(d, a, d[b].creator) {
      if b in Past(d, a) {
        EntryOfObserved(d, |stakes|, t, bi, a, b);
      }
      forall x | x in Past(d, a)
        ensures b !in Past(d, x)
      {
        PastTransitive(d, a, x);
      }
    }
  }
}
