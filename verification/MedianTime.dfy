/**
 The median time of an event: what each validator contributes, and how the median moves
 along the graph.
 */
module MedianTime {
  import opened Dag
  import opened Stake
  import opened Branches
  import opened HighestBefore
  import opened ForklessCause
  import opened MergedClock
  import opened WeightedMedian

  /** What one validator contributes: nothing if it was seen forking, the genesis time if it was
      not observed, and otherwise the claimed time of its highest observed event. */
  function ReadingOf(stake: nat, r: BranchSeq, t: nat, genesis: nat): (x: Reading)
  {
    if r == FORK_DETECTED then Reading(0, t)
    else if r.high == 0 then Reading(stake, genesis)
    else Reading(stake, t)
  }

  function Readings(stakes: seq<nat>, ms: seq<BranchSeq>, mt: seq<nat>, genesis: nat): (es: seq<Reading>)
    requires |stakes| == |ms| == |mt|
    ensures |es| == |stakes|
    ensures forall c | 0 <= c < |es| :: es[c] == ReadingOf(stakes[c], ms[c], mt[c], genesis)
  {
    seq(|stakes|, c requires 0 <= c < |stakes| => ReadingOf(stakes[c], ms[c], mt[c], genesis))
  }

  /** `m` is the median time of `a`, as a statement about the graph. */
  ghost predicate IsMedianTime(d: Dag, stakes: seq<nat>, a: EventId, genesis: nat, m: nat)
    requires a in d
  {
    exists ms, mt :: MergedExact(d, |stakes|, Past(d, a), ms, mt) && IsMedian(Readings(stakes, ms, mt, genesis), m)
  }

  /** The graph determines it: nodes that indexed the events in different orders agree. */
  lemma MedianTimeUnique(d: Dag, stakes: seq<nat>, a: EventId, genesis: nat, m: nat, m': nat)
    requires a in d && IsMedianTime(d, stakes, a, genesis, m) && IsMedianTime(d, stakes, a, genesis, m')
    ensures m == m'
  {
    var ms, mt :| MergedExact(d, |stakes|, Past(d, a), ms, mt) && IsMedian(Readings(stakes, ms, mt, genesis), m);
    var ms', mt' :| MergedExact(d, |stakes|, Past(d, a), ms', mt') && IsMedian(Readings(stakes, ms', mt', genesis), m');
    MergedUnique(d, |stakes|, Past(d, a), ms, mt, ms', mt');
    MedianUnique(Readings(stakes, ms, mt, genesis), m, m');
  }

  /** A creator's reading is no later at an ancestor. */
  lemma ReadingMonotone(d: Dag, a: EventId, p: EventId, c: nat, stake: nat, genesis: nat,
                        r: BranchSeq, t: nat, r': BranchSeq, t': nat)
    requires a in d && p in Past(d, a)
    requires !SeesFork(d, a, c)
    requires forall x | x in Past(d, a) :: d[x].claimedTime >= genesis
    requires CreatorRange(d, Past(d, p), c, r, t) && CreatorRange(d, Past(d, a), c, r', t')
    ensures r != FORK_DETECTED && r' != FORK_DETECTED
    ensures ReadingOf(stake, r, t, genesis).time <= ReadingOf(stake, r', t', genesis).time
  {
    PastTransitive(d, a, p);
    PastClosed(d, a);
    assert !ForkIn(d, Past(d, p), c);
    var mine, his := ByCreator(d, Past(d, p), c), ByCreator(d, Past(d, a), c);
    if r.high != 0 {
      var x :| x in mine && d[x].seqNo == r.high && d[x].claimedTime == t;
      assert x in his;
      var x' :| x' in his && d[x'].seqNo == r'.high && d[x'].claimedTime == t';
      NoForkChain(d, Past(d, a), x', x);
      ChainTimes(d, x', d[x].seqNo);
    } else if r'.high != 0 {
      var x' :| x' in his && d[x'].seqNo == r'.high && d[x'].claimedTime == t';
    }
  }

  /** If an event observes no fork and nothing claims a time before the genesis, its median time is
      not before that of any ancestor. */
  lemma MedianTimeMonotone(d: Dag, stakes: seq<nat>, a: EventId, p: EventId, genesis: nat, ma: nat, mp: nat)
    requires a in d && p in Past(d, a)
    requires forall c: nat | c < |stakes| :: !SeesFork(d, a, c)
    requires forall x | x in Past(d, a) :: d[x].claimedTime >= genesis
    requires IsMedianTime(d, stakes, a, genesis, ma) && IsMedianTime(d, stakes, p, genesis, mp)
    ensures mp <= ma
  {
    var ms, mt :| MergedExact(d, |stakes|, Past(d, p), ms, mt) && IsMedian(Readings(stakes, ms, mt, genesis), mp);
    var ms', mt' :| MergedExact(d, |stakes|, Past(d, a), ms', mt') && IsMedian(Readings(stakes, ms', mt', genesis), ma);
    var es, es' := Readings(stakes, ms, mt, genesis), Readings(stakes, ms', mt', genesis);
    forall c | 0 <= c < |stakes|
      ensures es[c].stake == es'[c].stake && es[c].time <= es'[c].time
    {
      assert CreatorRange(d, Past(d, p), c, ms[c], mt[c]) && CreatorRange(d, Past(d, a), c, ms'[c], mt'[c]);
      ReadingMonotone(d, a, p, c, stakes[c], genesis, ms[c], mt[c], ms'[c], mt'[c]);
    }
    MedianMonotone(es, es', mp, ma);
  }

  // ---------- the median in terms of the graph ----------

  /** The time `a` has from creator `c`: the claim of its highest observed event, or the genesis time if
      none was observed. Creators seen forking have no stake, and their time is 0. */
  ghost predicate TimeFrom(d: Dag, a: EventId, c: nat, genesis: nat, t: nat)
    requires a in d
  {
    if SeesFork(d, a, c) then t == 0
    else if forall x | x in Past(d, a) :: d[x].creator != c then t == genesis
    else
      exists x | x in Past(d, a) :: d[x].creator == c && d[x].claimedTime == t
        && forall y | y in Past(d, a) && d[y].creator == c :: d[y].seqNo <= d[x].seqNo
  }

  /** The validators not seen forking. */
  ghost function Honest(d: Dag, n: nat, a: EventId): (who: set<nat>)
    requires a in d
  {
    set c: nat | c < n && !SeesFork(d, a, c)
  }

  ghost predicate FromBy(d: Dag, a: EventId, c: nat, genesis: nat, t: nat)
    requires a in d
  {
    exists s: nat :: s <= t && TimeFrom(d, a, c, genesis, s)
  }

  /** Those of them whose time is not after `t`. */
  ghost function HonestBy(d: Dag, n: nat, a: EventId, genesis: nat, t: nat): (who: set<nat>)
    requires a in d
  {
    set c | c in Honest(d, n, a) && FromBy(d, a, c, genesis, t)
  }

  ghost predicate FromOutside(d: Dag, a: EventId, c: nat, genesis: nat, lo: nat, hi: nat)
    requires a in d
  {
    exists s: nat :: !(lo <= s <= hi) && TimeFrom(d, a, c, genesis, s)
  }

  ghost function HonestOutside(d: Dag, n: nat, a: EventId, genesis: nat, lo: nat, hi: nat): (who: set<nat>)
    requires a in d
  {
    set c | c in Honest(d, n, a) && FromOutside(d, a, c, genesis, lo, hi)
  }

  /** The time is unique. */
  lemma TimeFromUnique(d: Dag, a: EventId, c: nat, genesis: nat, s: nat, t: nat)
    requires a in d && TimeFrom(d, a, c, genesis, s) && TimeFrom(d, a, c, genesis, t)
    ensures s == t
  {
    hide Past;
    if !SeesFork(d, a, c) && exists x | x in Past(d, a) :: d[x].creator == c {
      var x :| x in Past(d, a) && d[x].creator == c && d[x].claimedTime == s
        && forall z | z in Past(d, a) && d[z].creator == c :: d[z].seqNo <= d[x].seqNo;
      var y :| y in Past(d, a) && d[y].creator == c && d[y].claimedTime == t
        && forall z | z in Past(d, a) && d[z].creator == c :: d[z].seqNo <= d[y].seqNo;
      SameNumberSame(d, a, c, x, y);
    }
  }

  /** A creator's reading carries its time, and its stake unless it was seen forking. */
  lemma ReadingIs(d: Dag, a: EventId, c: nat, stake: nat, genesis: nat, r: BranchSeq, t: nat)
    requires a in d && CreatorRange(d, Past(d, a), c, r, t)
    ensures var e := ReadingOf(stake, r, t, genesis);
            e.stake == (if SeesFork(d, a, c) then 0 else stake) && TimeFrom(d, a, c, genesis, e.time)
  {
    hide Past;
    hide ForkIn;
    var mine := ByCreator(d, Past(d, a), c);
    if !SeesFork(d, a, c) {
      HighIsNumber(d, mine, r, t);
      assert forall x | x in Past(d, a) && d[x].creator == c :: x in mine;
      if r.high != 0 {
        var x :| x in mine && d[x].seqNo == r.high && d[x].claimedTime == t;
        assert forall y | y in Past(d, a) && d[y].creator == c :: d[y].seqNo <= d[x].seqNo;
      }
    }
  }

  lemma HighIsNumber(d: Dag, ids: set<EventId>, r: BranchSeq, t: nat)
    requires ids <= d.Keys && RangeOf(d, ids, r, t)
    ensures r != FORK_DETECTED
  {}

  lemma SameNumberSame(d: Dag, a: EventId, c: nat, x: EventId, y: EventId)
    requires a in d && !SeesFork(d, a, c) && x in Past(d, a) && y in Past(d, a)
    requires d[x].creator == c && d[y].creator == c && d[x].seqNo == d[y].seqNo
    ensures x == y
  {
    assert x != y ==> ForkPair(d, x, y);
  }

  ghost predicate ReadingsFit(d: Dag, stakes: seq<nat>, a: EventId, genesis: nat, es: seq<Reading>)
    requires a in d
  {
    && |es| == |stakes|
    && forall c: nat {:trigger es[c]} | c < |es| ::
         && es[c].stake == (if SeesFork(d, a, c) then 0 else stakes[c])
         && TimeFrom(d, a, c, genesis, es[c].time)
  }

  lemma ReadingsDoFit(d: Dag, stakes: seq<nat>, a: EventId, genesis: nat, ms: seq<BranchSeq>, mt: seq<nat>)
    requires a in d && MergedExact(d, |stakes|, Past(d, a), ms, mt)
    ensures ReadingsFit(d, stakes, a, genesis, Readings(stakes, ms, mt, genesis))
  {
    hide TimeFrom;
    hide SeesFork;
    hide CreatorRange;
    hide ReadingOf;
    forall c: nat | c < |stakes|
      ensures var e := Readings(stakes, ms, mt, genesis)[c];
              e.stake == (if SeesFork(d, a, c) then 0 else stakes[c]) && TimeFrom(d, a, c, genesis, e.time)
    {
      assert CreatorRange(d, Past(d, a), c, ms[c], mt[c]);
      ReadingIs(d, a, c, stakes[c], genesis, ms[c], mt[c]);
    }
  }

  /** Sums over readings are stakes of validators. */
  lemma {:induction false} SumsAreStakes(d: Dag, stakes: seq<nat>, a: EventId, genesis: nat, es: seq<Reading>, k: nat,
                                         t: nat, lo: nat, hi: nat)
    requires a in d && ReadingsFit(d, stakes, a, genesis, es) && k <= |es|
    ensures StakeSum(es[..k]) == StakeUpTo(stakes, Honest(d, |stakes|, a), k)
    ensures StakeBy(es[..k], t) == StakeUpTo(stakes, HonestBy(d, |stakes|, a, genesis, t), k)
    ensures StakeOutside(es[..k], lo, hi) == StakeUpTo(stakes, HonestOutside(d, |stakes|, a, genesis, lo, hi), k)
  {
    hide TimeFrom;
    hide SeesFork;
    if k > 0 {
      SumsAreStakes(d, stakes, a, genesis, es, k - 1, t, lo, hi);
      assert es[..k][..k - 1] == es[..k - 1];
      var e := es[k - 1];
      OnlyTime(d, a, k - 1, genesis, e.time);
      assert FromBy(d, a, k - 1, genesis, t) <==> e.time <= t;
      assert FromOutside(d, a, k - 1, genesis, lo, hi) <==> !(lo <= e.time <= hi);
    }
  }

  lemma OnlyTime(d: Dag, a: EventId, c: nat, genesis: nat, t: nat)
    requires a in d && TimeFrom(d, a, c, genesis, t)
    ensures forall s: nat :: TimeFrom(d, a, c, genesis, s) ==> s == t
  {
    hide TimeFrom;
    forall s: nat | TimeFrom(d, a, c, genesis, s)
      ensures s == t
    {
      TimeFromUnique(d, a, c, genesis, s, t);
    }
  }

  lemma AllSums(d: Dag, stakes: seq<nat>, a: EventId, genesis: nat, es: seq<Reading>, t: nat, lo: nat, hi: nat)
    requires a in d && ReadingsFit(d, stakes, a, genesis, es)
    ensures StakeSum(es) == StakeOf(stakes, Honest(d, |stakes|, a))
    ensures StakeBy(es, t) == StakeOf(stakes, HonestBy(d, |stakes|, a, genesis, t))
    ensures StakeOutside(es, lo, hi) == StakeOf(stakes, HonestOutside(d, |stakes|, a, genesis, lo, hi))
  {
    hide TimeFrom;
    hide SeesFork;
    hide Honest;
    hide HonestBy;
    hide HonestOutside;
    SumsAreStakes(d, stakes, a, genesis, es, |es|, t, lo, hi);
    assert es[..|es|] == es;
  }

  /**
   What the median time is, in terms of events and stakes only: the earliest time that some validator
   has and by which half of the stake not seen forking is reached.
   */
  lemma MedianTimeIff(d: Dag, stakes: seq<nat>, a: EventId, genesis: nat, m: nat)
    requires a in d && |stakes| > 0
    ensures var half := StakeOf(stakes, Honest(d, |stakes|, a)) / 2;
            IsMedianTime(d, stakes, a, genesis, m) <==>
            && (exists c: nat | c < |stakes| :: TimeFrom(d, a, c, genesis, m))
            && StakeOf(stakes, HonestBy(d, |stakes|, a, genesis, m)) >= half
            && forall c: nat, t: nat {:trigger TimeFrom(d, a, c, genesis, t)} |
                 c < |stakes| && TimeFrom(d, a, c, genesis, t) && t < m ::
                 StakeOf(stakes, HonestBy(d, |stakes|, a, genesis, t)) < half
  {
    hide TimeFrom;
    hide MergedExact;
    hide StakeOf;
    hide HonestBy;
    hide Honest;
    hide ReadingOf;
    var ms, mt := MergedExists(d, |stakes|, Past(d, a));
    MergedLengths(d, |stakes|, Past(d, a), ms, mt);
    var es := Readings(stakes, ms, mt, genesis);
    ReadingsDoFit(d, stakes, a, genesis, ms, mt);
    forall t: nat
      ensures StakeSum(es) == StakeOf(stakes, Honest(d, |stakes|, a))
      ensures StakeBy(es, t) == StakeOf(stakes, HonestBy(d, |stakes|, a, genesis, t))
    {
      AllSums(d, stakes, a, genesis, es, t, 0, 0);
    }
    MedianTimeOf(d, stakes, a, genesis, m, ms, mt);
    MedianOfFit(d, stakes, a, genesis, es, m);
  }

  lemma MedianOfFit(d: Dag, stakes: seq<nat>, a: EventId, genesis: nat, es: seq<Reading>, m: nat)
    requires a in d && |stakes| > 0 && ReadingsFit(d, stakes, a, genesis, es)
    requires forall t: nat :: StakeBy(es, t) == StakeOf(stakes, HonestBy(d, |stakes|, a, genesis, t))
    ensures IsMedian(es, m) <==>
            && (exists c: nat | c < |stakes| :: TimeFrom(d, a, c, genesis, m))
            && StakeOf(stakes, HonestBy(d, |stakes|, a, genesis, m)) >= StakeSum(es) / 2
            && forall c: nat, t: nat {:trigger TimeFrom(d, a, c, genesis, t)} |
                 c < |stakes| && TimeFrom(d, a, c, genesis, t) && t < m ::
                 StakeOf(stakes, HonestBy(d, |stakes|, a, genesis, t)) < StakeSum(es) / 2
  {
    hide TimeFrom;
    hide StakeOf;
    hide HonestBy;
    hide SeesFork;
    forall c: nat, t: nat | c < |stakes|
      ensures TimeFrom(d, a, c, genesis, t) <==> es[c].time == t
    {
      OnlyTime(d, a, c, genesis, es[c].time);
    }
    assert forall i :: 0 <= i < |es| ==> TimeFrom(d, a, i, genesis, es[i].time);
  }

  lemma MedianTimeOf(d: Dag, stakes: seq<nat>, a: EventId, genesis: nat, m: nat, ms: seq<BranchSeq>, mt: seq<nat>)
    requires a in d && MergedExact(d, |stakes|, Past(d, a), ms, mt)
    ensures IsMedianTime(d, stakes, a, genesis, m) <==> IsMedian(Readings(stakes, ms, mt, genesis), m)
  {
    hide CreatorRange;
    hide IsMedian;
    hide Past;
    if IsMedianTime(d, stakes, a, genesis, m) {
      var ms', mt' :|
        MergedExact(d, |stakes|, Past(d, a), ms', mt') && IsMedian(Readings(stakes, ms', mt', genesis), m);
      MergedUnique(d, |stakes|, Past(d, a), ms, mt, ms', mt');
    }
  }

  /**
   The median time cannot be moved far: if less than half of the stake not seen forking has times outside
   a window, counting validators not yet observed at the genesis time, it lies in the window.
   */
  lemma MedianTimeWithin(d: Dag, stakes: seq<nat>, a: EventId, genesis: nat, m: nat, lo: nat, hi: nat)
    requires a in d && IsMedianTime(d, stakes, a, genesis, m)
    requires StakeOf(stakes, HonestOutside(d, |stakes|, a, genesis, lo, hi))
             < StakeOf(stakes, Honest(d, |stakes|, a)) / 2
    ensures lo <= m <= hi
  {
    hide TimeFrom;
    hide CreatorRange;
    hide StakeOf;
    hide HonestOutside;
    hide Honest;
    hide ReadingOf;
    var ms, mt :| MergedExact(d, |stakes|, Past(d, a), ms, mt) && IsMedian(Readings(stakes, ms, mt, genesis), m);
    var es := Readings(stakes, ms, mt, genesis);
    ReadingsDoFit(d, stakes, a, genesis, ms, mt);
    AllSums(d, stakes, a, genesis, es, 0, lo, hi);
    MedianWithin(es, m, lo, hi);
  }

  /** In particular if all claims are in the window, and the genesis time. */
  lemma MedianTimeAmongClaims(d: Dag, stakes: seq<nat>, a: EventId, genesis: nat, m: nat, lo: nat, hi: nat)
    requires a in d && IsMedianTime(d, stakes, a, genesis, m) && lo <= genesis <= hi
    requires forall x | x in Past(d, a) :: lo <= d[x].claimedTime <= hi
    requires StakeOf(stakes, Honest(d, |stakes|, a)) >= 2
    ensures lo <= m <= hi
  {
    hide IsMedianTime;
    assert HonestOutside(d, |stakes|, a, genesis, lo, hi) == {};
    StakeNone(stakes, |stakes|);
    MedianTimeWithin(d, stakes, a, genesis, m, lo, hi);
  }
}
