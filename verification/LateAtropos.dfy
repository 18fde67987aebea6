/**
 A graph without forks in which the Atropos of frame 1 observes the Atropos of frame 2. Of four
 validators with equal stakes, one starts late: its first event, a root of frame 1, is built on a
 root of frame 2.
 */
module LateAtropos {
  import opened Common
  import opened Dag
  import opened Stake
  import opened ForklessCause
  import opened Frames
  import opened Votes
  import opened Atropos
  import opened Branches
  import opened HighestBefore
  import opened MergedClock
  import opened WeightedMedian
  import opened MedianTime
  import opened EventRules
  import opened Confirmation
  import opened ConsensusTime

  // ---------- graphs in which every event observes all earlier ones ----------

  /** Every event links to the one before it. */
  ghost predicate Line(d: Dag, n: nat)
  {
    && (forall k: nat :: k in d <==> k < n)
    && (forall k: nat {:trigger d[k]} | 0 < k < n :: k - 1 in d[k].parents)
    && (forall k: nat, p {:trigger p in d[k].parents} | k < n && p in d[k].parents :: p < k)
  }

  lemma {:induction false} LinePast(d: Dag, n: nat, k: nat)
    requires Line(d, n) && k < n
    ensures Past(d, k) == Indices(k + 1)
  {
    hide WellFormed;
    hide Past;
    PastUnfold(d, k);
    forall p: nat | p < k
      ensures Past(d, p) == Indices(p + 1)
    {
      LinePast(d, n, p);
    }
    if k > 0 {
      assert k - 1 in d[k].parents;
      assert Past(d, k - 1) <= PastOf(d, d[k].parents);
    }
  }

  ghost predicate NoForks(d: Dag)
  {
    forall x, y | x in d && y in d :: !ForkPair(d, x, y)
  }

  const EQUAL: seq<nat> := [1, 1, 1, 1]

  /** Three of four equal validators are a quorum. */
  lemma ThreeAreQuorum(who: set<nat>, u: nat, v: nat, w: nat)
    requires u < 4 && v < 4 && w < 4 && u != v && v != w && u != w && u in who && v in who && w in who
    ensures StakeOf(EQUAL, who) >= Quorum(EQUAL)
  {
    EqualStake(who);
    EqualStake(Everyone(EQUAL));
  }

  lemma EqualStake(who: set<nat>)
    ensures StakeOf(EQUAL, who) == (if 0 in who then 1 else 0) + (if 1 in who then 1 else 0)
                                   + (if 2 in who then 1 else 0) + if 3 in who then 1 else 0
  {
    assert StakeUpTo(EQUAL, who, 1) == if 0 in who then 1 else 0;
    assert StakeUpTo(EQUAL, who, 2) == StakeUpTo(EQUAL, who, 1) + if 1 in who then 1 else 0;
    assert StakeUpTo(EQUAL, who, 3) == StakeUpTo(EQUAL, who, 2) + if 2 in who then 1 else 0;
  }

  /** Three different creators from `b` up to `a` make `b` forkless-cause `a`. */
  lemma CausedOnLine(d: Dag, n: nat, a: EventId, b: EventId, x: EventId, y: EventId, z: EventId)
    requires Line(d, n) && NoForks(d) && b <= x <= a < n && b <= y <= a && b <= z <= a
    requires d[x].creator < 4 && d[y].creator < 4 && d[z].creator < 4
    requires d[x].creator != d[y].creator && d[y].creator != d[z].creator && d[x].creator != d[z].creator
    ensures ForklessCauses(d, EQUAL, a, b) && b in Past(d, a)
  {
    hide StakeOf;
    hide WellFormed;
    hide Past;
    LinePast(d, n, a);
    forall e | e == x || e == y || e == z
      ensures d[e].creator in Supporters(d, a, b)
    {
      LinePast(d, n, e);
      assert Supports(d, a, b, e);
    }
    ThreeAreQuorum(Supporters(d, a, b), d[x].creator, d[y].creator, d[z].creator);
  }

  // ---------- the graph ----------

  const SIZE: nat := 15

  function Creator(k: nat): (c: nat)
    ensures c < 4
  {
    if k == 5 then 0
    else if k == 0 || k == 4 || k == 6 || k == 10 || k == 14 then 1
    else if k == 2 || k == 8 || k == 12 then 3
    else 2
  }

  function Number(k: nat): (s: nat)
  {
    match k
    case 3 => 2 case 4 => 2 case 6 => 3 case 7 => 3 case 8 => 2 case 9 => 4
    case 10 => 4 case 11 => 5 case 12 => 3 case 13 => 6 case 14 => 5
    case _ => 1
  }

  /** The previous event of the same creator. */
  function Own(k: nat): (p: Option<nat>)
  {
    match k
    case 3 => Some(1) case 4 => Some(0) case 6 => Some(4) case 7 => Some(3) case 8 => Some(2) case 9 => Some(7)
    case 10 => Some(6) case 11 => Some(9) case 12 => Some(8) case 13 => Some(11) case 14 => Some(10)
    case _ => None
  }

  function Frame(k: nat): (f: nat)
  {
    if k == 14 then 4 else if k >= 10 then 3 else if k == 4 || k >= 6 then 2 else 1
  }

  predicate IsRoot(k: nat)
  {
    k != 3 && k != 6 && k != 9 && k != 13
  }

  function Median(k: nat): (m: nat)
  {
    match k
    case 0 => 0 case 1 => 0 case 2 => 1 case 3 => 1 case 4 => 3 case 5 => 4 case 6 => 4 case 7 => 6 case 8 => 7
    case 9 => 7 case 10 => 9 case 11 => 9 case 12 => 11 case 13 => 11 case _ => 13
  }

  function Parents(k: nat): (ps: seq<EventId>)
  {
    if k == 0 then []
    else match Own(k)
      case Some(p) => [p, k - 1]
      case None => [k - 1]
  }

  function Node(k: nat): (e: Event)
  {
    Event(Creator(k), Number(k), k + 1, k + 1, Parents(k), Frame(k), IsRoot(k), Median(k), 0)
  }

  function LateGraph(): (d: map<EventId, Event>)
  {
    map k: nat | k < SIZE :: Node(k)
  }

  lemma Places(k: nat)
    requires k < SIZE
    ensures k > 0 ==> Creator(k - 1) != Creator(k)
    ensures Own(k).Some? ==>
              var p := Own(k).value;
              p < k - 1 && Creator(p) == Creator(k) && Number(k) == Number(p) + 1
              && Frame(k) == Frame(p) + if IsRoot(k) then 1 else 0
    ensures Own(k).None? ==> Number(k) == 1 && Frame(k) == 1 && IsRoot(k)
    ensures (Own(k).Some? <==> Number(k) > 1) && Frame(k) >= 1
  {}

  lemma LateGraphIsWellFormed()
    ensures WellFormed(LateGraph())
  {
    hide Node;
    var d := LateGraph();
    forall id | id in d
      ensures WellFormedEvent(d, d[id])
    {
      NodeIsWellFormed(d, id);
    }
  }

  lemma NodeIsWellFormed(d: map<EventId, Event>, k: nat)
    requires k < SIZE && d == LateGraph()
    ensures WellFormedEvent(d, Node(k))
  {
    hide Creator;
    hide Number;
    hide Own;
    hide Frame;
    hide Median;
    hide IsRoot;
    Places(k);
    forall p | p in Parents(k)
      ensures p < k && p in d && d[p] == Node(p)
    {}
  }

  /** Later events of a creator have higher numbers. */
  lemma NumbersRise(x: nat, y: nat)
    requires x < y < SIZE && Creator(x) == Creator(y)
    ensures Number(x) < Number(y)
  {}

  ghost predicate IsLate(d: Dag)
  {
    Line(d, SIZE) && NoForks(d) && forall k: nat {:trigger d[k]} | k < SIZE :: d[k] == Node(k)
  }

  lemma LateGraphIsLate() returns (d: Dag)
    ensures d == LateGraph() && IsLate(d)
  {
    LateGraphIsWellFormed();
    d := LateGraph();
    hide Creator;
    hide Number;
    hide Own;
    hide WellFormed;
    forall k: nat, p | k < SIZE && p in Parents(k)
      ensures p < k
    {
      Places(k);
    }
    forall x, y | x in d && y in d
      ensures !ForkPair(d, x, y)
    {
      if x != y && Creator(x) == Creator(y) {
        NumbersRise(if x < y then x else y, if x < y then y else x);
      }
    }
    forall k: nat | 0 < k < SIZE
      ensures k - 1 in Parents(k)
    {
      var ps := Parents(k);
      assert ps[|ps| - 1] == k - 1;
    }
  }

  /** What frames and votes need of an event. */
  lemma At(d: Dag, k: nat)
    requires IsLate(d) && k < SIZE
    ensures k in d && d[k].creator == Creator(k) && d[k].frame == Frame(k) && d[k].isRoot == IsRoot(k)
  {
    assert d[k] == Node(k);
  }

  // ---------- frames ----------

  /** Three roots of a frame by different creators, each with three different creators above it. */
  lemma QuorumOnLine(d: Dag, a: EventId, f: nat, x: EventId, y: EventId, z: EventId)
    requires a in d && x in VisibleRoots(d, EQUAL, a, f) && y in VisibleRoots(d, EQUAL, a, f)
    requires z in VisibleRoots(d, EQUAL, a, f)
    requires d[x].creator < 4 && d[y].creator < 4 && d[z].creator < 4
    requires d[x].creator != d[y].creator && d[y].creator != d[z].creator && d[x].creator != d[z].creator
    ensures QuorumOn(d, EQUAL, a, f)
  {
    hide StakeOf;
    hide VisibleRoots;
    ThreeAreQuorum(Creators(d, VisibleRoots(d, EQUAL, a, f)), d[x].creator, d[y].creator, d[z].creator);
  }

  /** A root and three events above it, by different creators, of which `a` is the last. */
  lemma RootVisible(d: Dag, a: nat, r: nat, x: nat, y: nat, z: nat)
    requires IsLate(d) && r <= x <= a < SIZE && r <= y <= a && r <= z <= a && IsRoot(r)
    requires Creator(x) != Creator(y) && Creator(y) != Creator(z) && Creator(x) != Creator(z)
    ensures a in d && r in VisibleRoots(d, EQUAL, a, Frame(r)) && r in d && d[r].creator == Creator(r)
  {
    hide ForklessCauses;
    hide Creator;
    hide Past;
    hide WellFormed;
    hide Node;
    At(d, x);
    At(d, y);
    At(d, z);
    At(d, r);
    CausedOnLine(d, SIZE, a, r, x, y, z);
  }

  lemma SecondFrame(d: Dag, a: nat)
    requires IsLate(d) && 4 <= a < SIZE
    ensures a in d && {0, 1, 2} <= VisibleRoots(d, EQUAL, a, 1) && QuorumOn(d, EQUAL, a, 1)
  {
    hide IsLate;
    hide VisibleRoots;
    hide QuorumOn;
    RootVisible(d, a, 0, 0, 1, 2);
    RootVisible(d, a, 1, 1, 2, 4);
    RootVisible(d, a, 2, 2, 3, 4);
    QuorumOnLine(d, a, 1, 0, 1, 2);
  }

  lemma ThirdFrame(d: Dag, a: nat)
    requires IsLate(d) && 10 <= a < SIZE
    ensures a in d && {4, 7, 8} <= VisibleRoots(d, EQUAL, a, 2) && QuorumOn(d, EQUAL, a, 2)
  {
    hide IsLate;
    hide VisibleRoots;
    hide QuorumOn;
    RootVisible(d, a, 4, 4, 7, 8);
    RootVisible(d, a, 7, 7, 8, 10);
    RootVisible(d, a, 8, 8, 9, 10);
    QuorumOnLine(d, a, 2, 4, 7, 8);
  }

  lemma FourthFrame(d: Dag)
    requires IsLate(d)
    ensures 14 in d && {10, 11, 12} <= VisibleRoots(d, EQUAL, 14, 3) && QuorumOn(d, EQUAL, 14, 3)
  {
    hide IsLate;
    hide VisibleRoots;
    hide QuorumOn;
    RootVisible(d, 14, 10, 10, 11, 12);
    RootVisible(d, 14, 11, 11, 12, 14);
    RootVisible(d, 14, 12, 12, 13, 14);
    QuorumOnLine(d, 14, 3, 10, 11, 12);
  }

  /** Every root above the first frame has its quorum. */
  lemma RootsHaveQuorums(d: Dag, k: nat)
    requires IsLate(d) && k < SIZE && IsRoot(k) && Frame(k) > 1
    ensures k in d && QuorumOn(d, EQUAL, k, Frame(k) - 1)
  {
    hide IsLate;
    hide VisibleRoots;
    hide QuorumOn;
    if Frame(k) == 2 {
      SecondFrame(d, k);
    } else if Frame(k) == 3 {
      ThirdFrame(d, k);
    } else {
      FourthFrame(d);
    }
  }

  // ---------- votes ----------

  /** Whoever decides is root 14, whose electors are the roots of frame 3. */
  lemma DecidedByLast(d: Dag, f: nat, v: nat, yes: bool)
    requires IsLate(d) && 1 <= f <= 2
    requires forall r: nat | 10 <= r <= 12 :: r in d && VotesYes(d, EQUAL, f, r, v) == yes
    ensures 14 in d && Decides(d, EQUAL, f, 14, v, yes)
  {
    hide VisibleRoots;
    hide StakeOf;
    hide VotesYes;
    hide WellFormed;
    hide IsLate;
    FourthFrame(d);
    At(d, 10);
    At(d, 11);
    At(d, 12);
    At(d, 14);
    var who := Voters(d, EQUAL, f, 14, v, yes);
    assert 10 in Electors(d, EQUAL, 14) && 11 in Electors(d, EQUAL, 14) && 12 in Electors(d, EQUAL, 14);
    assert d[10].creator in who && d[11].creator in who && d[12].creator in who;
    ThreeAreQuorum(who, 1, 2, 3);
  }

  /** In frame 1 only root 4 did not see the late validator's root: the majority votes for it. */
  lemma LateRootWins(d: Dag, r: nat)
    requires IsLate(d) && 10 <= r <= 12
    ensures r in d && VotesYes(d, EQUAL, 1, r, 0)
  {
    hide VisibleRoots;
    hide StakeOf;
    hide VotesYes;
    hide WellFormed;
    hide IsLate;
    ThirdFrame(d, r);
    FirstVotes(d, 7);
    FirstVotes(d, 8);
    At(d, r);
    At(d, 7);
    At(d, 8);
    var yes, no := Voters(d, EQUAL, 1, r, 0, true), Voters(d, EQUAL, 1, r, 0, false);
    assert d[7].creator in yes && d[8].creator in yes;
    forall x | x in Electors(d, EQUAL, r) && !VotesYes(d, EQUAL, 1, x, 0)
      ensures d[x].creator == 1
    {
      OnlyThree(d, x);
    }
    EqualStake(yes);
    EqualStake(no);
    VotesYesUnfold(d, EQUAL, 1, r, 0);
  }

  lemma OnlyThree(d: Dag, x: nat)
    requires IsLate(d) && x in d && d[x].isRoot && d[x].frame == 2
    ensures (x == 4 && d[x].creator == 1) || (x == 7 && d[x].creator == 2) || (x == 8 && d[x].creator == 3)
  {
    At(d, x);
  }

  lemma FirstVotes(d: Dag, r: nat)
    requires IsLate(d) && 7 <= r <= 8
    ensures r in d && VotesYes(d, EQUAL, 1, r, 0) && 5 in VisibleRoots(d, EQUAL, r, 1) && d[5].creator == 0
  {
    hide VisibleRoots;
    hide WellFormed;
    hide IsLate;
    At(d, r);
    RootVisible(d, r, 5, 5, 6, 7);
    assert d[5].creator in Creators(d, VisibleRoots(d, EQUAL, r, 1));
  }

  /** In frame 2 there is no root of the late validator, and everyone sees root 4. */
  lemma SecondVotes(d: Dag, r: nat)
    requires IsLate(d) && 10 <= r <= 12
    ensures r in d && !VotesYes(d, EQUAL, 2, r, 0) && VotesYes(d, EQUAL, 2, r, 1)
    ensures 4 in VisibleRoots(d, EQUAL, r, 2) && d[4].creator == 1
  {
    hide VisibleRoots;
    hide WellFormed;
    hide IsLate;
    ThirdFrame(d, r);
    At(d, r);
    At(d, 4);
    forall x | x in VisibleRoots(d, EQUAL, r, 2)
      ensures d[x].creator != 0
    {
      OnlyThree(d, x);
    }
    assert d[4].creator in Creators(d, VisibleRoots(d, EQUAL, r, 2));
  }

  lemma BothElected(d: Dag, ids: set<EventId>)
    requires IsLate(d) && ids == d.Keys
    ensures Elected(d, EQUAL, ids, 1, 5) && Elected(d, EQUAL, ids, 2, 4)
  {
    hide VisibleRoots;
    hide VotesYes;
    hide Decides;
    hide WellFormed;
    hide IsLate;
    forall r: nat | 10 <= r <= 12
      ensures r in d && VotesYes(d, EQUAL, 1, r, 0) && !VotesYes(d, EQUAL, 2, r, 0) && VotesYes(d, EQUAL, 2, r, 1)
    {
      LateRootWins(d, r);
      SecondVotes(d, r);
    }
    DecidedByLast(d, 1, 0, true);
    DecidedByLast(d, 2, 0, false);
    DecidedByLast(d, 2, 1, true);
    At(d, 14);
    FirstVotes(d, 7);
    SecondVotes(d, 10);
    assert Candidate(d, EQUAL, ids, 1, 0, 5) && Candidate(d, EQUAL, ids, 2, 1, 4);
    assert ElectedAt(d, EQUAL, ids, 1, 0, 5) && ElectedAt(d, EQUAL, ids, 2, 1, 4);
  }

  // ---------- median times ----------

  /** The last event of a creator up to `k`. */
  function Last(k: nat, c: nat): (x: Option<nat>)
    ensures x.Some? ==> x.value <= k && Creator(x.value) == c
  {
    if Creator(k) == c then Some(k) else if k == 0 then None else Last(k - 1, c)
  }

  lemma {:induction false} LastIsLast(k: nat, c: nat, y: nat)
    requires y <= k && Creator(y) == c
    ensures Last(k, c).Some? && y <= Last(k, c).value
  {
    hide Creator;
    if Creator(k) != c {
      LastIsLast(k - 1, c, y);
    }
  }

  function TimeAt(k: nat, c: nat): (t: nat)
  {
    match Last(k, c)
    case Some(x) => x + 1
    case None => 0
  }

  function First(c: nat): (x: nat)
  {
    if c == 0 then 5 else c - 1
  }

  lemma Firsts(x: nat)
    requires x < SIZE
    ensures First(Creator(x)) <= x && Number(First(Creator(x))) == 1 && Creator(First(Creator(x))) == Creator(x)
    ensures Number(x) >= 1
  {}

  function RangeAt(k: nat, c: nat): (r: BranchSeq)
  {
    match Last(k, c)
    case Some(x) => BranchSeq(Number(x), 1)
    case None => BranchSeq(0, 0)
  }

  /** The events of one creator among the first ones. */
  lemma Mine(d: Dag, k: nat, c: nat, y: EventId)
    requires IsLate(d) && k < SIZE
    ensures k in d && (y in ByCreator(d, Past(d, k), c) <==> y <= k && Creator(y) == c)
    ensures y <= k ==> y in d && d[y].seqNo == Number(y) && d[y].claimedTime == y + 1
  {
    hide WellFormed;
    hide Past;
    hide Creator;
    hide Number;
    LinePast(d, SIZE, k);
    if y <= k {
      assert d[y] == Node(y);
    }
  }

  lemma NoForkSeen(d: Dag, k: nat, c: nat)
    requires IsLate(d) && k < SIZE
    ensures k in d && !SeesFork(d, k, c)
  {
    hide WellFormed;
    hide Node;
  }

  /** The numbers of a creator's events run from 1 to that of the last. */
  lemma NumbersUpTo(k: nat, c: nat, y: nat)
    requires y <= k < SIZE && Creator(y) == c
    ensures Last(k, c).Some? && 1 <= Number(y) <= Number(Last(k, c).value)
  {
    hide Creator;
    hide Number;
    hide Last;
    LastIsLast(k, c, y);
    Firsts(y);
    LastIs(k, c);
    if y < Last(k, c).value {
      NumbersRise(y, Last(k, c).value);
    }
  }

  lemma LastIs(k: nat, c: nat)
    ensures Last(k, c).Some? ==> Last(k, c).value <= k && Creator(Last(k, c).value) == c
  {}

  lemma RangeIs(d: Dag, k: nat, c: nat)
    requires IsLate(d) && k < SIZE
    ensures k in d && CreatorRange(d, Past(d, k), c, RangeAt(k, c), TimeAt(k, c))
  {
    hide IsLate;
    hide WellFormed;
    hide Past;
    hide Creator;
    hide Number;
    hide First;
    hide Last;
    hide ByCreator;
    hide ForkIn;
    NoForkSeen(d, k, c);
    LastIs(k, c);
    var mine := ByCreator(d, Past(d, k), c);
    forall y | y in mine
      ensures Last(k, c).Some? && 1 <= d[y].seqNo <= Number(Last(k, c).value)
    {
      Mine(d, k, c, y);
      NumbersUpTo(k, c, y);
    }
    if Last(k, c).Some? {
      var x := Last(k, c).value;
      Firsts(x);
      Mine(d, k, c, x);
      Mine(d, k, c, First(c));
    }
  }

  lemma FourReadings(a: nat, b: nat, c: nat, d: nat, t: nat)
    ensures var es := [Reading(1, a), Reading(1, b), Reading(1, c), Reading(1, d)];
            && StakeSum(es) == 4
            && StakeBy(es, t) == (if a <= t then 1 else 0) + (if b <= t then 1 else 0) + (if c <= t then 1 else 0)
                                 + if d <= t then 1 else 0
  {
    var es := [Reading(1, a), Reading(1, b), Reading(1, c), Reading(1, d)];
    var e3, e2, e1 := es[..3], es[..2], es[..1];
    assert e3[..2] == e2 && e2[..1] == e1 && e1[..0] == [];
    assert StakeSum(e1) == 1 && StakeBy(e1, t) == if a <= t then 1 else 0;
    assert StakeSum(e2) == 2 && StakeBy(e2, t) == StakeBy(e1, t) + if b <= t then 1 else 0;
    assert StakeSum(e3) == 3 && StakeBy(e3, t) == StakeBy(e2, t) + if c <= t then 1 else 0;
  }

  /** The second lowest of four times. */
  predicate SecondLowest(a: nat, b: nat, c: nat, d: nat, m: nat)
  {
    && (m == a || m == b || m == c || m == d)
    && (if a <= m then 1 else 0) + (if b <= m then 1 else 0) + (if c <= m then 1 else 0)
       + (if d <= m then 1 else 0) >= 2
    && (if a < m then 1 else 0) + (if b < m then 1 else 0) + (if c < m then 1 else 0)
       + (if d < m then 1 else 0) < 2
  }

  lemma MedianOfFour(a: nat, b: nat, c: nat, d: nat, m: nat)
    requires SecondLowest(a, b, c, d, m)
    ensures IsMedian([Reading(1, a), Reading(1, b), Reading(1, c), Reading(1, d)], m)
  {
    var es := [Reading(1, a), Reading(1, b), Reading(1, c), Reading(1, d)];
    hide StakeBy;
    hide StakeSum;
    FourReadings(a, b, c, d, m);
    FourReadings(a, b, c, d, a);
    FourReadings(a, b, c, d, b);
    FourReadings(a, b, c, d, c);
    FourReadings(a, b, c, d, d);
    assert es[0].time == a && es[1].time == b && es[2].time == c && es[3].time == d;
  }

  /** The claimed times of the last events the four validators are seen with. */
  function Clock(k: nat): (t: (nat, nat, nat, nat))
  {
    match k
    case 0 => (0, 1, 0, 0)
    case 1 => (0, 1, 2, 0)
    case 2 => (0, 1, 2, 3)
    case 3 => (0, 1, 4, 3)
    case 4 => (0, 5, 4, 3)
    case 5 => (6, 5, 4, 3)
    case 6 => (6, 7, 4, 3)
    case 7 => (6, 7, 8, 3)
    case 8 => (6, 7, 8, 9)
    case 9 => (6, 7, 10, 9)
    case 10 => (6, 11, 10, 9)
    case 11 => (6, 11, 12, 9)
    case 12 => (6, 11, 12, 13)
    case 13 => (6, 11, 14, 13)
    case _ => (6, 15, 14, 13)
  }

  lemma ClockStep(k: nat)
    requires 0 < k < SIZE
    ensures var now, was, c := Clock(k), Clock(k - 1), Creator(k);
            && now.0 == (if c == 0 then k + 1 else was.0) && now.1 == (if c == 1 then k + 1 else was.1)
            && now.2 == (if c == 2 then k + 1 else was.2) && now.3 == if c == 3 then k + 1 else was.3
  {}

  lemma TimeStep(k: nat, c: nat)
    ensures TimeAt(k, c) == if Creator(k) == c then k + 1 else if k == 0 then 0 else TimeAt(k - 1, c)
  {
    hide Creator;
  }

  lemma {:induction false} Clocks(k: nat)
    requires k < SIZE
    ensures (TimeAt(k, 0), TimeAt(k, 1), TimeAt(k, 2), TimeAt(k, 3)) == Clock(k)
  {
    hide TimeAt;
    TimeStep(k, 0);
    TimeStep(k, 1);
    TimeStep(k, 2);
    TimeStep(k, 3);
    if k > 0 {
      hide Clock;
      hide Creator;
      Clocks(k - 1);
      ClockStep(k);
    }
  }

  lemma Medians(k: nat)
    requires k < SIZE
    ensures SecondLowest(TimeAt(k, 0), TimeAt(k, 1), TimeAt(k, 2), TimeAt(k, 3), Median(k))
  {
    hide TimeAt;
    Clocks(k);
    assert SecondLowest(Clock(k).0, Clock(k).1, Clock(k).2, Clock(k).3, Median(k));
  }

  lemma MedianIs(d: Dag, k: nat)
    requires IsLate(d) && k < SIZE
    ensures k in d && IsMedianTime(d, EQUAL, k, 0, Median(k))
  {
    hide WellFormed;
    hide Past;
    hide Creator;
    hide Number;
    hide Median;
    hide CreatorRange;
    hide SecondLowest;
    hide IsMedian;
    hide IsLate;
    hide Last;
    hide RangeAt;
    hide TimeAt;
    var ms := [RangeAt(k, 0), RangeAt(k, 1), RangeAt(k, 2), RangeAt(k, 3)];
    var mt := [TimeAt(k, 0), TimeAt(k, 1), TimeAt(k, 2), TimeAt(k, 3)];
    At(d, k);
    forall c | 0 <= c < 4
      ensures CreatorRange(d, Past(d, k), c, ms[c], mt[c])
    {
      RangeIs(d, k, c);
    }
    assert MergedExact(d, 4, Past(d, k), ms, mt);
    Medians(k);
    MedianOfFour(mt[0], mt[1], mt[2], mt[3], Median(k));
    forall c | 0 <= c < 4
      ensures ReadingOf(1, ms[c], mt[c], 0) == Reading(1, mt[c])
    {
      LastNumber(k, c);
    }
    assert Readings(EQUAL, ms, mt, 0) == [Reading(1, mt[0]), Reading(1, mt[1]), Reading(1, mt[2]), Reading(1, mt[3])];
  }

  lemma LastNumber(k: nat, c: nat)
    requires k < SIZE
    ensures RangeAt(k, c).high == 0 ==> TimeAt(k, c) == 0
    ensures RangeAt(k, c) != FORK_DETECTED
  {
    if Last(k, c).Some? {
      Firsts(Last(k, c).value);
    }
  }

  // ---------- all together ----------

  /** The self-parent, if there is one, is the previous event of the creator. */
  lemma Header(d: Dag, k: nat)
    requires IsLate(d) && k < SIZE
    ensures k in d && d[k] == Node(k) && d[k].SelfParent() == Own(k)
    ensures Own(k).Some? ==> Own(k).value in d && d[Own(k).value].frame == Frame(Own(k).value)
    ensures AllIn(d, d[k].parents) && (d[k].parents == [] ==> Own(k).None?)
  {
    hide Creator;
    hide Own;
    hide Number;
    Places(k);
    assert d[k] == Node(k);
    if Own(k).Some? {
      At(d, Own(k).value);
    }
  }

  lemma NodeIsAccepted(d: Dag, k: nat)
    requires IsLate(d) && k < SIZE
    ensures k in d && VerdictOf(d, EQUAL, 0, 0, k) == Accepted && FrameOk(d, EQUAL, k)
  {
    hide IsLate;
    hide WellFormed;
    hide Creator;
    hide Number;
    hide Own;
    hide Frame;
    hide IsRoot;
    hide Median;
    hide IsMedianTime;
    hide QuorumOn;
    hide Past;
    hide SeesFork;
    hide Parents;
    Header(d, k);
    Places(k);
    MedianIs(d, k);
    if IsRoot(k) && Frame(k) > 1 {
      RootsHaveQuorums(d, k);
    }
    if Own(k).Some? {
      forall c: nat
        ensures !SeesFork(d, Own(k).value, c)
      {
        NoForkSeen(d, Own(k).value, c);
      }
    }
    assert NoCheaterParents(d, d[k]);
    assert d[k].isRoot == CalcIsRoot(d, EQUAL, k) && d[k].frame == CalcFrame(d, k);
    FrameErrors(d, EQUAL, k);
  }

  /**
   All events of the graph pass the checks, nobody forks, and yet the elected Atropos of frame 2 is
   observed by that of frame 1: frame 2 confirms nothing, and the highest Lamport time of its new
   events is not its Atropos'.
   */
  lemma AtroposMayBeObservedBefore()
    ensures var d, ids := LateGraph(), LateGraph().Keys;
            && WellFormed(d)
            && (forall k: nat | k < SIZE :: k in d && VerdictOf(d, EQUAL, 0, 0, k) == Accepted)
            && World(d, EQUAL, ids)
            && Elected(d, EQUAL, ids, 1, 5) && Elected(d, EQUAL, ids, 2, 4) && 4 in Past(d, 5)
            && AllIn(d, [5, 4]) && NewlyConfirmed(d, [5, 4]) == {}
            && Highest(d, NewlyConfirmed(d, [5, 4])) != d[4].lamport
  {
    hide WellFormed;
    hide VerdictOf;
    hide Elected;
    hide FrameOk;
    hide Past;
    hide ConfirmedBy;
    hide Node;
    var d := LateGraphIsLate();
    forall k: nat | k < SIZE
      ensures k in d && VerdictOf(d, EQUAL, 0, 0, k) == Accepted && FrameOk(d, EQUAL, k)
    {
      NodeIsAccepted(d, k);
    }
    BothElected(d, d.Keys);
    LinePast(d, SIZE, 5);
    NobodyForks(d, d.Keys);
    var atropoi := [5, 4];
    AtroposIsHighestIff(d, atropoi);
    ConfirmedBefore(d);
  }

  lemma NobodyForks(d: Dag, ids: set<EventId>)
    requires IsLate(d) && ids == d.Keys
    ensures FaultBound(EQUAL, Forkers(d, ids)) && Closed(d, ids)
  {
    assert Forkers(d, ids) == {};
    EqualStake({});
    EqualStake(Everyone(EQUAL));
  }

  lemma ConfirmedBefore(d: Dag)
    requires IsLate(d)
    ensures AllIn(d, [5, 4]) && 4 in ConfirmedBy(d, Earlier(d, [5, 4]))
  {
    LinePast(d, SIZE, 5);
  }
}
