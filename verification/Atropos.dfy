/**
 The Atropos of a frame: the root of the first validator, in the order of stakes, that is
 decided yes while everyone before it is decided no.
 */
module Atropos {
  import opened Common
  import opened Dag
  import opened Stake
  import opened ForklessCause
  import opened Frames
  import opened Votes

  /** Some of the given roots decides the subject. */
  ghost predicate DecidedBy(d: Dag, stakes: seq<nat>, ids: set<EventId>, f: nat, v: nat, yes: bool)
    requires ids <= d.Keys
  {
    exists r | r in ids :: d[r].isRoot && Decides(d, stakes, f, r, v, yes)
  }

  /** `x` is the root of `v` at frame `f` that some of the given events is forkless-caused by. */
  ghost predicate Candidate(d: Dag, stakes: seq<nat>, ids: set<EventId>, f: nat, v: nat, x: EventId)
    requires ids <= d.Keys
  {
    x in d && d[x].creator == v && exists a | a in ids :: x in VisibleRoots(d, stakes, a, f)
  }

  ghost predicate ElectedAt(d: Dag, stakes: seq<nat>, ids: set<EventId>, f: nat, v: nat, x: EventId)
    requires ids <= d.Keys
  {
    && v < |stakes|
    && (forall u: nat | u < v :: DecidedBy(d, stakes, ids, f, u, false))
    && DecidedBy(d, stakes, ids, f, v, true)
    && Candidate(d, stakes, ids, f, v, x)
  }

  /** A node that knows the given events has elected `x` as the Atropos of frame `f`. */
  ghost predicate Elected(d: Dag, stakes: seq<nat>, ids: set<EventId>, f: nat, x: EventId)
    requires ids <= d.Keys
  {
    exists v: nat :: ElectedAt(d, stakes, ids, f, v, x)
  }

  /**
   Two nodes never elect different Atropoi for a frame, whatever events each of them knows
   and in whatever order it learned them, unless the forking creators exceed the fault bound.
   */
  lemma AtroposUnique(d: Dag, stakes: seq<nat>, ids: set<EventId>, ids1: set<EventId>, ids2: set<EventId>,
                      f: nat, x1: EventId, x2: EventId)
    requires World(d, stakes, ids) && ids1 <= ids && ids2 <= ids
    requires Elected(d, stakes, ids1, f, x1) && Elected(d, stakes, ids2, f, x2)
    ensures x1 == x2
  {
    hide VotesYes;
    hide Decides;
    hide FaultBound;
    hide VisibleRoots;
    var v1: nat :| ElectedAt(d, stakes, ids1, f, v1, x1);
    var v2: nat :| ElectedAt(d, stakes, ids2, f, v2, x2);
    if v1 < v2 {
      NotDecidedBothWays(d, stakes, ids, ids1, ids2, f, v1);
    } else if v2 < v1 {
      NotDecidedBothWays(d, stakes, ids, ids2, ids1, f, v2);
    } else {
      var a1 :| a1 in ids1 && x1 in VisibleRoots(d, stakes, a1, f);
      var a2 :| a2 in ids2 && x2 in VisibleRoots(d, stakes, a2, f);
      OneVisibleRoot(d, stakes, ids, a1, a2, f, x1, x2);
    }
  }

  /** In particular while at most a third of the stake forks. */
  lemma AtroposUniqueWithinThird(d: Dag, stakes: seq<nat>, ids: set<EventId>, ids1: set<EventId>, ids2: set<EventId>,
                                 f: nat, x1: EventId, x2: EventId)
    requires AcceptedSet(d, stakes, ids) && 3 * StakeOf(stakes, Forkers(d, ids)) <= Total(stakes)
    requires ids1 <= ids && ids2 <= ids && Elected(d, stakes, ids1, f, x1) && Elected(d, stakes, ids2, f, x2)
    ensures x1 == x2
  {
    ThirdIsWithinBound(stakes, Forkers(d, ids));
    AtroposUnique(d, stakes, ids, ids1, ids2, f, x1, x2);
  }

  /** In a group ordered by stake, the elected root is that of the validator with the greatest stake among
      all that anyone decides yes. */
  lemma GreatestStakeElected(d: Dag, stakes: seq<nat>, ids: set<EventId>, known: set<EventId>, f: nat, x: EventId,
                             u: nat)
    requires World(d, stakes, ids) && known <= ids && Elected(d, stakes, known, f, x)
    requires forall i, j | 0 <= i < j < |stakes| :: stakes[i] >= stakes[j]
    requires u < |stakes| && DecidedBy(d, stakes, ids, f, u, true)
    ensures x in d && d[x].creator < |stakes| && stakes[d[x].creator] >= stakes[u] && d[x].creator <= u
  {
    hide World;
    hide DecidedBy;
    hide VisibleRoots;
    WorldIsKnown(d, stakes, ids);
    var v: nat :| ElectedAt(d, stakes, known, f, v, x);
    if u < v {
      NotDecidedBothWays(d, stakes, ids, ids, known, f, u);
      assert false;
    }
  }

  lemma NotDecidedBothWays(d: Dag, stakes: seq<nat>, ids: set<EventId>, ids1: set<EventId>, ids2: set<EventId>, f: nat,
                           v: nat)
    requires World(d, stakes, ids) && ids1 <= ids && ids2 <= ids
    ensures !(DecidedBy(d, stakes, ids1, f, v, true) && DecidedBy(d, stakes, ids2, f, v, false))
  {
    hide Decides;
    hide FaultBound;
    if DecidedBy(d, stakes, ids1, f, v, true) && DecidedBy(d, stakes, ids2, f, v, false) {
      var r1 :| r1 in ids1 && d[r1].isRoot && Decides(d, stakes, f, r1, v, true);
      var r2 :| r2 in ids2 && d[r2].isRoot && Decides(d, stakes, f, r2, v, false);
      DecisionsAgree(d, stakes, ids, f, v, r1, true, r2, false);
    }
  }

  /** A yes vote has a candidate behind it. */
  lemma {:induction false} YesHasCandidate(d: Dag, stakes: seq<nat>, ids: set<EventId>, f: nat, r: EventId, v: nat)
    returns (x: EventId)
    requires World(d, stakes, ids) && r in ids && d[r].isRoot && VotesYes(d, stakes, f, r, v)
    ensures Candidate(d, stakes, ids, f, v, x)
    decreases d[r].frame
  {
    hide World;
    if d[r].frame == f + 1 {
      x :| x in VisibleRoots(d, stakes, r, f) && d[x].creator == v;
    } else {
      var y := YesHasYesElector(d, stakes, ids, f, r, v);
      x := YesHasCandidate(d, stakes, ids, f, y, v);
    }
  }

  lemma YesHasYesElector(d: Dag, stakes: seq<nat>, ids: set<EventId>, f: nat, r: EventId, v: nat) returns (y: EventId)
    requires World(d, stakes, ids) && r in ids && d[r].isRoot && d[r].frame >= f + 2 && VotesYes(d, stakes, f, r, v)
    ensures y in ids && d[y].isRoot && d[y].frame == d[r].frame - 1 && VotesYes(d, stakes, f, y, v)
  {
    hide VotesYes;
    hide Voters;
    hide FaultBound;
    hide StakeOf;
    hide VisibleRoots;
    VotersQuorum(d, stakes, ids, f, r, v);
    VotesYesUnfold(d, stakes, f, r, v);
    StakePositive(stakes, Voters(d, stakes, f, r, v, true));
    y := VoterRoot(d, stakes, f, r, v, true);
    VisibleAreAccepted(d, stakes, ids, r, d[r].frame - 1);
    assert RootOf(d, ids, d[r].frame - 1, y);
  }

  lemma StakePositive(stakes: seq<nat>, who: set<nat>)
    requires StakeOf(stakes, who) > 0
    ensures who != {}
  {
    StakeNone(stakes, |stakes|);
  }

  /** A root behind one of the voters. */
  lemma VoterRoot(d: Dag, stakes: seq<nat>, f: nat, r: EventId, v: nat, yes: bool) returns (y: EventId)
    requires r in d && d[r].frame >= 1 && Voters(d, stakes, f, r, v, yes) != {}
    ensures y in Electors(d, stakes, r) && VotesYes(d, stakes, f, y, v) == yes
  {
    var u :| u in Voters(d, stakes, f, r, v, yes);
    y :| y in Electors(d, stakes, r) && VotesYes(d, stakes, f, y, v) == yes && d[y].creator == u;
  }

  // ---------- not every subject is decided no ----------

  /** The sum over the rows of a relation of the row's weight times the weight of what it holds. */
  ghost function RowSum(w: seq<nat>, rel: map<nat, set<nat>>, k: nat, l: nat): (sum: nat)
    requires k <= |w| && l <= |w|
  {
    if k == 0 then 0
    else RowSum(w, rel, k - 1, l) + if k - 1 in rel then w[k - 1] * StakeUpTo(w, rel[k - 1], l) else 0
  }

  /** The rows that hold `v`. */
  ghost function Column(rel: map<nat, set<nat>>, v: nat): (who: set<nat>)
    ensures who <= rel.Keys
  {
    set u | u in rel && v in rel[u]
  }

  ghost function ColumnSum(w: seq<nat>, rel: map<nat, set<nat>>, k: nat, l: nat): (sum: nat)
    requires k <= |w| && l <= |w|
  {
    if l == 0 then 0
    else ColumnSum(w, rel, k, l - 1) + w[l - 1] * StakeUpTo(w, Column(rel, l - 1), k)
  }

  lemma {:induction false} RowSumStep(w: seq<nat>, rel: map<nat, set<nat>>, k: nat, l: nat)
    requires k <= |w| && 0 < l <= |w|
    ensures RowSum(w, rel, k, l) == RowSum(w, rel, k, l - 1) + w[l - 1] * StakeUpTo(w, Column(rel, l - 1), k)
  {
    if k > 0 {
      RowSumStep(w, rel, k - 1, l);
      if k - 1 in rel {
        var s := StakeUpTo(w, rel[k - 1], l - 1);
        var c := StakeUpTo(w, Column(rel, l - 1), k - 1);
        if l - 1 in rel[k - 1] {
          Expand(w[k - 1], s, w[l - 1]);
          Expand(w[l - 1], c, w[k - 1]);
        }
      }
    }
  }

  lemma {:induction false} RowSumNothing(w: seq<nat>, rel: map<nat, set<nat>>, k: nat)
    requires k <= |w|
    ensures RowSum(w, rel, k, 0) == 0
  {
    if k > 0 {
      RowSumNothing(w, rel, k - 1);
    }
  }

  /** Counting a relation by rows is counting it by columns. */
  lemma {:induction false} RowsAreColumns(w: seq<nat>, rel: map<nat, set<nat>>, k: nat, l: nat)
    requires k <= |w| && l <= |w|
    ensures RowSum(w, rel, k, l) == ColumnSum(w, rel, k, l)
  {
    if l == 0 {
      RowSumNothing(w, rel, k);
    } else {
      RowsAreColumns(w, rel, k, l - 1);
      RowSumStep(w, rel, k, l);
    }
  }

  lemma {:induction false} RowsAtLeast(w: seq<nat>, rel: map<nat, set<nat>>, k: nat, q: nat)
    requires k <= |w| && forall u | u in rel && u < k :: StakeOf(w, rel[u]) >= q
    ensures RowSum(w, rel, k, |w|) >= q * StakeUpTo(w, rel.Keys, k)
  {
    if k > 0 {
      RowsAtLeast(w, rel, k - 1, q);
      if k - 1 in rel {
        MulMonotone(w[k - 1], q, StakeOf(w, rel[k - 1]));
        assert q * (StakeUpTo(w, rel.Keys, k - 1) + w[k - 1]) == q * StakeUpTo(w, rel.Keys, k - 1) + w[k - 1] * q;
      }
    }
  }

  lemma {:induction false} ColumnsAtMost(w: seq<nat>, rel: map<nat, set<nat>>, l: nat, c: nat)
    requires l <= |w| && forall v: nat | v < l :: 2 * StakeOf(w, Column(rel, v)) <= c
    ensures 2 * ColumnSum(w, rel, |w|, l) <= c * StakeUpTo(w, Indices(|w|), l)
  {
    if l > 0 {
      ColumnsAtMost(w, rel, l - 1, c);
      MulMonotone(w[l - 1], 2 * StakeOf(w, Column(rel, l - 1)), c);
      assert c * (StakeUpTo(w, Indices(|w|), l - 1) + w[l - 1]) == c * StakeUpTo(w, Indices(|w|), l - 1) + w[l - 1] * c;
      assert 2 * (w[l - 1] * StakeOf(w, Column(rel, l - 1))) == w[l - 1] * (2 * StakeOf(w, Column(rel, l - 1)));
    }
  }

  /** If every row holds a quorum, some column holds more than the rows' stake less half a quorum. */
  lemma HeavyColumn(w: seq<nat>, rel: map<nat, set<nat>>) returns (v: nat)
    requires forall u | u in rel && u < |w| :: StakeOf(w, rel[u]) >= Quorum(w)
    requires StakeOf(w, rel.Keys) >= Quorum(w)
    ensures v < |w| && 2 * StakeOf(w, Column(rel, v)) + Quorum(w) >= 2 * StakeOf(w, rel.Keys)
  {
    var q, a, t := Quorum(w), StakeOf(w, rel.Keys), Total(w);
    StakeAtMostTotal(w, rel.Keys);
    if forall v: nat | v < |w| :: 2 * StakeOf(w, Column(rel, v)) + q < 2 * a {
      RowsAreColumns(w, rel, |w|, |w|);
      RowsAtLeast(w, rel, |w|, q);
      ColumnsAtMost(w, rel, |w|, 2 * a - q - 1);
      TooLight(t, a, q);
      assert false;
    }
    v :| v < |w| && 2 * StakeOf(w, Column(rel, v)) + q >= 2 * a;
  }

  lemma TooLight(t: nat, a: nat, q: nat)
    requires 1 <= q <= a <= t && 2 * t < 3 * q
    ensures 2 * (q * a) > (2 * a - q - 1) * t
  {
    var over := 2 * t - 2 * q;
    MulMonotone(over, a, t);
    MulMonotone(t, over, q);
    Distribute(2 * t, 2 * q, a);
    Distribute(2 * a, q + 1, t);
    Distribute(q + 1, 1, t);
  }

  /** The roots of the first round that some root of the second round counts. */
  ghost function FirstRound(d: Dag, stakes: seq<nat>, ids: set<EventId>, f: nat): (roots: set<EventId>)
    requires ids <= d.Keys
    ensures roots <= d.Keys
  {
    set r, x | r in RootsAt(d, ids, f + 2) && x in Electors(d, stakes, r) :: x
  }

  /** What each first-round validator voted yes on; its counted root is unique. */
  ghost function Ballots(d: Dag, stakes: seq<nat>, ids: set<EventId>, f: nat): (rel: map<nat, set<nat>>)
    requires ids <= d.Keys
  {
    map u | u in Creators(d, FirstRound(d, stakes, ids, f)) ::
      var x :| x in FirstRound(d, stakes, ids, f) && d[x].creator == u;
      Creators(d, VisibleRoots(d, stakes, x, f))
  }

  /** The ballot of a first-round root is its validator's. */
  lemma BallotOf(d: Dag, stakes: seq<nat>, ids: set<EventId>, f: nat, x: EventId)
    requires World(d, stakes, ids) && x in FirstRound(d, stakes, ids, f)
    ensures d[x].creator in Ballots(d, stakes, ids, f)
    ensures Ballots(d, stakes, ids, f)[d[x].creator] == Creators(d, VisibleRoots(d, stakes, x, f))
  {
    hide World;
    hide VisibleRoots;
    hide FirstRound;
    WorldIsKnown(d, stakes, ids);
    var first := FirstRound(d, stakes, ids, f);
    forall y | y in first && d[y].creator == d[x].creator
      ensures y == x
    {
      FirstRoundUnique(d, stakes, ids, f, x, y);
    }
  }

  lemma FirstRoundUnique(d: Dag, stakes: seq<nat>, ids: set<EventId>, f: nat, x: EventId, y: EventId)
    requires World(d, stakes, ids) && x in FirstRound(d, stakes, ids, f) && y in FirstRound(d, stakes, ids, f)
    requires d[x].creator == d[y].creator
    ensures x == y
  {
    hide World;
    hide VisibleRoots;
    WorldIsKnown(d, stakes, ids);
    var r1 :| r1 in RootsAt(d, ids, f + 2) && x in Electors(d, stakes, r1);
    var r2 :| r2 in RootsAt(d, ids, f + 2) && y in Electors(d, stakes, r2);
    OneVisibleRoot(d, stakes, ids, r1, r2, f + 1, x, y);
  }

  lemma BallotsAreQuorums(d: Dag, stakes: seq<nat>, ids: set<EventId>, f: nat, u: nat)
    requires World(d, stakes, ids) && f >= 1 && u in Ballots(d, stakes, ids, f)
    ensures StakeOf(stakes, Ballots(d, stakes, ids, f)[u]) >= Quorum(stakes)
  {
    hide World;
    hide VisibleRoots;
    hide FirstRound;
    hide StakeOf;
    WorldIsKnown(d, stakes, ids);
    var x :| x in FirstRound(d, stakes, ids, f) && d[x].creator == u;
    BallotOf(d, stakes, ids, f, x);
    FirstRoundSeesQuorum(d, stakes, ids, f, x);
  }

  lemma FirstRoundSeesQuorum(d: Dag, stakes: seq<nat>, ids: set<EventId>, f: nat, x: EventId)
    requires World(d, stakes, ids) && f >= 1 && x in FirstRound(d, stakes, ids, f)
    ensures QuorumOn(d, stakes, x, f)
  {
    hide VisibleRoots;
    hide FaultBound;
    hide QuorumOn;
    var r :| r in RootsAt(d, ids, f + 2) && x in Electors(d, stakes, r);
    VisibleAreAccepted(d, stakes, ids, r, f + 1);
    assert RootOf(d, ids, f + 1, x);
    assert FrameOk(d, stakes, x);
  }

  lemma ElectorsAreBallots(d: Dag, stakes: seq<nat>, ids: set<EventId>, f: nat, r: EventId)
    requires World(d, stakes, ids) && RootOf(d, ids, f + 2, r)
    ensures Creators(d, Electors(d, stakes, r)) <= Ballots(d, stakes, ids, f).Keys
    ensures StakeOf(stakes, Ballots(d, stakes, ids, f).Keys) >= Quorum(stakes)
  {
    hide VisibleRoots;
    hide FaultBound;
    hide StakeOf;
    forall x | x in Electors(d, stakes, r)
      ensures d[x].creator in Ballots(d, stakes, ids, f)
    {
      assert r in RootsAt(d, ids, f + 2);
      assert x in FirstRound(d, stakes, ids, f);
    }
    assert FrameOk(d, stakes, r);
    StakeMonotone(stakes, Creators(d, Electors(d, stakes, r)), Ballots(d, stakes, ids, f).Keys);
  }

  /** A second-round root's no votes on `v` come from validators whose ballots lack `v`. */
  lemma NoVotersOutsideColumn(d: Dag, stakes: seq<nat>, ids: set<EventId>, f: nat, r: EventId, v: nat)
    requires World(d, stakes, ids) && RootOf(d, ids, f + 2, r)
    ensures Voters(d, stakes, f, r, v, false) !! Column(Ballots(d, stakes, ids, f), v)
  {
    hide VisibleRoots;
    hide FaultBound;
    var rel := Ballots(d, stakes, ids, f);
    forall u | u in Voters(d, stakes, f, r, v, false)
      ensures u !in Column(rel, v)
    {
      var x :| x in Electors(d, stakes, r) && VotesYes(d, stakes, f, x, v) == false && d[x].creator == u;
      assert r in RootsAt(d, ids, f + 2);
      assert x in FirstRound(d, stakes, ids, f);
      BallotOf(d, stakes, ids, f, x);
    }
  }

  /** Some subject gets the yes vote of every root of the second round. */
  lemma FavouredSubject(d: Dag, stakes: seq<nat>, ids: set<EventId>, f: nat) returns (v: nat)
    requires World(d, stakes, ids) && f >= 1 && RootsAt(d, ids, f + 2) != {}
    ensures v < |stakes| && Unanimous(d, stakes, ids, f, f + 2, v, true)
  {
    hide World;
    hide VisibleRoots;
    hide Ballots;
    hide VotesYes;
    hide Voters;
    hide StakeOf;
    WorldIsKnown(d, stakes, ids);
    var rel := Ballots(d, stakes, ids, f);
    var r0 :| r0 in RootsAt(d, ids, f + 2);
    ElectorsAreBallots(d, stakes, ids, f, r0);
    forall u | u in rel
      ensures StakeOf(stakes, rel[u]) >= Quorum(stakes)
    {
      BallotsAreQuorums(d, stakes, ids, f, u);
    }
    v := HeavyColumn(stakes, rel);
    forall r | RootOf(d, ids, f + 2, r)
      ensures VotesYes(d, stakes, f, r, v) == true
    {
      FavouredByRoot(d, stakes, ids, f, v, r);
    }
  }

  lemma WorldIsKnown(d: Dag, stakes: seq<nat>, ids: set<EventId>)
    requires World(d, stakes, ids)
    ensures ids <= d.Keys && Closed(d, ids)
  {}

  lemma FavouredByRoot(d: Dag, stakes: seq<nat>, ids: set<EventId>, f: nat, v: nat, r: EventId)
    requires World(d, stakes, ids) && RootOf(d, ids, f + 2, r)
    requires var rel := Ballots(d, stakes, ids, f);
             2 * StakeOf(stakes, Column(rel, v)) + Quorum(stakes) >= 2 * StakeOf(stakes, rel.Keys)
    ensures VotesYes(d, stakes, f, r, v)
  {
    hide World;
    hide VisibleRoots;
    hide Ballots;
    hide VotesYes;
    hide StakeOf;
    WorldIsKnown(d, stakes, ids);
    var rel := Ballots(d, stakes, ids, f);
    var no, col := Voters(d, stakes, f, r, v, false), Column(rel, v);
    VotersQuorum(d, stakes, ids, f, r, v);
    VotesYesUnfold(d, stakes, f, r, v);
    NoVotersOutsideColumn(d, stakes, ids, f, r, v);
    ElectorsAreBallots(d, stakes, ids, f, r);
    StakeDisjoint(stakes, no, col);
    assert no <= Creators(d, Electors(d, stakes, r));
    StakeMonotone(stakes, no + col, rel.Keys);
  }

  /** The subjects are never all decided no. */
  lemma NotAllDecidedNo(d: Dag, stakes: seq<nat>, ids: set<EventId>, f: nat)
    requires World(d, stakes, ids) && f >= 1 && |stakes| > 0
    ensures exists v: nat | v < |stakes| :: !DecidedBy(d, stakes, ids, f, v, false)
  {
    hide World;
    hide Decides;
    hide Unanimous;
    WorldIsKnown(d, stakes, ids);
    if DecidedBy(d, stakes, ids, f, 0, false) {
      var r :| r in ids && d[r].isRoot && Decides(d, stakes, f, r, 0, false);
      SecondRoundExists(d, stakes, ids, f, r, 0, false);
      var v := FavouredSubject(d, stakes, ids, f);
      forall r | r in ids && d[r].isRoot
        ensures !Decides(d, stakes, f, r, v, false)
      {
        FavouredNotDecidedNo(d, stakes, ids, f, v, r);
      }
      assert !DecidedBy(d, stakes, ids, f, v, false);
    }
  }

  lemma SecondRoundExists(d: Dag, stakes: seq<nat>, ids: set<EventId>, f: nat, r: EventId, v: nat, yes: bool)
    requires World(d, stakes, ids) && r in ids && Decides(d, stakes, f, r, v, yes)
    ensures RootsAt(d, ids, f + 2) != {}
  {
    hide FaultBound;
    var r' := ChainRoot(d, stakes, ids, r, f + 2);
    assert r' in RootsAt(d, ids, f + 2);
  }

  lemma FavouredNotDecidedNo(d: Dag, stakes: seq<nat>, ids: set<EventId>, f: nat, v: nat, r: EventId)
    requires World(d, stakes, ids) && Unanimous(d, stakes, ids, f, f + 2, v, true)
    requires r in ids && r in d && d[r].isRoot
    ensures !Decides(d, stakes, f, r, v, false)
  {
    hide World;
    hide Electors;
    hide VotesYes;
    WorldIsKnown(d, stakes, ids);
    if d[r].frame > f + 2 {
      UnanimityBinds(d, stakes, ids, f, f + 2, v, true, r);
    } else if d[r].frame == f + 2 {
      assert RootOf(d, ids, f + 2, r);
      VotesYesUnfold(d, stakes, f, r, v);
      VotersDisjoint(d, stakes, ids, f, r, r, v);
      StakeDisjoint(stakes, Voters(d, stakes, f, r, v, true), Voters(d, stakes, f, r, v, false));
    }
  }
}
