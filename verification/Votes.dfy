/**
 The votes of an election as a function of the graph, and why they cannot be decided in
 two ways.

 For a frame to decide, every validator is a subject. A root one frame above votes yes for
 a subject whose root it is forkless-caused by; a root higher up votes with the stake
 majority of the roots one frame below that it is forkless-caused by. A quorum of equal
 votes among those decides the subject.
 */
module Votes {
  import opened Dag
  import opened Stake
  import opened ForklessCause
  import opened Frames

  /** The roots whose votes a root above the first round counts. */
  ghost function Electors(d: Dag, stakes: seq<nat>, r: EventId): (roots: set<EventId>)
    requires r in d && d[r].frame >= 1
    ensures roots <= Past(d, r)
    ensures forall x | x in roots :: d[x].isRoot && d[x].frame == d[r].frame - 1
  {
    VisibleRoots(d, stakes, r, d[r].frame - 1)
  }

  /** Root `r` votes yes on the root of validator `v` at frame `f`. */
  ghost predicate VotesYes(d: Dag, stakes: seq<nat>, f: nat, r: EventId, v: nat)
    requires r in d
    decreases d[r].frame
  {
    if d[r].frame <= f then false
    else if d[r].frame == f + 1 then v in Creators(d, VisibleRoots(d, stakes, r, f))
    else
      StakeOf(stakes, set x | x in Electors(d, stakes, r) && VotesYes(d, stakes, f, x, v) :: d[x].creator)
      >= StakeOf(stakes, set x | x in Electors(d, stakes, r) && !VotesYes(d, stakes, f, x, v) :: d[x].creator)
  }

  /** The validators whose counted roots vote as given. */
  ghost function Voters(d: Dag, stakes: seq<nat>, f: nat, r: EventId, v: nat, yes: bool): (who: set<nat>)
    requires r in d && d[r].frame >= 1
  {
    set x | x in Electors(d, stakes, r) && VotesYes(d, stakes, f, x, v) == yes :: d[x].creator
  }

  lemma VotesYesUnfold(d: Dag, stakes: seq<nat>, f: nat, r: EventId, v: nat)
    requires r in d && d[r].frame >= f + 2
    ensures VotesYes(d, stakes, f, r, v)
       <==> StakeOf(stakes, Voters(d, stakes, f, r, v, true)) >= StakeOf(stakes, Voters(d, stakes, f, r, v, false))
  {
    assert Voters(d, stakes, f, r, v, true)
        == set x | x in Electors(d, stakes, r) && VotesYes(d, stakes, f, x, v) :: d[x].creator;
    assert Voters(d, stakes, f, r, v, false)
        == set x | x in Electors(d, stakes, r) && !VotesYes(d, stakes, f, x, v) :: d[x].creator;
  }

  /** Root `r` sees a quorum of equal votes. */
  ghost predicate Decides(d: Dag, stakes: seq<nat>, f: nat, r: EventId, v: nat, yes: bool)
    requires r in d
  {
    d[r].frame >= f + 2 && StakeOf(stakes, Voters(d, stakes, f, r, v, yes)) >= Quorum(stakes)
  }

  /** The setting of every theorem below: accepted events, with the forking creators within the fault bound. */
  ghost predicate World(d: Dag, stakes: seq<nat>, ids: set<EventId>)
  {
    AcceptedSet(d, stakes, ids) && FaultBound(stakes, Forkers(d, ids))
  }

  /** Among all accepted events at most one root of a slot is ever visible. */
  lemma OneVisibleRoot(d: Dag, stakes: seq<nat>, ids: set<EventId>, a1: EventId, a2: EventId, f: nat, x1: EventId,
                       x2: EventId)
    requires World(d, stakes, ids) && a1 in ids && a2 in ids
    requires x1 in VisibleRoots(d, stakes, a1, f) && x2 in VisibleRoots(d, stakes, a2, f)
    requires d[x1].creator == d[x2].creator
    ensures x1 == x2
  {
    ClosedHoldsPast(d, ids, a1);
    ClosedHoldsPast(d, ids, a2);
    if x1 != x2 {
      RootsOfSlotFork(d, stakes, ids, x1, x2);
      ForksNotBothCaused(d, stakes, ids, a1, x1, a2, x2);
    }
  }

  /** Two roots of one frame never count one validator as voting both ways. */
  lemma VotersDisjoint(d: Dag, stakes: seq<nat>, ids: set<EventId>, f: nat, r1: EventId, r2: EventId, v: nat)
    requires World(d, stakes, ids) && r1 in ids && r2 in ids && d[r1].frame == d[r2].frame >= 1
    ensures Voters(d, stakes, f, r1, v, true) !! Voters(d, stakes, f, r2, v, false)
  {
    forall u | u in Voters(d, stakes, f, r1, v, true) && u in Voters(d, stakes, f, r2, v, false)
      ensures false
    {
      var x1 :| x1 in Electors(d, stakes, r1) && VotesYes(d, stakes, f, x1, v) == true && d[x1].creator == u;
      var x2 :| x2 in Electors(d, stakes, r2) && VotesYes(d, stakes, f, x2, v) == false && d[x2].creator == u;
      OneVisibleRoot(d, stakes, ids, r1, r2, d[r1].frame - 1, x1, x2);
    }
  }

  /** A root above the first frame counts a quorum of voters. */
  lemma VotersQuorum(d: Dag, stakes: seq<nat>, ids: set<EventId>, f: nat, r: EventId, v: nat)
    requires World(d, stakes, ids) && r in ids && d[r].isRoot && d[r].frame >= 2
    ensures StakeOf(stakes, Voters(d, stakes, f, r, v, true)) + StakeOf(stakes, Voters(d, stakes, f, r, v, false)) >=
              Quorum(stakes)
  {
    assert FrameOk(d, stakes, r);
    VotersDisjoint(d, stakes, ids, f, r, r, v);
    StakeDisjoint(stakes, Voters(d, stakes, f, r, v, true), Voters(d, stakes, f, r, v, false));
    assert Creators(d, Electors(d, stakes, r)) == Voters(d, stakes, f, r, v, true) + Voters(d, stakes, f, r, v, false);
  }

  /** A decision at a frame binds every root of that frame: it votes the same way and cannot decide otherwise. */
  lemma DecisionBindsFrame(d: Dag, stakes: seq<nat>, ids: set<EventId>, f: nat, r: EventId, v: nat, yes: bool,
                           r': EventId)
    requires World(d, stakes, ids) && r in ids && r' in ids
    requires Decides(d, stakes, f, r, v, yes)
    requires d[r'].isRoot && d[r'].frame == d[r].frame
    ensures VotesYes(d, stakes, f, r', v) == yes
    ensures !Decides(d, stakes, f, r', v, !yes)
  {
    VotersQuorum(d, stakes, ids, f, r', v);
    VotesYesUnfold(d, stakes, f, r', v);
    if yes {
      VotersDisjoint(d, stakes, ids, f, r, r', v);
      StakeDisjoint(stakes, Voters(d, stakes, f, r, v, true), Voters(d, stakes, f, r', v, false));
    } else {
      VotersDisjoint(d, stakes, ids, f, r', r, v);
      StakeDisjoint(stakes, Voters(d, stakes, f, r', v, true), Voters(d, stakes, f, r, v, false));
    }
  }

  /** Every root of the frame votes the same way. */
  ghost predicate Unanimous(d: Dag, stakes: seq<nat>, ids: set<EventId>, f: nat, g: nat, v: nat, yes: bool)
  {
    forall r {:trigger RootOf(d, ids, g, r)} | RootOf(d, ids, g, r) :: VotesYes(d, stakes, f, r, v) == yes
  }

  /** Unanimity carries over to the next frame, where every root decides the subject that way. */
  lemma UnanimityCarries(d: Dag, stakes: seq<nat>, ids: set<EventId>, f: nat, g: nat, v: nat, yes: bool, r: EventId)
    requires World(d, stakes, ids) && g >= f + 1 && Unanimous(d, stakes, ids, f, g, v, yes)
    requires RootOf(d, ids, g + 1, r)
    ensures VotesYes(d, stakes, f, r, v) == yes
    ensures Decides(d, stakes, f, r, v, yes)
    ensures !Decides(d, stakes, f, r, v, !yes)
  {
    VisibleAreAccepted(d, stakes, ids, r, g);
    forall x | x in Electors(d, stakes, r)
      ensures VotesYes(d, stakes, f, x, v) == yes
    {
      assert RootOf(d, ids, g, x);
    }
    assert Voters(d, stakes, f, r, v, !yes) == {};
    StakeNone(stakes, |stakes|);
    VotersQuorum(d, stakes, ids, f, r, v);
    VotesYesUnfold(d, stakes, f, r, v);
  }

  lemma {:induction false} UnanimityPersists(d: Dag, stakes: seq<nat>, ids: set<EventId>, f: nat, g: nat, h: nat,
                                             v: nat, yes: bool)
    requires World(d, stakes, ids) && f + 1 <= g <= h && Unanimous(d, stakes, ids, f, g, v, yes)
    ensures Unanimous(d, stakes, ids, f, h, v, yes)
    decreases h
  {
    hide World;
    hide VotesYes;
    if g < h {
      UnanimityPersists(d, stakes, ids, f, g, h - 1, v, yes);
      forall r | RootOf(d, ids, h, r)
        ensures VotesYes(d, stakes, f, r, v) == yes
      {
        UnanimityCarries(d, stakes, ids, f, h - 1, v, yes, r);
      }
    }
  }

  /** Once a frame is unanimous every later root decides that way, and none the other way. */
  lemma UnanimityBinds(d: Dag, stakes: seq<nat>, ids: set<EventId>, f: nat, g: nat, v: nat, yes: bool, r: EventId)
    requires World(d, stakes, ids) && g >= f + 1 && Unanimous(d, stakes, ids, f, g, v, yes)
    requires r in ids && d[r].isRoot && d[r].frame > g
    ensures Decides(d, stakes, f, r, v, yes)
    ensures !Decides(d, stakes, f, r, v, !yes)
  {
    UnanimityPersists(d, stakes, ids, f, g, d[r].frame - 1, v, yes);
    UnanimityCarries(d, stakes, ids, f, d[r].frame - 1, v, yes, r);
  }

  /** A subject is never decided both ways, by whatever roots of whatever frames. */
  lemma DecisionsAgree(d: Dag, stakes: seq<nat>, ids: set<EventId>, f: nat, v: nat, r1: EventId, yes1: bool,
                       r2: EventId, yes2: bool)
    requires World(d, stakes, ids)
    requires r1 in ids && d[r1].isRoot && Decides(d, stakes, f, r1, v, yes1)
    requires r2 in ids && d[r2].isRoot && Decides(d, stakes, f, r2, v, yes2)
    ensures yes1 == yes2
  {
    if d[r1].frame <= d[r2].frame {
      EarlierBindsLater(d, stakes, ids, f, v, r1, yes1, r2, yes2);
    } else {
      EarlierBindsLater(d, stakes, ids, f, v, r2, yes2, r1, yes1);
    }
  }

  lemma EarlierBindsLater(d: Dag, stakes: seq<nat>, ids: set<EventId>, f: nat, v: nat, r1: EventId, yes1: bool,
                          r2: EventId, yes2: bool)
    requires World(d, stakes, ids)
    requires r1 in ids && d[r1].isRoot && Decides(d, stakes, f, r1, v, yes1)
    requires r2 in ids && d[r2].isRoot && Decides(d, stakes, f, r2, v, yes2)
    requires d[r1].frame <= d[r2].frame
    ensures yes1 == yes2
  {
    if d[r1].frame == d[r2].frame {
      DecisionBindsFrame(d, stakes, ids, f, r1, v, yes1, r2);
    } else {
      DecisionSpreads(d, stakes, ids, f, v, r1, yes1, r2);
    }
  }

  /** Once a root decides a subject, every root of a higher frame decides it, the same way. */
  lemma DecisionSpreads(d: Dag, stakes: seq<nat>, ids: set<EventId>, f: nat, v: nat, r: EventId, yes: bool,
                        later: EventId)
    requires World(d, stakes, ids)
    requires r in ids && d[r].isRoot && Decides(d, stakes, f, r, v, yes)
    requires later in ids && d[later].isRoot && d[later].frame > d[r].frame
    ensures Decides(d, stakes, f, later, v, yes) && !Decides(d, stakes, f, later, v, !yes)
  {
    hide VotesYes;
    hide FaultBound;
    var g := d[r].frame;
    forall x | RootOf(d, ids, g, x)
      ensures VotesYes(d, stakes, f, x, v) == yes
    {
      DecisionBindsFrame(d, stakes, ids, f, r, v, yes, x);
    }
    UnanimityBinds(d, stakes, ids, f, g, v, yes, later);
  }
}
