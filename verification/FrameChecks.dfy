/**
 What the frame of a new event is checked against: quorums among the stored roots.
 */
module FrameChecks {
  import opened Dag
  import opened Stake
  import opened ForklessCause
  import opened Frames
  import opened Election
  import opened ElectionState
  import opened Branches
  import opened HighestBefore
  import opened MergedClock
  import opened WeightedMedian
  import opened MedianTime
  import opened RootStore
  import opened EventRules
  import opened Twins

  /** The creators of the listed roots that forkless-cause `a`. */
  ghost function SeenCreators(d: Dag, stakes: seq<nat>, a: EventId, roots: set<EventId>): (who: set<nat>)
    requires a in d
  {
    set x | x in Caused(d, stakes, a, roots) :: d[x].creator
  }

  ghost predicate QuorumAmong(d: Dag, stakes: seq<nat>, a: EventId, roots: set<EventId>)
    requires a in d
  {
    StakeOf(stakes, SeenCreators(d, stakes, a, roots)) >= Quorum(stakes)
  }

  lemma SeenCreatorsNext(d: Dag, stakes: seq<nat>, a: EventId, roots: set<EventId>, r: EventId)
    requires a in d && r in d
    ensures SeenCreators(d, stakes, a, roots + {r}) ==
            if ForklessCauses(d, stakes, a, r) then SeenCreators(d, stakes, a, roots) + {d[r].creator}
            else SeenCreators(d, stakes, a, roots)
  {
    hide ForklessCauses;
    assert Caused(d, stakes, a, roots + {r}) ==
           Caused(d, stakes, a, roots) + if ForklessCauses(d, stakes, a, r) then {r} else {};
  }

  lemma SeenNobody(d: Dag, stakes: seq<nat>, a: EventId)
    requires a in d
    ensures SeenCreators(d, stakes, a, Ids([])) == {}
  {
    assert Ids([]) == {};
  }

  lemma IdsPrefix(slots: seq<RootSlot>, i: nat)
    requires i <= |slots|
    ensures Ids(slots[..i]) <= Ids(slots)
  {
    forall x | x in Ids(slots[..i])
      ensures x in Ids(slots)
    {
      var j :| 0 <= j < i && slots[..i][j].id == x;
      assert slots[j].id == x;
    }
  }

  lemma QuorumGrows(d: Dag, stakes: seq<nat>, a: EventId, some: set<EventId>, roots: set<EventId>)
    requires a in d && some <= roots && QuorumAmong(d, stakes, a, some)
    ensures QuorumAmong(d, stakes, a, roots)
  {
    hide ForklessCauses;
    StakeMonotone(stakes, SeenCreators(d, stakes, a, some), SeenCreators(d, stakes, a, roots));
  }

  /** For a frame other than its own, an event's quorum among the roots known before it is its quorum in the graph. */
  lemma QuorumAmongKnown(d: Dag, stakes: seq<nat>, ids: set<EventId>, id: EventId, f: nat)
    requires Closed(d, ids) && id in d && id !in ids && (forall p | p in d[id].parents :: p in ids)
    requires d[id].frame != f
    ensures QuorumAmong(d, stakes, id, RootsAt(d, ids, f)) == QuorumOn(d, stakes, id, f)
  {
    hide ForklessCauses;
    var more := ids + {id};
    assert Closed(d, more);
    CausedAreVisible(d, stakes, more, id, f);
    assert RootsAt(d, more, f) == RootsAt(d, ids, f);
  }

  /** All events are by validators of the group. */
  predicate ByGroup(d: map<EventId, Event>, n: nat, ids: set<EventId>)
  {
    forall x {:trigger x in ids} | x in ids :: x in d && d[x].creator < n
  }

  lemma ParentsAreIn(d: Dag, id: EventId)
    requires id in d
    ensures AllIn(d, d[id].parents)
  {}

  lemma AcceptedIsClosed(d: Dag, stakes: seq<nat>, ids: set<EventId>)
    requires AcceptedSet(d, stakes, ids)
    ensures Closed(d, ids) && ids <= d.Keys
  {}

  /** All events are what the checks admit. */
  ghost predicate AllAdmissible(d: Dag, stakes: seq<nat>, epochHash: nat, start: nat, ids: set<EventId>)
  {
    forall x {:trigger x in ids} | x in ids :: x in d && Admissible(d, stakes, epochHash, start, x)
  }

  lemma AdmissibleParts(d: Dag, stakes: seq<nat>, epochHash: nat, start: nat, ids: set<EventId>, id: EventId)
    requires id in d && Admissible(d, stakes, epochHash, start, id)
    requires AllAdmissible(d, stakes, epochHash, start, ids)
    ensures d[id].creator < |stakes| && FrameOk(d, stakes, id)
    ensures AllAdmissible(d, stakes, epochHash, start, ids + {id})
  {
    hide FrameOk;
    hide IsMedianTime;
    hide LinksToCheater;
  }

  lemma NothingAccepted(d: Dag, stakes: seq<nat>, epochHash: nat, start: nat)
    ensures AcceptedSet(d, stakes, {}) && ByGroup(d, |stakes|, {})
    ensures AllAdmissible(d, stakes, epochHash, start, {})
  {}

  lemma AcceptedGrows(d: Dag, stakes: seq<nat>, ids: set<EventId>, id: EventId)
    requires AcceptedSet(d, stakes, ids) && id in d && (forall p | p in d[id].parents :: p in ids)
             && FrameOk(d, stakes, id)
    ensures AcceptedSet(d, stakes, ids + {id})
  {
    hide FrameOk;
    var more := ids + {id};
    forall x, p | x in more && p in d[x].parents
      ensures p in more
    {
      if x in ids {
        assert p in ids;
      }
    }
  }

  lemma NotARoot(roots: Store, d: Dag, ids: set<EventId>, id: EventId)
    requires roots.Valid(d, ids) && id in d && !d[id].isRoot
    ensures roots.Valid(d, ids + {id})
  {
    hide ListsFrame;
    forall f | f in roots.cache
      ensures ListsFrame(d, ids + {id}, f, roots.cache[f])
    {
      AddedEvent(d, ids, id, f, roots.cache[f]);
    }
  }

  lemma NoAuth(d: Dag, stakes: seq<nat>, epochHash: nat, start: nat, id: EventId)
    requires id in d && d[id].creator >= |stakes|
    ensures VerdictOf(d, stakes, epochHash, start, id) == ErrAuth
  {}

  lemma RootFrame(d: Dag, stakes: seq<nat>, ids: set<EventId>, r: EventId)
    requires AcceptedSet(d, stakes, ids) && r in ids
    ensures r in d && d[r].frame >= 1
  {
    assert FrameOk(d, stakes, r);
  }

  /** The frame and root verdict that preparing an event fills in. */
  ghost predicate Prepared(d: Dag, stakes: seq<nat>, ids: set<EventId>, id: EventId, frame: nat, isRoot: bool)
    requires id in d && ids <= d.Keys
  {
    assert d[id].SelfParent().Some? ==> d[id].parents[0] in d[id].parents;
    var below := SelfParentFrame(d, d[id]);
    if d[id].SelfParent().None? then frame == 1 && isRoot
    else
      isRoot == QuorumAmong(d, stakes, id, RootsAt(d, ids, below)) && frame == below + if isRoot then 1 else 0
  }

  lemma TwinQuorum(d: Dag, stakes: seq<nat>, ids: set<EventId>, a: EventId, b: EventId, f: nat)
    requires Twin(d, ids, a, b)
    ensures QuorumAmong(d, stakes, a, RootsAt(d, ids, f)) == QuorumAmong(d, stakes, b, RootsAt(d, ids, f))
  {
    hide ForklessCauses;
    var roots := RootsAt(d, ids, f);
    forall r | r in roots
      ensures ForklessCauses(d, stakes, a, r) == ForklessCauses(d, stakes, b, r)
    {
      TwinCaused(d, stakes, ids, a, b, r);
    }
    assert Caused(d, stakes, a, roots) == Caused(d, stakes, b, roots);
  }

  /** The check accepts what preparing filled in, unless the event links to a cheater its self-parent saw. */
  lemma PreparedIsAccepted(d: Dag, stakes: seq<nat>, ids: set<EventId>, a: EventId, b: EventId, epochHash: nat,
                           start: nat)
    requires Twin(d, ids, a, b) && d[b].creator < |stakes| && AllIn(d, d[a].parents)
    requires Prepared(d, stakes, ids, a, d[b].frame, d[b].isRoot)
    requires IsMedianTime(d, stakes, a, start, d[b].medianTime)
    requires d[b].prevEpochHash == if d[b].seqNo <= 1 then epochHash else 0
    ensures VerdictOf(d, stakes, epochHash, start, b) ==
            if NoCheaterParents(d, d[a]) then Accepted else ErrCheatersObserved
  {
    hide IsMedianTime;
    hide QuorumAmong;
    hide QuorumOn;
    hide SeesFork;
    TwinMedian(d, stakes, ids, a, b, start, d[b].medianTime);
    assert NoCheaterParents(d, d[a]) == NoCheaterParents(d, d[b]);
    assert d[b].SelfParent() == d[a].SelfParent();
    assert d[b].SelfParent().Some? ==> d[b].parents[0] in d[b].parents;
    var below := SelfParentFrame(d, d[b]);
    assert below == SelfParentFrame(d, d[a]);
    TwinQuorum(d, stakes, ids, a, b, below);
    if d[b].frame != below {
      QuorumAmongKnown(d, stakes, ids, b, below);
    }
  }

  /** Four events: validator 0 forks, validator 1 observes both branches and then links to one again. */
  function CheaterAsParent(): (d: map<EventId, Event>)
  {
    map[
      1 := Event(0, 1, 1, 10, [], 1, true, 10, 0),
      2 := Event(0, 1, 1, 11, [], 1, true, 11, 0),
      3 := Event(1, 1, 2, 12, [1, 2], 1, true, 12, 0),
      4 := Event(1, 2, 3, 13, [3, 1], 1, false, 13, 0)]
  }

  lemma CheaterGraphIsWellFormed()
    ensures WellFormed(CheaterAsParent())
  {
    var d := CheaterAsParent();
    assert d[3].parents[0] == 1 && d[4].parents[0] == 3;
  }

  const CHEATER_STAKES: seq<nat> := [5, 2]

  /** So an event can be prepared that the check refuses: its parents are accepted, its frame, root verdict
      and median time are what preparing fills in, and the self-parent saw the cheater it links to. */
  lemma PreparedMayBeRefused()
    ensures var d := CheaterAsParent();
            && WellFormed(d)
            && (forall id | 1 <= id <= 3 :: VerdictOf(d, CHEATER_STAKES, 0, 0, id) == Accepted)
            && Prepared(d, CHEATER_STAKES, {1, 2, 3}, 4, d[4].frame, d[4].isRoot)
            && IsMedianTime(d, CHEATER_STAKES, 4, 0, d[4].medianTime)
            && VerdictOf(d, CHEATER_STAKES, 0, 0, 4) == ErrCheatersObserved
  {
    hide IsMedianTime;
    hide Prepared;
    hide NoCheaterParents;
    hide WellFormed;
    CheaterGraphIsWellFormed();
    var d: Dag := CheaterAsParent();
    CheaterMedians(d);
    RefusedIsPrepared(d);
    FourthLinksToCheater(d);
  }

  lemma FourthLinksToCheater(d: Dag)
    requires d == CheaterAsParent()
    ensures forall id | 1 <= id <= 4 :: AllIn(d, d[id].parents)
    ensures NoCheaterParents(d, d[1]) && NoCheaterParents(d, d[2]) && NoCheaterParents(d, d[3])
    ensures !NoCheaterParents(d, d[4])
  {
    hide WellFormed;
    hide SeesFork;
    var parents := d[4].parents;
    assert parents[0] == 3 && parents[1] == 1;
    SeesBothBranches(d);
    assert 1 in parents;
  }

  lemma SeesBothBranches(d: Dag)
    requires d == CheaterAsParent()
    ensures SeesFork(d, 3, 0) && SeesFork(d, 4, 0)
  {
    hide WellFormed;
    hide Past;
    CheaterPasts(d);
    assert ForkPair(d, 1, 2);
  }

  lemma CheaterPasts(d: Dag)
    requires d == CheaterAsParent()
    ensures Past(d, 1) == {1} && Past(d, 2) == {2} && Past(d, 3) == {1, 2, 3} && Past(d, 4) == {1, 2, 3, 4}
  {
    hide WellFormed;
    hide Past;
    NoParents(d, 1);
    NoParents(d, 2);
    TwoParents(d, 3, 1, 2);
    TwoParents(d, 4, 3, 1);
  }

  lemma NoParents(d: Dag, a: EventId)
    requires a in d && d[a].parents == []
    ensures Past(d, a) == {a}
  {
    PastUnfold(d, a);
  }

  lemma NoPast(d: Dag)
    ensures PastOf(d, []) == {}
  {}

  lemma TwoParents(d: Dag, a: EventId, p: EventId, q: EventId)
    requires a in d && p in d && q in d && d[a].parents == [p, q]
    ensures Past(d, a) == {a} + Past(d, p) + Past(d, q)
  {
    hide Past;
    hide PastOf;
    hide WellFormed;
    PastUnfold(d, a);
    assert PastOf(d, []) == {} by {
      NoPast(d);
    }
    PastOfSnoc(d, [], p);
    PastOfSnoc(d, [p], q);
    assert [] + [p] == [p] && [p] + [q] == [p, q];
  }

  /** Only the root of validator 1, no quorum, can forkless-cause the event. */
  lemma RefusedIsPrepared(d: Dag)
    requires d == CheaterAsParent()
    ensures Prepared(d, CHEATER_STAKES, {1, 2, 3}, 4, 1, false)
  {
    hide WellFormed;
    hide SeesFork;
    hide StakeOf;
    hide Supporters;
    var parents := d[4].parents;
    assert parents[0] == 3;
    SeesBothBranches(d);
    var who := SeenCreators(d, CHEATER_STAKES, 4, RootsAt(d, {1, 2, 3}, 1));
    assert 0 !in who;
    CheaterQuorum(who);
  }

  lemma CheaterQuorum(who: set<nat>)
    requires 0 !in who
    ensures StakeOf(CHEATER_STAKES, who) < Quorum(CHEATER_STAKES)
  {
    var all := Everyone(CHEATER_STAKES);
    assert StakeUpTo(CHEATER_STAKES, who, 1) == 0;
    assert StakeUpTo(CHEATER_STAKES, all, 1) == 5;
  }

  lemma CheaterMedians(d: Dag)
    requires d == CheaterAsParent()
    ensures forall id | 1 <= id <= 4 :: IsMedianTime(d, CHEATER_STAKES, id, 0, d[id].medianTime)
  {
    hide WellFormed;
    hide Past;
    hide IsMedianTime;
    CheaterPasts(d);
    assert ForkPair(d, 1, 2);
    FirstMedian(d, 1);
    FirstMedian(d, 2);
    ForkedMedian(d, 3, 3);
    ForkedMedian(d, 4, 3);
  }

  /** A first event of validator 0 that observes nothing else. */
  lemma FirstMedian(d: Dag, id: EventId)
    requires id in d && Past(d, id) == {id} && d[id].creator == 0 && d[id].seqNo == 1 && d[id].claimedTime > 0
    ensures IsMedianTime(d, CHEATER_STAKES, id, 0, d[id].claimedTime)
  {
    hide Past;
    hide WellFormed;
    hide IsMedian;
    var t := d[id].claimedTime;
    var ms, mt := [BranchSeq(1, 1), BranchSeq(0, 0)], [t, 0];
    assert id in ByCreator(d, {id}, 0);
    assert CreatorRange(d, {id}, 0, ms[0], mt[0]) && CreatorRange(d, {id}, 1, ms[1], mt[1]);
    assert MergedExact(d, 2, Past(d, id), ms, mt);
    MedianOfTwo(Reading(5, t), Reading(2, 0), t);
    assert Readings(CHEATER_STAKES, ms, mt, 0) == [Reading(5, t), Reading(2, 0)];
  }

  /** An event of validator 1 that observes a fork of validator 0. */
  lemma ForkedMedian(d: Dag, id: EventId, first: EventId)
    requires id in d && d[id].creator == 1 && d[id].seqNo >= 1 && d[id].claimedTime > 0
    requires ForkIn(d, Past(d, id), 0) && ByCreator(d, Past(d, id), 1) == {first, id}
    requires d[first].seqNo == 1 && (d[id].seqNo == 1 ==> first == id)
    ensures IsMedianTime(d, CHEATER_STAKES, id, 0, d[id].claimedTime)
  {
    hide Past;
    hide WellFormed;
    hide IsMedian;
    var past, t := Past(d, id), d[id].claimedTime;
    var ms, mt := [FORK_DETECTED, BranchSeq(d[id].seqNo, 1)], [0, t];
    assert first in ByCreator(d, past, 1) && id in ByCreator(d, past, 1);
    assert forall x | x in past && d[x].creator == 1 :: x in ByCreator(d, past, 1);
    assert CreatorRange(d, past, 0, ms[0], mt[0]) && CreatorRange(d, past, 1, ms[1], mt[1]);
    assert MergedExact(d, 2, past, ms, mt);
    MedianOfTwo(Reading(2, t), Reading(0, 0), t);
    assert Readings(CHEATER_STAKES, ms, mt, 0) == [Reading(0, 0), Reading(2, t)];
  }

  /** The later of two readings is their median if it is the heavier by far. */
  lemma MedianOfTwo(x: Reading, y: Reading, m: nat)
    requires y.time < x.time == m && y.stake + 2 <= x.stake
    ensures IsMedian([x, y], m) && IsMedian([y, x], m)
  {
    TwoReadings(x, y, m);
    TwoReadings(x, y, y.time);
    TwoReadings(y, x, m);
    TwoReadings(y, x, y.time);
    assert [x, y][0].time == m && [y, x][1].time == m;
  }

  lemma TwoReadings(x: Reading, y: Reading, t: nat)
    ensures StakeSum([x, y]) == x.stake + y.stake
    ensures StakeBy([x, y], t) == (if x.time <= t then x.stake else 0) + if y.time <= t then y.stake else 0
  {
    var es, one := [x, y], [x];
    assert es[..|es| - 1] == one && one[..|one| - 1] == [];
    assert StakeSum(one) == x.stake;
    assert StakeBy(one, t) == if x.time <= t then x.stake else 0;
  }
}
