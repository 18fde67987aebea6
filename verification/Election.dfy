/**
 The election of an Atropos: the votes a node stores as it processes roots, and the
 decision it draws from them.
 */
module Election {
  import opened Common
  import opened Dag
  import opened Stake
  import opened ForklessCause
  import opened Frames
  import opened Votes
  import opened Atropos
  import opened ElectionState
  import IndexTables
  import opened VectorIndex

  class Voting {
    const stakes: seq<nat>
    const totalStake: nat
    var frameToDecide: nat
    var votes: map<(EventId, nat), VoteValue>
    /** The subjects decided so far. */
    var decidedRoots: map<nat, VoteValue>
    /** The roots above the frame processed since the last reset. */
    ghost var processed: set<EventId>

    /** Unless forks exceed the fault bound, everything stored is true of the graph. */
    ghost predicate Valid(d: Dag, ids: set<EventId>)
      reads this
    {
      && ids <= d.Keys
      && totalStake == Total(stakes)
      && frameToDecide >= 1
      && KnownRoots(ids, votes, decidedRoots)
      && (World(d, stakes, ids) ==> Sound(d, ids))
    }

    ghost predicate Sound(d: Dag, ids: set<EventId>)
      requires ids <= d.Keys
      reads this
    {
      && VotesOk(d, stakes, ids, frameToDecide, votes)
      && DecisionsOk(d, stakes, ids, frameToDecide, decidedRoots)
      && Complete(|stakes|, processed, votes, decidedRoots)
      && NoneMissed(d, stakes, frameToDecide, processed, decidedRoots)
    }

    constructor (stakes: seq<nat>, totalStake: nat, frame: nat, ghost d: Dag, ghost ids: set<EventId>)
      requires totalStake == Total(stakes) && frame >= 1 && ids <= d.Keys
      ensures Valid(d, ids) && this.stakes == stakes
      ensures frameToDecide == frame && votes == map[] && decidedRoots == map[] && processed == {}
    {
      this.stakes := stakes;
      this.totalStake := totalStake;
      frameToDecide := frame;
      votes := map[];
      decidedRoots := map[];
      processed := {};
    }

    /** Starts the election of another frame. */
    method Reset(frame: nat, ghost d: Dag, ghost ids: set<EventId>)
      requires totalStake == Total(stakes) && frame >= 1 && ids <= d.Keys
      modifies this
      ensures Valid(d, ids)
      ensures frameToDecide == frame && votes == map[] && decidedRoots == map[] && processed == {}
    {
      frameToDecide := frame;
      votes := map[];
      decidedRoots := map[];
      processed := {};
    }

    /** The root of the first validator decided yes, if everyone before it is decided no. */
    method ChooseAtropos(ghost d: Dag, ghost ids: set<EventId>) returns (res: Outcome)
      requires Valid(d, ids)
      ensures res.Decided? ==> res.frame == frameToDecide && res.atropos in ids
      ensures res.Undecided? ==> StillOpen(|stakes|, decidedRoots)
      ensures World(d, stakes, ids) ==>
                && (res.Decided? ==> Elected(d, stakes, ids, frameToDecide, res.atropos))
                && (res.Failed? ==> |stakes| == 0)
    {
      hide World;
      hide VotesOk;
      hide DecisionsOk;
      hide Elected;
      hide Complete;
      hide NoneMissed;
      for v := 0 to |stakes|
        invariant AllNo(decidedRoots, v)
      {
        if v !in decidedRoots {
          return Undecided;
        }
        if decidedRoots[v].yes {
          if World(d, stakes, ids) {
            ChoiceIsElected(d, stakes, ids, frameToDecide, decidedRoots, v);
          }
          match decidedRoots[v].observedRoot
          case Some(x) => return Decided(frameToDecide, x);
          case None => return Failed;
        }
      }
      if World(d, stakes, ids) && |stakes| > 0 {
        NotAllNo(d, stakes, ids, frameToDecide, decidedRoots);
      }
      return Failed;
    }

    /** Counts the votes the listed roots stored on a subject. Fails on the errors that only forks
        beyond the fault bound can cause, and on votes missing because of a wrong order. */
    method CountVotes(r: EventId, observed: seq<RootSlot>, v: nat, ghost d: Dag, ghost ids: set<EventId>)
      returns (ok: bool, vote: VoteValue)
      requires Valid(d, ids) && v < |stakes|
      requires r in ids && d[r].isRoot && d[r].frame >= frameToDecide + 2
      requires SlotsOk(d, d[r].frame - 1, observed) && Ids(observed) == Electors(d, stakes, r)
      requires forall i | 0 <= i < |observed| :: observed[i].validator < |stakes|
      requires World(d, stakes, ids) ==> forall i | 0 <= i < |observed| :: (observed[i].id, v) in votes
      ensures ok ==> KnownRoot(ids, vote.observedRoot)
      ensures World(d, stakes, ids) ==>
                && ok && VoteOk(d, stakes, ids, frameToDecide, r, v, vote)
                && (vote.decided ==> Decides(d, stakes, frameToDecide, r, v, vote.yes))
                && (!vote.decided ==> !Settles(d, stakes, frameToDecide, r, v))
    {
      hide World;
      hide VisibleRoots;
      hide VoteOk;
      hide DecisionsOk;
      hide Tallying;
      hide Decides;
      hide Settles;
      hide SlotsOk;
      hide Ids;
      vote := VoteValue(false, false, None);
      ghost var f, world := frameToDecide, World(d, stakes, ids);
      var tally := new Tally(stakes, totalStake);
      var subject: Option<EventId> := None;
      TallyingStart(d, stakes, ids, f, observed, v);
      for i := 0 to |observed|
        invariant fresh(tally.yes) && fresh(tally.no) && fresh(tally.all)
        invariant fresh(tally.yes.already) && fresh(tally.no.already) && fresh(tally.all.already)
        invariant tally.Valid() && tally.stakes == stakes && KnownRoot(ids, subject)
        invariant world ==> Tallying(d, stakes, ids, f, observed, i, v,
                                     tally.yes.Counted(), tally.no.Counted(), tally.all.Counted(), subject)
      {
        if (observed[i].id, v) !in votes {
          return false, vote;
        }
        var his := votes[(observed[i].id, v)];
        if world {
          TallyingStep(d, stakes, ids, f, r, d[r].frame - 1, observed, i, v,
                       tally.yes.Counted(), tally.no.Counted(), tally.all.Counted(), subject, his);
        }
        if his.yes && subject.Some? && subject != his.observedRoot {
          return false, vote;
        }
        if his.yes {
          subject := his.observedRoot;
        }
        var first := tally.Count(observed[i].validator, his.yes);
        if !first {
          return false, vote;
        }
      }
      if world {
        TallyingEnd(d, stakes, ids, f, r, observed, v,
                    tally.yes.Counted(), tally.no.Counted(), tally.all.Counted(), subject);
      }
      var quorum := tally.all.HasQuorum();
      if !quorum {
        return false, vote;
      }
      var yesQuorum := tally.yes.HasQuorum();
      var noQuorum := tally.no.HasQuorum();
      var yes := tally.yes.sum >= tally.no.sum;
      vote := VoteValue(yesQuorum || noQuorum, yes, if yes then subject else None);
      ok := true;
      if world {
        VoteIs(d, stakes, ids, f, r, v, vote);
      }
    }

    /** The roots of a list that forkless-cause a root. */
    static method ObservedRoots(index: Index, root: EventId, frameRoots: seq<RootSlot>, g: nat)
      returns (observed: seq<RootSlot>)
      requires index.Valid() && root in index.db.branchOf
      requires SlotsOk(index.d, g, frameRoots)
      requires forall i | 0 <= i < |frameRoots| :: frameRoots[i].id in index.db.branchOf
      modifies index`bi, index`causeCache
      ensures index.Valid() && root in index.d
      ensures SlotsOk(index.d, g, observed)
      ensures Ids(observed) == Caused(index.d, index.stakes, root, Ids(frameRoots))
    {
      hide ForklessCauses;
      hide Index.Valid;
      IndexKnowsEvent(index, root);
      observed := [];
      for i := 0 to |frameRoots|
        invariant index.Valid() && SlotsOk(index.d, g, observed)
        invariant forall j | 0 <= j < |frameRoots| :: frameRoots[j].id in index.db.branchOf
        invariant Ids(observed) == Caused(index.d, index.stakes, root, Ids(frameRoots[..i]))
      {
        SlotsTake(index.d, g, frameRoots, i);
        TakeSnoc(frameRoots, i);
        IdsSnoc(frameRoots[..i], frameRoots[i]);
        var yes := index.ForklessCause(root, frameRoots[i].id);
        if yes {
          SlotsSnoc(index.d, g, observed, frameRoots[i]);
          IdsSnoc(observed, frameRoots[i]);
          observed := observed + [frameRoots[i]];
        }
      }
      TakeAll(frameRoots);
    }

    /** The same by validator; of two roots of one validator the later in the list wins. */
    static method ObservedRootsMap(index: Index, root: EventId, frameRoots: seq<RootSlot>, g: nat)
      returns (m: map<nat, RootSlot>)
      requires index.Valid() && root in index.db.branchOf
      requires SlotsOk(index.d, g, frameRoots)
      requires forall i | 0 <= i < |frameRoots| :: frameRoots[i].id in index.db.branchOf
      modifies index`bi, index`causeCache
      ensures index.Valid() && root in index.d
      ensures MapsCaused(index.d, index.stakes, root, Ids(frameRoots), m)
    {
      hide ForklessCauses;
      hide Index.Valid;
      IndexKnowsEvent(index, root);
      m := map[];
      for i := 0 to |frameRoots|
        invariant index.Valid()
        invariant forall j | 0 <= j < |frameRoots| :: frameRoots[j].id in index.db.branchOf
        invariant MapsCaused(index.d, index.stakes, root, Ids(frameRoots[..i]), m)
      {
        SlotsTake(index.d, g, frameRoots, i);
        TakeSnoc(frameRoots, i);
        IdsSnoc(frameRoots[..i], frameRoots[i]);
        var yes := index.ForklessCause(root, frameRoots[i].id);
        MapsCausedNext(index.d, index.stakes, root, Ids(frameRoots[..i]), m, g, frameRoots[i]);
        if yes {
          m := m[frameRoots[i].validator := frameRoots[i]];
        }
      }
      TakeAll(frameRoots);
    }

    /** The subjects without a decision, in the order of validators. */
    method NotDecidedRoots() returns (open: seq<nat>)
      ensures forall v: nat :: v in open <==> v < |stakes| && v !in decidedRoots
      ensures forall i, j | 0 <= i < j < |open| :: open[i] != open[j]
    {
      open := [];
      for v := 0 to |stakes|
        invariant forall u: nat :: u in open <==> u < v && u !in decidedRoots
        invariant forall i | 0 <= i < |open| :: open[i] < v
        invariant forall i, j | 0 <= i < j < |open| :: open[i] < open[j]
      {
        if v !in decidedRoots {
          open := open + [v];
        }
      }
    }

    /** Stores a vote, and the decision if it makes one. */
    method StoreVote(r: EventId, v: nat, vote: VoteValue, ghost d: Dag, ghost ids: set<EventId>)
      requires Valid(d, ids) && KnownRoot(ids, vote.observedRoot)
      requires World(d, stakes, ids) ==>
                 && VoteOk(d, stakes, ids, frameToDecide, r, v, vote)
                 && (vote.decided ==> r in d && Decides(d, stakes, frameToDecide, r, v, vote.yes))
      modifies this`votes, this`decidedRoots
      ensures Valid(d, ids)
      ensures votes == old(votes)[(r, v) := vote]
      ensures decidedRoots == if vote.decided then old(decidedRoots)[v := vote] else old(decidedRoots)
    {
      hide World;
      hide VoteOk;
      hide VotesOk;
      hide DecisionsOk;
      hide Settles;
      if World(d, stakes, ids) {
        VoteStored(d, stakes, ids, frameToDecide, votes, r, v, vote);
        if vote.decided {
          DecisionStored(d, stakes, ids, frameToDecide, decidedRoots, r, v, vote);
        }
      }
      if vote.decided {
        decidedRoots := decidedRoots[v := vote];
      }
      votes := votes[(r, v) := vote];
    }

    /** What processing a root demands: it and the roots of the frame below are known, and those
        of the frame below were processed before. */
    ghost predicate CanProcess(d: Dag, ids: set<EventId>, newRoot: RootSlot, frameRoots: seq<RootSlot>)
      requires ids <= d.Keys
      reads this
    {
      && ids <= d.Keys && Closed(d, ids) && newRoot.id in ids && newRoot.frame >= 1 && SlotOk(d, newRoot.frame, newRoot)
      && SlotsOk(d, newRoot.frame - 1, frameRoots) && Ids(frameRoots) == RootsAt(d, ids, newRoot.frame - 1)
      && (forall i | 0 <= i < |frameRoots| :: frameRoots[i].validator < |stakes|)
      && (newRoot.frame - 1 > frameToDecide ==> Ids(frameRoots) <= processed)
    }

    /** The vote of a first-round root on one subject: yes with the root observed in its slot. */
    method VoteFromMap(r: EventId, v: nat, m: map<nat, RootSlot>, ghost d: Dag, ghost ids: set<EventId>,
                       ghost roots: set<EventId>)
      requires Valid(d, ids) && ids <= d.Keys && v < |stakes|
      requires r in ids && d[r].isRoot && d[r].frame == frameToDecide + 1
      requires MapsCaused(d, stakes, r, roots, m) && roots == RootsAt(d, ids, frameToDecide)
      requires Caused(d, stakes, r, roots) == VisibleRoots(d, stakes, r, frameToDecide)
      modifies this`votes, this`decidedRoots
      ensures Valid(d, ids)
      ensures votes.Keys == old(votes.Keys) + {(r, v)} && decidedRoots == old(decidedRoots)
    {
      hide World;
      hide VisibleRoots;
      hide MapsCaused;
      hide VoteOk;
      hide Valid;
      var vote := if v in m then VoteValue(false, true, Some(m[v].id)) else VoteValue(false, false, None);
      MappedRootKnown(d, stakes, ids, frameToDecide, r, v, roots, m);
      MappedVoteOk(d, stakes, ids, frameToDecide, r, v, roots, m, vote);
      StoreVote(r, v, vote, d, ids);
    }

    /** The votes of a root of the first round. */
    method VoteFirstRound(newRoot: RootSlot, frameRoots: seq<RootSlot>, open: seq<nat>, index: Index)
      requires index.Valid() && Valid(index.d, index.db.branchOf.Keys) && stakes == index.stakes
      requires CanProcess(index.d, index.db.branchOf.Keys, newRoot, frameRoots)
      requires newRoot.frame == frameToDecide + 1
      requires forall v | v in open :: v < |stakes|
      modifies this`votes, this`decidedRoots, index`bi, index`causeCache
      ensures index.Valid() && Valid(index.d, index.db.branchOf.Keys)
      ensures VotedUpTo(newRoot.id, open, |open|, votes) && decidedRoots == old(decidedRoots)
    {
      hide World;
      hide VisibleRoots;
      hide Index.Valid;
      hide Valid;
      hide MapsCaused;
      hide VoteOk;
      hide Ids;
      hide SlotsOk;
      hide Caused;
      hide RootsAt;
      hide Closed;
      ghost var d, ids := index.d, index.db.branchOf.Keys;
      SlotsAreKnown(d, ids, newRoot.frame - 1, frameRoots);
      CausedAreVisible(d, stakes, ids, newRoot.id, newRoot.frame - 1);
      var m := ObservedRootsMap(index, newRoot.id, frameRoots, newRoot.frame - 1);
      for k := 0 to |open|
        invariant Valid(d, ids) && index.Valid() && index.db.branchOf.Keys == ids
        invariant VotedUpTo(newRoot.id, open, k, votes) && decidedRoots == old(decidedRoots)
      {
        var v := open[k];
        assert v in open;
        VoteFromMap(newRoot.id, v, m, d, ids, Ids(frameRoots));
      }
    }

    /** The vote of a later-round root on one subject. */
    method VoteOn(r: EventId, observed: seq<RootSlot>, v: nat, ghost d: Dag, ghost ids: set<EventId>) returns (ok: bool)
      requires Valid(d, ids) && v < |stakes| && v !in decidedRoots
      requires r in ids && d[r].isRoot && d[r].frame >= frameToDecide + 2
      requires SlotsOk(d, d[r].frame - 1, observed) && Ids(observed) == VisibleRoots(d, stakes, r, d[r].frame - 1)
      requires forall i | 0 <= i < |observed| :: observed[i].id in processed && observed[i].validator < |stakes|
      modifies this`votes, this`decidedRoots
      ensures Valid(d, ids)
      ensures World(d, stakes, ids) ==> ok && (v in decidedRoots || !Settles(d, stakes, frameToDecide, r, v))
      ensures ok ==> (r, v) in votes
      ensures forall x, u | (x, u) in old(votes) :: (x, u) in votes
      ensures forall u | u in old(decidedRoots) :: u in decidedRoots
      ensures forall u | u in decidedRoots :: u in old(decidedRoots) || u == v
    {
      hide World;
      hide VisibleRoots;
      hide VoteOk;
      hide VotesOk;
      hide DecisionsOk;
      hide Decides;
      hide Settles;
      hide Complete;
      hide NoneMissed;
      hide Ids;
      hide SlotsOk;
      if World(d, stakes, ids) {
        VotesPresent(|stakes|, processed, votes, decidedRoots, observed, v);
      }
      var good, vote := CountVotes(r, observed, v, d, ids);
      if !good {
        return false;
      }
      StoreVote(r, v, vote, d, ids);
      return true;
    }

    /** The votes of a root of a later round; false if the votes below contradict each other. */
    method VoteLaterRound(newRoot: RootSlot, frameRoots: seq<RootSlot>, open: seq<nat>, index: Index) returns (ok: bool)
      requires index.Valid() && Valid(index.d, index.db.branchOf.Keys) && stakes == index.stakes
      requires CanProcess(index.d, index.db.branchOf.Keys, newRoot, frameRoots)
      requires newRoot.frame >= frameToDecide + 2
      requires forall v | v in open :: v < |stakes| && v !in decidedRoots
      requires forall i, j | 0 <= i < j < |open| :: open[i] != open[j]
      modifies this`votes, this`decidedRoots, index`bi, index`causeCache
      ensures index.Valid() && Valid(index.d, index.db.branchOf.Keys)
      ensures World(index.d, stakes, index.db.branchOf.Keys) ==>
                ok && SettledUpTo(index.d, stakes, frameToDecide, newRoot.id, open, |open|, decidedRoots)
      ensures ok ==> VotedUpTo(newRoot.id, open, |open|, votes)
      ensures forall v | v in old(decidedRoots) :: v in decidedRoots
    {
      hide World;
      hide VisibleRoots;
      hide Index.Valid;
      hide VoteOk;
      hide VotesOk;
      hide DecisionsOk;
      hide Decides;
      hide Settles;
      hide Complete;
      hide NoneMissed;
      hide Ids;
      hide SlotsOk;
      hide Caused;
      hide RootsAt;
      hide Closed;
      hide Valid;
      ghost var d, ids := index.d, index.db.branchOf.Keys;
      SlotsAreKnown(d, ids, newRoot.frame - 1, frameRoots);
      CausedAreVisible(d, stakes, ids, newRoot.id, newRoot.frame - 1);
      var observed := ObservedRoots(index, newRoot.id, frameRoots, newRoot.frame - 1);
      ObservedVoted(d, stakes, ids, newRoot.id, newRoot.frame - 1, frameRoots, observed, processed);
      assert Ids(observed) == VisibleRoots(d, stakes, newRoot.id, newRoot.frame - 1);
      for k := 0 to |open|
        invariant Valid(d, ids) && index.Valid() && index.db.branchOf.Keys == ids
        invariant VotedUpTo(newRoot.id, open, k, votes)
        invariant World(d, stakes, ids) ==> SettledUpTo(d, stakes, frameToDecide, newRoot.id, open, k, decidedRoots)
        invariant forall j | k <= j < |open| :: open[j] !in decidedRoots
        invariant forall v | v in old(decidedRoots) :: v in decidedRoots
      {
        var v := open[k];
        assert v in open;
        var good := VoteOn(newRoot.id, observed, v, d, ids);
        if !good {
          return false;
        }
      }
      ok := true;
    }

    /** Calculates the votes of a new root. If it observes that the election is decided, returns
        the Atropos. */
    method ProcessRoot(newRoot: RootSlot, frameRoots: seq<RootSlot>, index: Index) returns (res: Outcome)
      requires index.Valid() && Valid(index.d, index.db.branchOf.Keys) && stakes == index.stakes
      requires CanProcess(index.d, index.db.branchOf.Keys, newRoot, frameRoots)
      modifies this`votes, this`decidedRoots, this`processed, index`bi, index`causeCache
      ensures index.Valid() && Valid(index.d, index.db.branchOf.Keys)
      ensures res.Decided? ==> res.frame == frameToDecide && res.atropos in index.db.branchOf
      ensures World(index.d, stakes, index.db.branchOf.Keys) ==>
                && (res.Decided? ==> Elected(index.d, stakes, index.db.branchOf.Keys, frameToDecide, res.atropos))
                && (res.Failed? ==> |stakes| == 0)
      ensures res.Undecided? ==> StillOpen(|stakes|, decidedRoots)
      ensures res.Undecided? ==>
                processed == if newRoot.frame > frameToDecide then old(processed) + {newRoot.id} else old(processed)
    {
      hide World;
      hide Index.Valid;
      hide VotesOk;
      hide DecisionsOk;
      hide Complete;
      hide NoneMissed;
      hide Elected;
      hide SlotsOk;
      hide Ids;
      ghost var d, ids := index.d, index.db.branchOf.Keys;
      res := ChooseAtropos(d, ids);
      if !res.Undecided? {
        return;
      }
      if newRoot.frame <= frameToDecide {
        return Undecided;
      }
      var open := NotDecidedRoots();
      if newRoot.frame == frameToDecide + 1 {
        VoteFirstRound(newRoot, frameRoots, open, index);
        FirstRoundSettlesNone(d, stakes, frameToDecide, newRoot.id, open, decidedRoots);
      } else {
        var ok := VoteLaterRound(newRoot, frameRoots, open, index);
        if !ok {
          return Failed;
        }
      }
      if World(d, stakes, ids) {
        CompleteWith(|stakes|, processed, votes, decidedRoots, newRoot.id, open);
        NoneMissedWith(d, stakes, frameToDecide, processed, decidedRoots, newRoot.id, open);
      }
      processed := processed + {newRoot.id};
      res := ChooseAtropos(d, ids);
    }
  }

  /** The three counters of one subject. */
  class Tally {
    const yes: StakeCounter
    const no: StakeCounter
    const all: StakeCounter
    const stakes: seq<nat>

    ghost predicate Valid()
      reads this, yes, no, all, yes.already, no.already, all.already
    {
      && yes.Valid() && no.Valid() && all.Valid()
      && yes.stakes == no.stakes == all.stakes == stakes
      && yes != no && no != all && yes != all
      && yes.already != no.already && no.already != all.already && yes.already != all.already
    }

    constructor (stakes: seq<nat>, totalStake: nat)
      requires totalStake == Total(stakes)
      ensures Valid() && this.stakes == stakes
      ensures fresh(yes) && fresh(no) && fresh(all) && fresh(yes.already) && fresh(no.already) && fresh(all.already)
      ensures yes.Counted() == {} && no.Counted() == {} && all.Counted() == {}
    {
      this.stakes := stakes;
      yes := new StakeCounter(stakes, totalStake);
      no := new StakeCounter(stakes, totalStake);
      all := new StakeCounter(stakes, totalStake);
    }

    /** Counts a validator's vote; false if it was counted before. */
    method Count(validator: nat, isYes: bool) returns (first: bool)
      requires Valid() && validator < |stakes|
      modifies yes, no, all, yes.already, no.already, all.already
      ensures Valid()
      ensures yes.Counted() == if isYes then old(yes.Counted()) + {validator} else old(yes.Counted())
      ensures no.Counted() == if isYes then old(no.Counted()) else old(no.Counted()) + {validator}
      ensures all.Counted() == old(all.Counted()) + {validator}
      ensures first == (validator !in old(all.Counted()))
    {
      if isYes {
        var _ := yes.CountByIdx(validator);
      } else {
        var _ := no.CountByIdx(validator);
      }
      first := all.CountByIdx(validator);
    }
  }

  /** The events of `ids` that forkless-cause `a`. */
  ghost function Caused(d: Dag, stakes: seq<nat>, a: EventId, ids: set<EventId>): (caused: set<EventId>)
    requires a in d
  {
    set x | x in ids && x in d && ForklessCauses(d, stakes, a, x)
  }

  lemma IndexKnowsEvent(index: Index, a: EventId)
    requires index.Valid() && a in index.db.branchOf
    ensures a in index.d
  {
    IndexTables.EventPlaced(index.d, |index.stakes|, index.db, index.Current(), a);
  }

  /** The map holds exactly the validators with a root that forkless-causes `a`, each with such a root. */
  ghost predicate MapsCaused(d: Dag, stakes: seq<nat>, a: EventId, ids: set<EventId>, m: map<nat, RootSlot>)
    requires a in d
  {
    && (forall v {:trigger m[v]} | v in m :: m[v].id in Caused(d, stakes, a, ids) && d[m[v].id].creator == v)
    && (forall x | x in Caused(d, stakes, a, ids) :: d[x].creator in m)
  }

  lemma MapsCausedNext(d: Dag, stakes: seq<nat>, a: EventId, ids: set<EventId>, m: map<nat, RootSlot>, g: nat,
                       s: RootSlot)
    requires a in d && MapsCaused(d, stakes, a, ids, m) && SlotOk(d, g, s)
    ensures MapsCaused(d, stakes, a, ids + {s.id},
                       if ForklessCauses(d, stakes, a, s.id) then m[s.validator := s] else m)
  {
    hide ForklessCauses;
  }

  /** Among all accepted roots of a frame, those that forkless-cause `a` are its visible roots. */
  lemma CausedAreVisible(d: Dag, stakes: seq<nat>, ids: set<EventId>, a: EventId, g: nat)
    requires Closed(d, ids) && a in ids
    ensures Caused(d, stakes, a, RootsAt(d, ids, g)) == VisibleRoots(d, stakes, a, g)
  {
    hide ForklessCauses;
    ClosedHoldsPast(d, ids, a);
    forall x | x in Caused(d, stakes, a, RootsAt(d, ids, g))
      ensures x in Past(d, a)
    {
      CausedIsObserved(d, stakes, a, x);
    }
  }

  lemma SlotsAreKnown(d: Dag, ids: set<EventId>, g: nat, slots: seq<RootSlot>)
    requires ids <= d.Keys && Ids(slots) == RootsAt(d, ids, g)
    ensures forall i | 0 <= i < |slots| :: slots[i].id in ids
  {
    forall i | 0 <= i < |slots|
      ensures slots[i].id in ids
    {
      assert slots[i].id in Ids(slots);
    }
  }

  /** The observed roots are among the processed ones, and their validators are in the group. */
  lemma ObservedVoted(d: Dag, stakes: seq<nat>, ids: set<EventId>, r: EventId, g: nat, frameRoots: seq<RootSlot>,
                      observed: seq<RootSlot>, processed: set<EventId>)
    requires ids <= d.Keys && r in ids && SlotsOk(d, g, frameRoots) && SlotsOk(d, g, observed)
    requires Ids(observed) == Caused(d, stakes, r, Ids(frameRoots)) && Ids(frameRoots) <= processed
    requires forall i | 0 <= i < |frameRoots| :: frameRoots[i].validator < |stakes|
    ensures forall i | 0 <= i < |observed| :: observed[i].id in processed && observed[i].validator < |stakes|
  {
    hide ForklessCauses;
    forall i | 0 <= i < |observed|
      ensures observed[i].id in processed && observed[i].validator < |stakes|
    {
      assert observed[i].id in Ids(observed);
      var j :| 0 <= j < |frameRoots| && frameRoots[j].id == observed[i].id;
      assert SlotOk(d, g, frameRoots[j]) && SlotOk(d, g, observed[i]);
    }
  }

  /** The first-round vote read off the map of observed roots. */
  lemma MappedVoteOk(d: Dag, stakes: seq<nat>, ids: set<EventId>, f: nat, r: EventId, v: nat, roots: set<EventId>,
                     m: map<nat, RootSlot>, vote: VoteValue)
    requires ids <= d.Keys && r in ids && d[r].isRoot && d[r].frame == f + 1 && v < |stakes|
    requires MapsCaused(d, stakes, r, roots, m) && Caused(d, stakes, r, roots) == VisibleRoots(d, stakes, r, f)
    requires vote == if v in m then VoteValue(false, true, Some(m[v].id)) else VoteValue(false, false, None)
    ensures VoteOk(d, stakes, ids, f, r, v, vote)
  {
    hide VisibleRoots;
    hide Caused;
    FirstVoteOk(d, stakes, ids, f, r, v, vote);
  }

  lemma MappedRootKnown(d: Dag, stakes: seq<nat>, ids: set<EventId>, g: nat, r: EventId, v: nat, roots: set<EventId>,
                        m: map<nat, RootSlot>)
    requires ids <= d.Keys && r in ids && MapsCaused(d, stakes, r, roots, m) && roots == RootsAt(d, ids, g)
    ensures v in m ==> m[v].id in ids
  {
    hide ForklessCauses;
  }

  lemma VotesPresent(n: nat, processed: set<EventId>, votes: map<(EventId, nat), VoteValue>,
                     decided: map<nat, VoteValue>, observed: seq<RootSlot>, v: nat)
    requires Complete(n, processed, votes, decided) && v < n && v !in decided
    requires forall i | 0 <= i < |observed| :: observed[i].id in processed
    ensures forall i | 0 <= i < |observed| :: (observed[i].id, v) in votes
  {}
}
