/**
 The state of an election on a node: what stored votes and decisions mean, and how lists
 of roots relate to the votes they carry.
 */
module ElectionState {
  import opened Common
  import opened Dag
  import opened Stake
  import opened Frames
  import opened Votes
  import opened Atropos

  /** A root and the slot it occupies. */
  datatype RootSlot = RootSlot(id: EventId, frame: nat, validator: nat)

  /** A vote, with the root voted for if it is a yes. */
  datatype VoteValue = VoteValue(decided: bool, yes: bool, observedRoot: Option<EventId>)

  /** `Failed` stands for the errors that only forks beyond the fault bound can cause. */
  datatype Outcome = Undecided | Decided(frame: nat, atropos: EventId) | Failed

  // ---------- what the stored votes mean ----------

  ghost predicate VoteOk(d: Dag, stakes: seq<nat>, ids: set<EventId>, f: nat, r: EventId, v: nat, vote: VoteValue)
    requires ids <= d.Keys
  {
    && r in ids && d[r].isRoot && d[r].frame > f && v < |stakes|
    && vote.yes == VotesYes(d, stakes, f, r, v)
    && (vote.yes ==> vote.observedRoot.Some? && Candidate(d, stakes, ids, f, v, vote.observedRoot.value))
  }

  ghost predicate VotesOk(d: Dag, stakes: seq<nat>, ids: set<EventId>, f: nat, votes: map<(EventId, nat), VoteValue>)
    requires ids <= d.Keys
  {
    forall r, v {:trigger (r, v) in votes} | (r, v) in votes :: VoteOk(d, stakes, ids, f, r, v, votes[(r, v)])
  }

  ghost predicate DecisionOk(d: Dag, stakes: seq<nat>, ids: set<EventId>, f: nat, v: nat, vote: VoteValue)
    requires ids <= d.Keys
  {
    && v < |stakes| && DecidedBy(d, stakes, ids, f, v, vote.yes)
    && (vote.yes ==> vote.observedRoot.Some? && Candidate(d, stakes, ids, f, v, vote.observedRoot.value))
  }

  ghost predicate DecisionsOk(d: Dag, stakes: seq<nat>, ids: set<EventId>, f: nat, decided: map<nat, VoteValue>)
    requires ids <= d.Keys
  {
    forall v {:trigger decided[v]} | v in decided :: DecisionOk(d, stakes, ids, f, v, decided[v])
  }

  /** Every processed root above the frame has voted on every subject that is still open. */
  predicate Complete(n: nat, processed: set<EventId>, votes: map<(EventId, nat), VoteValue>,
                     decided: map<nat, VoteValue>)
  {
    forall r, v: nat {:trigger (r, v) in votes} | r in processed && v < n && v !in decided :: (r, v) in votes
  }

  /** Root `r` decides the subject one way or the other. */
  ghost predicate Settles(d: Dag, stakes: seq<nat>, f: nat, r: EventId, v: nat)
  {
    r in d && (Decides(d, stakes, f, r, v, true) || Decides(d, stakes, f, r, v, false))
  }

  /** No processed root decides a subject that is still open. */
  ghost predicate NoneMissed(d: Dag, stakes: seq<nat>, f: nat, processed: set<EventId>, decided: map<nat, VoteValue>)
  {
    forall r, v: nat {:trigger Settles(d, stakes, f, r, v)} | r in processed && v < |stakes| && v !in decided ::
      !Settles(d, stakes, f, r, v)
  }

  /** The first subject not decided no has no decision at all. */
  predicate StillOpen(n: nat, decided: map<nat, VoteValue>)
  {
    exists v: nat | v < n :: v !in decided && AllNo(decided, v)
  }

  /** An open election of which every known root was processed has no Atropos in the graph either. */
  lemma OpenMeansUndecided(d: Dag, stakes: seq<nat>, ids: set<EventId>, f: nat, processed: set<EventId>,
                           decided: map<nat, VoteValue>, x: EventId)
    requires World(d, stakes, ids) && ids <= d.Keys && DecisionsOk(d, stakes, ids, f, decided)
    requires NoneMissed(d, stakes, f, processed, decided) && StillOpen(|stakes|, decided)
    requires forall r | r in ids && d[r].isRoot && d[r].frame > f :: r in processed
    ensures !Elected(d, stakes, ids, f, x)
  {
    hide World;
    hide Candidate;
    if v: nat :| ElectedAt(d, stakes, ids, f, v, x) {
      var u: nat :| u < |stakes| && u !in decided && AllNo(decided, u);
      if v < u {
        assert DecisionOk(d, stakes, ids, f, v, decided[v]);
        NotDecidedBothWays(d, stakes, ids, ids, ids, f, v);
      } else {
        var yes := v == u;
        assert DecidedBy(d, stakes, ids, f, u, yes);
        var r :| r in ids && d[r].isRoot && Decides(d, stakes, f, r, u, yes);
        assert Settles(d, stakes, f, r, u);
      }
    }
  }

  /** A root voted for, if any, is among the known events. */
  predicate KnownRoot(ids: set<EventId>, root: Option<EventId>)
  {
    root.Some? ==> root.value in ids
  }

  predicate KnownRoots(ids: set<EventId>, votes: map<(EventId, nat), VoteValue>, decided: map<nat, VoteValue>)
  {
    && (forall k {:trigger votes[k]} | k in votes :: KnownRoot(ids, votes[k].observedRoot))
    && (forall v {:trigger decided[v]} | v in decided :: KnownRoot(ids, decided[v].observedRoot))
  }

  lemma CandidateGrows(d: Dag, stakes: seq<nat>, ids: set<EventId>, more: set<EventId>, f: nat, v: nat, x: EventId)
    requires ids <= more <= d.Keys && Candidate(d, stakes, ids, f, v, x)
    ensures Candidate(d, stakes, more, f, v, x)
  {
    hide VisibleRoots;
    var a :| a in ids && x in VisibleRoots(d, stakes, a, f);
    assert a in more;
  }

  lemma DecidedByGrows(d: Dag, stakes: seq<nat>, ids: set<EventId>, more: set<EventId>, f: nat, v: nat, yes: bool)
    requires ids <= more <= d.Keys && DecidedBy(d, stakes, ids, f, v, yes)
    ensures DecidedBy(d, stakes, more, f, v, yes)
  {
    hide Decides;
  }

  /** Votes and decisions stay right as more events become known. */
  lemma ElectionGrows(d: Dag, stakes: seq<nat>, ids: set<EventId>, more: set<EventId>, f: nat,
                      votes: map<(EventId, nat), VoteValue>, decided: map<nat, VoteValue>)
    requires ids <= more <= d.Keys
    requires VotesOk(d, stakes, ids, f, votes) && DecisionsOk(d, stakes, ids, f, decided)
    ensures VotesOk(d, stakes, more, f, votes) && DecisionsOk(d, stakes, more, f, decided)
  {
    hide VotesYes;
    hide Candidate;
    hide DecidedBy;
    forall r, v | (r, v) in votes
      ensures VoteOk(d, stakes, more, f, r, v, votes[(r, v)])
    {
      if votes[(r, v)].yes {
        CandidateGrows(d, stakes, ids, more, f, v, votes[(r, v)].observedRoot.value);
      }
    }
    forall v | v in decided
      ensures DecisionOk(d, stakes, more, f, v, decided[v])
    {
      DecidedByGrows(d, stakes, ids, more, f, v, decided[v].yes);
      if decided[v].yes {
        CandidateGrows(d, stakes, ids, more, f, v, decided[v].observedRoot.value);
      }
    }
  }

  /** All roots voted for in a slot are one. */
  lemma OneCandidate(d: Dag, stakes: seq<nat>, ids: set<EventId>, f: nat, v: nat, x: EventId, y: EventId)
    requires World(d, stakes, ids) && Candidate(d, stakes, ids, f, v, x) && Candidate(d, stakes, ids, f, v, y)
    ensures x == y
  {
    hide VisibleRoots;
    hide FaultBound;
    var a :| a in ids && x in VisibleRoots(d, stakes, a, f);
    var b :| b in ids && y in VisibleRoots(d, stakes, b, f);
    OneVisibleRoot(d, stakes, ids, a, b, f, x, y);
  }

  /** The decided subjects before `k` are all no. */
  predicate AllNo(decided: map<nat, VoteValue>, k: nat)
  {
    forall v: nat {:trigger v in decided} | v < k :: v in decided && !decided[v].yes
  }

  lemma ChoiceIsElected(d: Dag, stakes: seq<nat>, ids: set<EventId>, f: nat, decided: map<nat, VoteValue>, v: nat)
    requires ids <= d.Keys && DecisionsOk(d, stakes, ids, f, decided)
    requires AllNo(decided, v) && v in decided && decided[v].yes
    ensures decided[v].observedRoot.Some? && Elected(d, stakes, ids, f, decided[v].observedRoot.value)
  {
    hide DecidedBy;
    hide Candidate;
    assert DecisionOk(d, stakes, ids, f, v, decided[v]);
    forall u: nat | u < v
      ensures DecidedBy(d, stakes, ids, f, u, false)
    {
      assert DecisionOk(d, stakes, ids, f, u, decided[u]);
    }
    assert ElectedAt(d, stakes, ids, f, v, decided[v].observedRoot.value);
  }

  lemma NotAllNo(d: Dag, stakes: seq<nat>, ids: set<EventId>, f: nat, decided: map<nat, VoteValue>)
    requires World(d, stakes, ids) && DecisionsOk(d, stakes, ids, f, decided) && f >= 1 && |stakes| > 0
    ensures !AllNo(decided, |stakes|)
  {
    hide World;
    hide DecidedBy;
    WorldIsKnown(d, stakes, ids);
    NotAllDecidedNo(d, stakes, ids, f);
    var v: nat :| v < |stakes| && !DecidedBy(d, stakes, ids, f, v, false);
    if v in decided {
      assert DecisionOk(d, stakes, ids, f, v, decided[v]);
    }
  }

  // ---------- lists of roots ----------

  /** The slots describe distinct known roots of frame `g`. */
  ghost predicate SlotsOk(d: Dag, g: nat, slots: seq<RootSlot>)
  {
    && (forall i | 0 <= i < |slots| :: SlotOk(d, g, slots[i]))
    && (forall i, j | 0 <= i < j < |slots| :: slots[i].id != slots[j].id)
  }

  predicate Known(d: map<EventId, Event>, slots: seq<RootSlot>)
  {
    forall i | 0 <= i < |slots| :: slots[i].id in d
  }

  ghost predicate SlotOk(d: Dag, g: nat, s: RootSlot)
  {
    s.id in d && d[s.id].isRoot && d[s.id].frame == g == s.frame && d[s.id].creator == s.validator
  }

  ghost function Ids(slots: seq<RootSlot>): (ids: set<EventId>)
  {
    set i | 0 <= i < |slots| :: slots[i].id
  }

  lemma IdsSnoc(slots: seq<RootSlot>, s: RootSlot)
    ensures Ids(slots + [s]) == Ids(slots) + {s.id}
  {
    var all := slots + [s];
    assert forall i | 0 <= i < |slots| :: all[i] == slots[i];
    assert all[|slots|] == s;
  }

  lemma SlotsSnoc(d: Dag, g: nat, slots: seq<RootSlot>, s: RootSlot)
    requires SlotsOk(d, g, slots) && SlotOk(d, g, s) && s.id !in Ids(slots)
    ensures SlotsOk(d, g, slots + [s])
  {
    assert forall i | 0 <= i < |slots| :: slots[i].id in Ids(slots);
  }

  lemma SlotsTake(d: Dag, g: nat, slots: seq<RootSlot>, i: nat)
    requires SlotsOk(d, g, slots) && i < |slots|
    ensures SlotsOk(d, g, slots[..i]) && SlotOk(d, g, slots[i]) && slots[i].id !in Ids(slots[..i])
  {}

  /** The validators of the listed roots that vote as given. */
  ghost function Cast(d: Dag, stakes: seq<nat>, f: nat, slots: seq<RootSlot>, v: nat, yes: bool): (who: set<nat>)
    requires Known(d, slots)
  {
    set i | 0 <= i < |slots| && VotesYes(d, stakes, f, slots[i].id, v) == yes :: slots[i].validator
  }

  lemma CastSnoc(d: Dag, stakes: seq<nat>, f: nat, slots: seq<RootSlot>, s: RootSlot, v: nat, yes: bool)
    requires Known(d, slots) && s.id in d
    ensures Known(d, slots + [s])
    ensures Cast(d, stakes, f, slots + [s], v, yes) ==
            Cast(d, stakes, f, slots, v, yes) + if VotesYes(d, stakes, f, s.id, v) == yes then {s.validator} else {}
  {
    hide VotesYes;
    var all := slots + [s];
    assert forall i | 0 <= i < |slots| :: all[i] == slots[i];
    assert all[|slots|] == s;
  }

  /** If the list holds exactly the roots a root counts, their votes are its voters'. */
  lemma CastAreVoters(d: Dag, stakes: seq<nat>, f: nat, r: EventId, slots: seq<RootSlot>, v: nat, yes: bool)
    requires r in d && d[r].frame >= 1 && SlotsOk(d, d[r].frame - 1, slots) && Ids(slots) == Electors(d, stakes, r)
    ensures Cast(d, stakes, f, slots, v, yes) == Voters(d, stakes, f, r, v, yes)
  {
    hide VotesYes;
    hide Electors;
    forall u | u in Voters(d, stakes, f, r, v, yes)
      ensures u in Cast(d, stakes, f, slots, v, yes)
    {
      var x :| x in Electors(d, stakes, r) && VotesYes(d, stakes, f, x, v) == yes && d[x].creator == u;
      assert x in Ids(slots);
      var i :| 0 <= i < |slots| && slots[i].id == x;
      assert SlotOk(d, d[r].frame - 1, slots[i]);
    }
    forall u | u in Cast(d, stakes, f, slots, v, yes)
      ensures u in Voters(d, stakes, f, r, v, yes)
    {
      var i :| 0 <= i < |slots| && VotesYes(d, stakes, f, slots[i].id, v) == yes && slots[i].validator == u;
      assert slots[i].id in Ids(slots) && SlotOk(d, d[r].frame - 1, slots[i]);
    }
  }

  /** In the fault bound a validator appears once among the roots one root counts. */
  lemma ValidatorOnce(d: Dag, stakes: seq<nat>, ids: set<EventId>, r: EventId, g: nat, slots: seq<RootSlot>, i: nat,
                      j: nat)
    requires World(d, stakes, ids) && r in ids
    requires SlotsOk(d, g, slots) && Ids(slots) == VisibleRoots(d, stakes, r, g) && i < j < |slots|
    ensures slots[i].validator != slots[j].validator
  {
    hide World;
    hide VisibleRoots;
    if slots[i].validator == slots[j].validator {
      assert slots[i].id in Ids(slots) && slots[j].id in Ids(slots);
      assert SlotOk(d, g, slots[i]) && SlotOk(d, g, slots[j]);
      WorldIsKnown(d, stakes, ids);
      OneVisibleRoot(d, stakes, ids, r, r, g, slots[i].id, slots[j].id);
    }
  }

  /** The majority of the counted votes, and the decision a quorum of them makes. */
  lemma TallyIsVote(d: Dag, stakes: seq<nat>, ids: set<EventId>, f: nat, r: EventId, v: nat)
    requires World(d, stakes, ids) && r in ids && d[r].isRoot && d[r].frame >= f + 2
    ensures var yes := StakeOf(stakes, Voters(d, stakes, f, r, v, true));
            var no := StakeOf(stakes, Voters(d, stakes, f, r, v, false));
            && VotesYes(d, stakes, f, r, v) == (yes >= no)
            && (yes >= Quorum(stakes) || no >= Quorum(stakes) ==> Decides(d, stakes, f, r, v, yes >= no))
            && (yes >= no ==> Voters(d, stakes, f, r, v, true) != {})
  {
    hide VotesYes;
    hide FaultBound;
    hide VisibleRoots;
    var y, n := Voters(d, stakes, f, r, v, true), Voters(d, stakes, f, r, v, false);
    VotesYesUnfold(d, stakes, f, r, v);
    VotersQuorum(d, stakes, ids, f, r, v);
    VotersDisjoint(d, stakes, ids, f, r, r, v);
    StakeDisjoint(stakes, y, n);
    if StakeOf(stakes, y) >= StakeOf(stakes, n) {
      StakePositive(stakes, y);
    }
  }

  /** What counting one more root's vote does, and why its validator was not counted before. */
  lemma TallyNext(d: Dag, stakes: seq<nat>, ids: set<EventId>, f: nat, r: EventId, g: nat, slots: seq<RootSlot>, i: nat,
                  v: nat)
    requires World(d, stakes, ids) && r in ids && r in d
    requires SlotsOk(d, g, slots) && Ids(slots) == VisibleRoots(d, stakes, r, g) && i < |slots|
    ensures slots[i].id in d
    ensures Known(d, slots[..i]) && Known(d, slots[..i + 1])
    ensures forall yes :: Cast(d, stakes, f, slots[..i + 1], v, yes) ==
              Cast(d, stakes, f, slots[..i], v, yes)
              + if VotesYes(d, stakes, f, slots[i].id, v) == yes then {slots[i].validator} else {}
    ensures slots[i].validator !in Cast(d, stakes, f, slots[..i], v, true) + Cast(d, stakes, f, slots[..i], v, false)
  {
    hide World;
    hide VotesYes;
    hide VisibleRoots;
    assert SlotOk(d, g, slots[i]);
    assert forall j | 0 <= j < |slots| :: SlotOk(d, g, slots[j]);
    TakeSnoc(slots, i);
    forall yes
      ensures Cast(d, stakes, f, slots[..i + 1], v, yes) ==
              Cast(d, stakes, f, slots[..i], v, yes)
              + if VotesYes(d, stakes, f, slots[i].id, v) == yes then {slots[i].validator} else {}
    {
      CastSnoc(d, stakes, f, slots[..i], slots[i], v, yes);
    }
    forall j | 0 <= j < i
      ensures slots[j].validator != slots[i].validator
    {
      ValidatorOnce(d, stakes, ids, r, g, slots, j, i);
    }
  }

  lemma CastNone(d: Dag, stakes: seq<nat>, f: nat, v: nat, yes: bool)
    ensures Cast(d, stakes, f, [], v, yes) == {}
  {}

  /** The running state of counting: who voted how among the first `i`, and the root voted for. */
  ghost predicate Tallying(d: Dag, stakes: seq<nat>, ids: set<EventId>, f: nat, slots: seq<RootSlot>, i: nat, v: nat,
                           yes: set<nat>, no: set<nat>, all: set<nat>, subject: Option<EventId>)
    requires ids <= d.Keys
  {
    && i <= |slots|
    && Known(d, slots[..i])
    && yes == Cast(d, stakes, f, slots[..i], v, true)
    && no == Cast(d, stakes, f, slots[..i], v, false)
    && all == yes + no
    && (yes != {} ==> subject.Some?)
    && (subject.Some? ==> Candidate(d, stakes, ids, f, v, subject.value))
  }

  lemma TallyingStart(d: Dag, stakes: seq<nat>, ids: set<EventId>, f: nat, slots: seq<RootSlot>, v: nat)
    requires ids <= d.Keys
    ensures Tallying(d, stakes, ids, f, slots, 0, v, {}, {}, {}, None)
  {
    CastNone(d, stakes, f, v, true);
    CastNone(d, stakes, f, v, false);
    assert slots[..0] == [];
  }

  /** Counting one more vote raises none of the errors and keeps the tally right. */
  lemma TallyingStep(d: Dag, stakes: seq<nat>, ids: set<EventId>, f: nat, r: EventId, g: nat, slots: seq<RootSlot>,
                     i: nat, v: nat,
                     yes: set<nat>, no: set<nat>, all: set<nat>, subject: Option<EventId>, vote: VoteValue)
    requires World(d, stakes, ids) && ids <= d.Keys && r in ids
    requires SlotsOk(d, g, slots) && Ids(slots) == VisibleRoots(d, stakes, r, g) && i < |slots|
    requires Tallying(d, stakes, ids, f, slots, i, v, yes, no, all, subject)
    requires VoteOk(d, stakes, ids, f, slots[i].id, v, vote)
    ensures vote.yes && subject.Some? ==> subject == vote.observedRoot
    ensures slots[i].validator !in all
    ensures var u := slots[i].validator;
            Tallying(d, stakes, ids, f, slots, i + 1, v,
                     if vote.yes then yes + {u} else yes, if vote.yes then no else no + {u}, all + {u},
                     if vote.yes then vote.observedRoot else subject)
  {
    hide World;
    hide VotesYes;
    hide VisibleRoots;
    hide Candidate;
    hide Cast;
    TallyNext(d, stakes, ids, f, r, g, slots, i, v);
    if vote.yes && subject.Some? {
      OneCandidate(d, stakes, ids, f, v, subject.value, vote.observedRoot.value);
    }
  }

  /** The finished tally is the vote of the root, and a quorum in it decides the subject. */
  lemma TallyingEnd(d: Dag, stakes: seq<nat>, ids: set<EventId>, f: nat, r: EventId, slots: seq<RootSlot>, v: nat,
                    yes: set<nat>, no: set<nat>, all: set<nat>, subject: Option<EventId>)
    requires World(d, stakes, ids) && ids <= d.Keys && r in ids && d[r].isRoot && d[r].frame >= f + 2 && v < |stakes|
    requires SlotsOk(d, d[r].frame - 1, slots) && Ids(slots) == Electors(d, stakes, r)
    requires Tallying(d, stakes, ids, f, slots, |slots|, v, yes, no, all, subject)
    ensures StakeOf(stakes, all) >= Quorum(stakes)
    ensures var y, n, q := StakeOf(stakes, yes), StakeOf(stakes, no), Quorum(stakes);
            && VotesYes(d, stakes, f, r, v) == (y >= n)
            && (y >= n ==> subject.Some? && Candidate(d, stakes, ids, f, v, subject.value))
            && (y >= q || n >= q ==> Decides(d, stakes, f, r, v, y >= n))
            && (Settles(d, stakes, f, r, v) ==> y >= q || n >= q)
  {
    hide World;
    hide VotesYes;
    hide Electors;
    hide Candidate;
    hide Cast;
    TakeAll(slots);
    CastAreVoters(d, stakes, f, r, slots, v, true);
    CastAreVoters(d, stakes, f, r, slots, v, false);
    TallyIsVote(d, stakes, ids, f, r, v);
    VotersQuorum(d, stakes, ids, f, r, v);
    VotersDisjoint(d, stakes, ids, f, r, r, v);
    StakeDisjoint(stakes, yes, no);
  }

  lemma VoteIs(d: Dag, stakes: seq<nat>, ids: set<EventId>, f: nat, r: EventId, v: nat, vote: VoteValue)
    requires ids <= d.Keys && r in ids && d[r].isRoot && d[r].frame > f && v < |stakes|
    requires vote.yes == VotesYes(d, stakes, f, r, v)
    requires vote.yes ==> vote.observedRoot.Some? && Candidate(d, stakes, ids, f, v, vote.observedRoot.value)
    ensures VoteOk(d, stakes, ids, f, r, v, vote)
  {}

  lemma VoteStored(d: Dag, stakes: seq<nat>, ids: set<EventId>, f: nat, votes: map<(EventId, nat), VoteValue>,
                   r: EventId, v: nat, vote: VoteValue)
    requires ids <= d.Keys && VotesOk(d, stakes, ids, f, votes) && VoteOk(d, stakes, ids, f, r, v, vote)
    ensures VotesOk(d, stakes, ids, f, votes[(r, v) := vote])
  {
    hide VoteOk;
  }

  lemma DecisionStored(d: Dag, stakes: seq<nat>, ids: set<EventId>, f: nat, decided: map<nat, VoteValue>,
                       r: EventId, v: nat, vote: VoteValue)
    requires ids <= d.Keys && DecisionsOk(d, stakes, ids, f, decided) && VoteOk(d, stakes, ids, f, r, v, vote)
    requires Decides(d, stakes, f, r, v, vote.yes)
    ensures DecisionsOk(d, stakes, ids, f, decided[v := vote])
  {
    hide VotesYes;
    hide Decides;
    hide Candidate;
    assert DecidedBy(d, stakes, ids, f, v, vote.yes);
    assert DecisionOk(d, stakes, ids, f, v, vote);
  }

  /** A first-round vote: yes with the root that was observed in the subject's slot. */
  lemma FirstVoteOk(d: Dag, stakes: seq<nat>, ids: set<EventId>, f: nat, r: EventId, v: nat, vote: VoteValue)
    requires ids <= d.Keys && r in ids && d[r].isRoot && d[r].frame == f + 1 && v < |stakes|
    requires vote.yes <==> v in Creators(d, VisibleRoots(d, stakes, r, f))
    requires vote.yes ==> vote.observedRoot.Some? && vote.observedRoot.value in VisibleRoots(d, stakes, r, f)
                          && d[vote.observedRoot.value].creator == v
    ensures VoteOk(d, stakes, ids, f, r, v, vote)
  {}

  /** Every subject of the list up to `k` has the root's vote or a decision. */
  predicate VotedUpTo(r: EventId, open: seq<nat>, k: nat, votes: map<(EventId, nat), VoteValue>)
  {
    k <= |open| && forall j | 0 <= j < k :: (r, open[j]) in votes
  }

  /** The subjects of the list up to `k` are decided, or the root does not decide them. */
  ghost predicate SettledUpTo(d: Dag, stakes: seq<nat>, f: nat, r: EventId, open: seq<nat>, k: nat,
                              decided: map<nat, VoteValue>)
  {
    k <= |open| && forall j {:trigger open[j]} | 0 <= j < k :: open[j] in decided || !Settles(d, stakes, f, r, open[j])
  }

  lemma NoneMissedWith(d: Dag, stakes: seq<nat>, f: nat, processed: set<EventId>, decided: map<nat, VoteValue>,
                       r: EventId, open: seq<nat>)
    requires NoneMissed(d, stakes, f, processed, decided) && SettledUpTo(d, stakes, f, r, open, |open|, decided)
    requires forall v: nat | v < |stakes| && v !in decided :: v in open
    ensures NoneMissed(d, stakes, f, processed + {r}, decided)
  {
    hide Settles;
  }

  /** First-round roots decide nothing. */
  lemma FirstRoundSettlesNone(d: Dag, stakes: seq<nat>, f: nat, r: EventId, open: seq<nat>,
                              decided: map<nat, VoteValue>)
    requires r in d && d[r].frame <= f + 1
    ensures SettledUpTo(d, stakes, f, r, open, |open|, decided)
  {}

  lemma CompleteWith(n: nat, processed: set<EventId>, votes: map<(EventId, nat), VoteValue>,
                     decided: map<nat, VoteValue>, r: EventId, open: seq<nat>)
    requires Complete(n, processed, votes, decided)
    requires VotedUpTo(r, open, |open|, votes)
    requires forall v: nat | v < n && v !in decided :: v in open
    ensures Complete(n, processed + {r}, votes, decided)
  {}
}
