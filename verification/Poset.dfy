/**
 The consensus core of one epoch: checking and saving events, running elections, and
 confirming the events under each decided Atropos.
 */
module Poset {
  import opened Common
  import opened Dag
  import opened Stake
  import opened ForklessCause
  import opened Frames
  import opened Votes
  import opened Atropos
  import opened ElectionState
  import opened Election
  import opened Branches
  import opened MergedClock
  import opened MedianTime
  import opened Confirmation
  import opened ConsensusTime
  import opened BlockOrder
  import opened Blocks
  import opened Application
  import opened VectorIndex
  import opened RootStore
  import opened EventRules
  import opened FrameChecks
  import opened Decisions

  class Poset {
    const stakes: seq<nat>
    const totalStake: nat
    ghost const d: Dag
    const ep: Epoch
    const index: Index
    const voting: Voting
    const roots: Store

    var lastDecidedFrame: nat
    var lastBlockN: nat
    var lastAtropos: EventId
    var confirmedOn: map<EventId, nat>
    /** The lines of frames 1, 2, ... */
    var frameInfos: seq<FrameInfo>
    /** Set once the application sealed the epoch. */
    var sealed: bool
    var appState: nat
    var appHash: nat
    /** The Atropoi of frames 1, 2, ... */
    ghost var atropoi: seq<EventId>
    /** What the application got for them. */
    ghost var deliveries: seq<Delivery>

    /** The events accepted so far. */
    ghost function Known(): (ids: set<EventId>)
      reads index`flushed
    {
      index.flushed.branchOf.Keys
    }

    /** Nothing is added to the index beyond the accepted events, all of them what the checks admit. */
    ghost predicate EventsOk()
      reads index
    {
      && index.Valid() && index.db == index.flushed
      && AcceptedSet(d, stakes, Known())
      && ByGroup(d, |stakes|, Known())
      && AllAdmissible(d, stakes, ep.prevHash, ep.start, Known())
    }

    /** The tables of decided frames are what the decided Atropoi make of the graph. */
    ghost predicate FramesOk()
      reads this, index`flushed
    {
      && |atropoi| == lastDecidedFrame && lastBlockN == ep.firstBlock + lastDecidedFrame
      && lastAtropos == PrevAtropos(ep.firstAtropos, atropoi + [0])
      && AllIn(d, atropoi) && (forall a | a in atropoi :: a in Known())
      && confirmedOn == ConfirmedBy(d, atropoi)
      && frameInfos == Infos(d, ep.start, atropoi)
      && Delivered(d, ep, atropoi, deliveries)
      && OpenUntilLast(ep, deliveries)
      && Progress(appState, appHash, sealed) == Run(ep, deliveries)
    }

    /** Unless forks exceed the fault bound, every decided Atropos was elected. */
    ghost predicate ElectionsOk()
      requires Known() <= d.Keys
      reads this, index`flushed
    {
      World(d, stakes, Known()) ==> AllElected(d, stakes, Known(), atropoi)
    }

    /** The current election is open, and it processed every known root above the frame to decide. */
    ghost predicate CaughtUp()
      requires Known() <= d.Keys
      reads this, index`flushed, voting
    {
      && StillOpen(|stakes|, voting.decidedRoots)
      && forall r {:trigger d[r]} | r in Known() && d[r].isRoot && d[r].frame > voting.frameToDecide ::
           r in voting.processed
    }

    ghost predicate Linked()
    {
      && index.d == d && index.stakes == stakes && voting.stakes == stakes
      && totalStake == Total(stakes) && |stakes| > 0 && ep.stakes == stakes
    }

    ghost predicate Valid()
      reads this, index, voting, roots
    {
      && Linked()
      && EventsOk() && Known() <= d.Keys
      && roots.Valid(d, Known())
      && voting.Valid(d, Known()) && voting.frameToDecide == lastDecidedFrame + 1
      && FramesOk() && ElectionsOk()
    }

    /** An epoch without events. */
    constructor (ep: Epoch, totalStake: nat, ghost d: Dag)
      requires totalStake == Total(ep.stakes) && |ep.stakes| > 0
      ensures Valid() && CaughtUp() && Known() == {} && !sealed
      ensures this.ep == ep && this.d == d
      ensures lastDecidedFrame == 0 && atropoi == []
      ensures lastBlockN == ep.firstBlock && lastAtropos == ep.firstAtropos
      ensures appState == ep.firstState && appHash == ep.prev.appHash
      ensures fresh(index) && fresh(voting) && fresh(roots)
    {
      hide Index.Valid;
      hide Store.Valid;
      hide Voting.Valid;
      hide StillOpen;
      hide World;
      hide AcceptedSet;
      hide AllAdmissible;
      hide ByGroup;
      hide AllIn;
      hide PrevAtropos;
      hide ConfirmedBy;
      hide Infos;
      hide Delivered;
      hide Run;
      hide OpenUntilLast;
      hide AllElected;
      this.ep := ep;
      this.stakes := ep.stakes;
      this.totalStake := totalStake;
      this.d := d;
      lastBlockN := ep.firstBlock;
      lastAtropos := ep.firstAtropos;
      appState, appHash := ep.firstState, ep.prev.appHash;
      lastDecidedFrame := 0;
      confirmedOn := map[];
      frameInfos := [];
      sealed := false;
      atropoi := [];
      deliveries := [];
      index := new Index(ep.stakes, totalStake, d);
      voting := new Voting(ep.stakes, totalStake, 1, d, {});
      roots := new Store(d);
      new;
      NothingDecided(|stakes|);
      NothingRun(d, ep);
      NothingAccepted(d, stakes, ep.prevHash, ep.start);
      assert Known() == {};
    }

    /** Whether roots of a quorum at the frame forkless-cause an event; stops counting at a quorum. */
    method ForklessCausedByQuorumOn(id: EventId, f: nat, ghost ids: set<EventId>) returns (yes: bool)
      requires index.Valid() && index.d == d && index.stakes == stakes && totalStake == Total(stakes)
      requires id in index.db.branchOf && ids <= index.db.branchOf.Keys && roots.Valid(d, ids)
      requires ByGroup(d, |stakes|, ids)
      modifies index`bi, index`causeCache, roots`cache
      ensures index.Valid() && roots.Valid(d, ids) && id in d
      ensures yes == QuorumAmong(d, stakes, id, RootsAt(d, ids, f))
    {
      hide ForklessCauses;
      hide Index.Valid;
      hide Store.Valid;
      hide SeenCreators;
      hide StakeOf;
      IndexKnowsEvent(index, id);
      var slots := roots.GetFrameRoots(f, d, ids);
      var counter := new StakeCounter(stakes, totalStake);
      SeenNobody(d, stakes, id);
      yes := false;
      for i := 0 to |slots|
        invariant fresh(counter) && fresh(counter.already) && counter.Valid() && counter.stakes == stakes
        invariant index.Valid() && roots.Valid(d, ids) && ids <= index.db.branchOf.Keys && id in index.db.branchOf
        invariant counter.Counted() == SeenCreators(d, stakes, id, Ids(slots[..i]))
      {
        SlotsTake(d, f, slots, i);
        TakeSnoc(slots, i);
        IdsSnoc(slots[..i], slots[i]);
        SeenCreatorsNext(d, stakes, id, Ids(slots[..i]), slots[i].id);
        assert slots[i].id in Ids(slots) && slots[i].id in ids;
        var caused := index.ForklessCause(id, slots[i].id);
        if caused {
          var _ := counter.CountByIdx(slots[i].validator);
        }
        yes := counter.HasQuorum();
        if yes {
          IdsPrefix(slots, i + 1);
          QuorumGrows(d, stakes, id, Ids(slots[..i + 1]), RootsAt(d, ids, f));
          return;
        }
      }
      TakeAll(slots);
      yes := counter.HasQuorum();
    }

    /** What the frame calculation needs: a new event in the index, its parents accepted. */
    ghost predicate NewEvent(id: EventId, ids: set<EventId>)
      reads this, index, roots
    {
      && Linked() && index.Valid() && roots.Valid(d, ids)
      && id in d && id !in ids && id in index.db.branchOf && ids <= index.db.branchOf.Keys
      && Closed(d, ids) && (forall p | p in d[id].parents :: p in ids)
      && ByGroup(d, |stakes|, ids)
    }

    /** The frame and root verdict of a new event: checked against its claims, or calculated afresh. */
    method CalcFrameIdx(id: EventId, e: Event, checkOnly: bool, ghost ids: set<EventId>)
      returns (frame: nat, isRoot: bool)
      requires NewEvent(id, ids) && e == d[id]
      modifies index`bi, index`causeCache, roots`cache
      ensures NewEvent(id, ids)
      ensures checkOnly ==> isRoot == CalcIsRoot(d, stakes, id) && frame == CalcFrame(d, id)
      ensures !checkOnly ==> Prepared(d, stakes, ids, id, frame, isRoot)
    {
      hide Index.Valid;
      hide Store.Valid;
      hide QuorumAmong;
      hide QuorumOn;
      if |e.parents| == 0 {
        return 1, true;
      }
      var below := SelfParentFrameOf(e, ids, id);
      if checkOnly {
        if !e.isRoot {
          return below, false;
        }
        isRoot := e.frame == below + 1;
        if isRoot && e.frame > 1 {
          isRoot := ForklessCausedByQuorumOn(id, e.frame - 1, ids);
          QuorumAmongKnown(d, stakes, ids, id, e.frame - 1);
        }
        return below + 1, isRoot;
      }
      if e.SelfParent().None? {
        return 1, true;
      }
      var quorum := ForklessCausedByQuorumOn(id, below, ids);
      if quorum {
        return below + 1, true;
      }
      return below, false;
    }

    /** The frame of the self-parent, found among the parents. */
    method SelfParentFrameOf(e: Event, ghost ids: set<EventId>, ghost id: EventId) returns (below: nat)
      requires NewEvent(id, ids) && e == d[id]
      ensures e.SelfParent().Some? ==> e.parents[0] in d
      ensures below == SelfParentFrame(d, e)
    {
      below := 0;
      assert e.SelfParent().Some? ==> e.parents[0] in e.parents;
      assert forall p | p in e.parents :: p in index.headers && index.headers[p] == d[p];
      for i := 0 to |e.parents|
        invariant below == if e.SelfParent().Some? && e.parents[0] in e.parents[..i] then d[e.parents[0]].frame else 0
      {
        assert e.parents[i] in e.parents;
        TakeSnoc(e.parents, i);
        if e.IsSelfParent(e.parents[i]) {
          below := index.headers[e.parents[i]].frame;
        }
      }
      TakeAll(e.parents);
    }

    /** Checks the fields consensus fills in; an event that passes is saved, any other is forgotten. */
    method CheckAndSaveEvent(id: EventId, e: Event) returns (v: Verdict)
      requires Linked() && EventsOk() && roots.Valid(d, Known())
      requires id in d && e == d[id] && e.frame >= 1 && e.creator < |stakes|
      requires id !in Known() && forall p | p in e.parents :: p in Known()
      modifies index, roots
      ensures EventsOk()
      ensures v == VerdictOf(d, stakes, ep.prevHash, ep.start, id)
      ensures v == Accepted <==> Admissible(d, stakes, ep.prevHash, ep.start, id)
      ensures Known() == if v == Accepted then old(Known()) + {id} else old(Known())
      ensures roots.Valid(d, Known())
    {
      hide Admissible;
      hide LinksToCheater;
      hide NoCheaterParents;
      hide Index.Valid;
      hide Store.Valid;
      hide CalcIsRoot;
      hide CalcFrame;
      hide IsMedianTime;
      hide AcceptedSet;
      hide AllAdmissible;
      hide FrameOk;
      ghost var ids := Known();
      ParentsAreIn(d, id);
      AcceptedIsClosed(d, stakes, ids);
      AcceptedIff(d, stakes, ep.prevHash, ep.start, id);
      if e.seqNo <= 1 && e.prevEpochHash != ep.prevHash {
        return ErrWrongEpochHash;
      }
      if e.seqNo > 1 && e.prevEpochHash != 0 {
        return ErrNonZeroEpochHash;
      }
      var honest := NoCheaterAmong(id, e);
      if !honest {
        return ErrCheatersObserved;
      }
      index.Add(id, e);
      v := CheckClaims(id, e, ids);
      if v != Accepted {
        index.DropNotFlushed();
        return;
      }
      SaveEvent(id, e, ids);
    }

    /** Keeps an accepted event, and stores it as a root if it is one. */
    method SaveEvent(id: EventId, e: Event, ghost ids: set<EventId>)
      requires NewEvent(id, ids) && index.db.branchOf.Keys == ids + {id} && AcceptedSet(d, stakes, ids)
      requires e == d[id] && Admissible(d, stakes, ep.prevHash, ep.start, id)
      requires AllAdmissible(d, stakes, ep.prevHash, ep.start, ids)
      modifies index, roots
      ensures EventsOk() && Known() == ids + {id} && roots.Valid(d, Known())
    {
      hide Index.Valid;
      hide Store.Valid;
      hide AcceptedSet;
      hide AllAdmissible;
      hide FrameOk;
      hide Admissible;
      AdmissibleParts(d, stakes, ep.prevHash, ep.start, ids, id);
      index.Flush();
      index.DropNotFlushed();
      AcceptedGrows(d, stakes, ids, id);
      if e.isRoot {
        roots.AddRoot(RootSlot(id, e.frame, e.creator), d, ids);
      } else {
        NotARoot(roots, d, ids, id);
      }
    }

    /** Fills in the frame, the root flag, the median time and the epoch hash of an event about to be
        emitted. The index works under the hash of the unfilled event and forgets it again. */
    method Prepare(id: EventId, e: Event) returns (r: Option<Event>)
      requires Linked() && EventsOk() && roots.Valid(d, Known())
      requires id in d && e == d[id] && AllIn(d, e.parents)
      requires id !in Known() && forall p | p in e.parents :: p in Known()
      modifies index, roots`cache
      ensures EventsOk() && Known() == old(Known()) && roots.Valid(d, Known())
      ensures r.None? <==> e.creator >= |stakes|
      ensures r.Some? ==> r.value == e.(frame := r.value.frame, isRoot := r.value.isRoot,
                                        medianTime := r.value.medianTime,
                                        prevEpochHash := r.value.prevEpochHash)
      ensures r.Some? ==> forall b | b in d && b !in Known() && d[b] == r.value ::
                VerdictOf(d, stakes, ep.prevHash, ep.start, b) ==
                if NoCheaterParents(d, e) then Accepted else ErrCheatersObserved
    {
      hide Index.Valid;
      hide Store.Valid;
      hide IsMedianTime;
      hide AcceptedSet;
      hide AllAdmissible;
      hide Prepared;
      hide VerdictOf;
      hide NoCheaterParents;
      if e.creator >= |stakes| {
        return None;
      }
      ghost var ids := Known();
      AcceptedIsClosed(d, stakes, ids);
      index.Add(id, e);
      var frame, isRoot := CalcFrameIdx(id, e, false, ids);
      var median := index.MedianTime(id, ep.start);
      var hash := if e.seqNo <= 1 then ep.prevHash else 0;
      index.DropNotFlushed();
      var filled := e.(frame := frame, isRoot := isRoot, medianTime := median, prevEpochHash := hash);
      forall b | b in d && b !in ids && d[b] == filled
        ensures VerdictOf(d, stakes, ep.prevHash, ep.start, b) ==
                if NoCheaterParents(d, e) then Accepted else ErrCheatersObserved
      {
        PreparedIsAccepted(d, stakes, ids, id, b, ep.prevHash, ep.start);
      }
      return Some(filled);
    }

    method NoCheaterAmong(id: EventId, e: Event) returns (honest: bool)
      requires Linked() && index.Valid() && index.db == index.flushed
      requires id in d && e == d[id] && AllIn(d, e.parents)
      requires forall p | p in e.parents :: p in Known() && p in d && d[p].creator < |stakes|
      modifies index`bi
      ensures index.Valid()
      ensures honest == NoCheaterParents(d, e)
    {
      hide SeesFork;
      assert e.SelfParent().Some? ==> e.parents[0] in e.parents;
      assert forall p | p in e.parents :: p in index.headers && index.headers[p] == d[p];
      var filtered := index.NoCheaters(e.SelfParent(), e.parents);
      honest := |filtered| == |e.parents|;
    }

    /** Compares the claimed frame, root flag and median time with the calculated ones. */
    method CheckClaims(id: EventId, e: Event, ghost ids: set<EventId>) returns (v: Verdict)
      requires NewEvent(id, ids) && e == d[id] && e.creator < |stakes|
      requires (e.seqNo <= 1 ==> e.prevEpochHash == ep.prevHash) && (e.seqNo > 1 ==> e.prevEpochHash == 0)
      requires AllIn(d, e.parents) && NoCheaterParents(d, e)
      modifies index`bi, index`causeCache, roots`cache
      ensures NewEvent(id, ids)
      ensures v == VerdictOf(d, stakes, ep.prevHash, ep.start, id)
    {
      hide Index.Valid;
      hide Store.Valid;
      hide CalcIsRoot;
      hide CalcFrame;
      hide IsMedianTime;
      hide NoCheaterParents;
      var frame, isRoot := CalcFrameIdx(id, e, true, ids);
      if e.isRoot != isRoot {
        return ErrWrongIsRoot;
      }
      if e.frame != frame {
        return ErrWrongFrame;
      }
      var median := index.MedianTime(id, ep.start);
      if e.medianTime != median {
        if IsMedianTime(d, stakes, id, ep.start, e.medianTime) {
          MedianTimeUnique(d, stakes, id, ep.start, median, e.medianTime);
        }
        return ErrWrongMedianTime;
      }
      return Accepted;
    }

    /** The headers of everything an accepted event observes are at hand. */
    ghost predicate HeadersBelow(a: EventId)
      reads index
    {
      a in d && forall x {:trigger d[x]} | x in Past(d, a) ::
        x in index.headers && index.headers[x] == d[x] && d[x].creator < |stakes|
    }

    /** Confirms what an Atropos observes and nobody confirmed before; lists the events in the order of the walk. */
    method ConfirmEvents(frame: nat, atropos: EventId) returns (walked: seq<EventId>)
      requires HeadersBelow(atropos) && Closed(d, confirmedOn.Keys)
      modifies this`confirmedOn
      ensures confirmedOn == Confirm(old(confirmedOn), Past(d, atropos), frame)
      ensures ListOf(walked, Past(d, atropos) - old(confirmedOn).Keys)
    {
      hide Past;
      hide Confirming;
      hide Confirm;
      hide ListOf;
      ghost var below, on0 := Past(d, atropos), confirmedOn;
      ghost var done: set<EventId> := {};
      var stack := [atropos];
      walked := [];
      PastClosed(d, atropos);
      ConfirmingStart(d, on0, atropos, frame);
      EmptyList();
      while stack != []
        invariant Confirming(d, on0, confirmedOn, below, atropos, frame, done, stack)
        invariant ListOf(walked, done)
        decreases below - confirmedOn.Keys, |stack|
      {
        var top := stack[|stack| - 1];
        TopIsBelow(d, on0, confirmedOn, below, atropos, frame, done, stack);
        if top in confirmedOn {
          ConfirmingSkip(d, on0, confirmedOn, below, atropos, frame, done, stack);
          stack := stack[..|stack| - 1];
        } else {
          ConfirmingDeeper(d, on0, confirmedOn, below, atropos, frame, done, stack, top);
          ListSnoc(walked, done, top);
          assert top in below - confirmedOn.Keys;
          confirmedOn := confirmedOn[top := frame];
          stack := stack[..|stack| - 1] + index.headers[top].parents;
          walked := walked + [top];
          done := done + {top};
        }
      }
      ConfirmingEnd(d, on0, confirmedOn, atropos, frame, done);
    }

    /** Confirms a frame's events, fixes its line of time and builds its block. */
    method ConfirmBlock(frame: nat, atropos: EventId)
      returns (block: Block, cheaters: seq<nat>, walked: seq<EventId>, depths: seq<nat>)
      requires Linked() && EventsOk() && FramesOk() && atropos in Known() && frame == |atropoi| + 1
      modifies this`confirmedOn, this`frameInfos, index`bi
      ensures EventsOk()
      ensures AllIn(d, atropoi + [atropos]) && atropos in d
      ensures confirmedOn == ConfirmedBy(d, atropoi + [atropos])
      ensures frameInfos == Infos(d, ep.start, atropoi + [atropos])
      ensures IsDelivery(d, ep, atropoi + [atropos], Delivery(block, frame, cheaters))
      ensures ListOf(walked, NewlyConfirmed(d, atropoi + [atropos]))
      ensures AllIn(d, walked) && Reported(d, atropos, walked, depths)
    {
      hide Index.Valid;
      hide AcceptedSet;
      hide AllAdmissible;
      hide ConfirmedBy;
      hide Infos;
      hide Past;
      hide Delivered;
      hide OpenUntilLast;
      hide Run;
      hide ListOf;
      hide NewlyConfirmed;
      hide MergedExact;
      hide IsCheaterList;
      hide FareTimestamps;
      hide Picked;
      hide Reported;
      hide IsHighest;
      hide IsLowest;
      hide IsBlock;
      hide LastAt;
      hide EventsOk;
      hide HeadersBelow;
      assert Known() <= d.Keys by {
        KnownAreEvents();
      }
      NextAtropos(d, atropoi, atropos);
      ConfirmedRun(d, atropoi);
      var ms, mt := MergedClockOf(atropos);
      cheaters := Cheaters(ms, mt, d, atropos);
      walked := ConfirmEvents(frame, atropos);
      WalkedKnown(atropos, NewlyConfirmed(d, atropoi + [atropos]), walked);
      var picked, highest, lowest;
      picked, depths, highest, lowest := CollectEvents(walked, index.headers, ms, ep.allowed, mt, d, atropos);
      block := BuildBlock(frame, atropos, walked, picked, highest, lowest);
    }

    /** Fixes the line of time of a frame and makes its block of the picked events. */
    method BuildBlock(frame: nat, atropos: EventId, ghost walked: seq<EventId>, picked: seq<EventId>, highest: nat,
                      lowest: nat)
      returns (block: Block)
      requires AllIn(d, atropoi) && atropos in d && AllIn(d, atropoi + [atropos]) && AllIn(d, walked)
      requires frame == |atropoi| + 1 && lastBlockN == ep.firstBlock + |atropoi|
      requires lastAtropos == PrevAtropos(ep.firstAtropos, atropoi + [0]) && frameInfos == Infos(d, ep.start, atropoi)
      requires atropos in index.headers && index.headers[atropos] == d[atropos]
      requires forall x | x in walked :: x in index.headers && index.headers[x] == d[x]
      requires ListOf(walked, NewlyConfirmed(d, atropoi + [atropos])) && Picked(d, ep.allowed, atropos, walked, picked)
      requires IsHighest(d, walked, highest) && IsLowest(d, walked, lowest)
      modifies this`frameInfos
      ensures frameInfos == Infos(d, ep.start, atropoi + [atropos])
      ensures IsBlock(d, ep.allowed, ep.start, ep.firstBlock, ep.firstAtropos, atropoi + [atropos], block)
    {
      hide Infos;
      hide ListOf;
      hide NewlyConfirmed;
      hide FareTimestamps;
      hide Picked;
      hide IsHighest;
      hide IsLowest;
      hide IsBlock;
      hide LastAt;
      hide Ordered;
      NextLine(d, ep.start, atropoi, atropos);
      InfosCount(d, ep.start, atropoi);
      ExtremesAre(d, NewlyConfirmed(d, atropoi + [atropos]), walked, highest, lowest);
      var events := OrderPicked(picked, walked, atropos);
      var info := FareTimestamps(LastAt(ep.start, frameInfos, frame - 1), index.headers[atropos].medianTime,
                                 highest, lowest);
      block := Block(lastBlockN + 1, info.lastConsensusTime, atropos, lastAtropos, events);
      frameInfos := frameInfos + [info];
      BlockIs(d, ep, atropoi, atropos, lastAtropos, walked, picked, block, frameInfos);
    }

    method MergedClockOf(a: EventId) returns (ms: seq<BranchSeq>, mt: seq<nat>)
      requires index.d == d && index.stakes == stakes && EventsOk() && a in Known()
      modifies index`bi
      ensures EventsOk() && HeadersBelow(a) && Past(d, a) <= d.Keys
      ensures |ms| == |stakes| && MergedExact(d, |stakes|, Past(d, a), ms, mt)
    {
      hide Index.Valid;
      hide AcceptedSet;
      hide AllAdmissible;
      hide MergedExact;
      hide Past;
      KnowsBelow(a);
      var rs, ts := index.GetHighestBeforeMerged(a);
      MergedSize(d, |stakes|, Past(d, a), rs.value, ts.value);
      return rs.value, ts.value;
    }

    lemma KnownAreEvents()
      requires EventsOk()
      ensures Known() <= d.Keys
    {
      AcceptedIsClosed(d, stakes, Known());
    }

    lemma WalkedKnown(a: EventId, ids: set<EventId>, walked: seq<EventId>)
      requires HeadersBelow(a) && ids <= Past(d, a) <= d.Keys && ListOf(walked, ids)
      ensures AllIn(d, walked)
      ensures forall x | x in walked ::
                x in Past(d, a) && x in index.headers && index.headers[x] == d[x] && d[x].creator < |stakes|
      ensures a in index.headers && index.headers[a] == d[a]
      ensures forall i, j | 0 <= i < j < |walked| :: walked[i] != walked[j]
    {
      PastUnfold(d, a);
    }

    method OrderPicked(picked: seq<EventId>, ghost walked: seq<EventId>, ghost atropos: EventId)
      returns (events: seq<EventId>)
      requires atropos in d && AllIn(d, walked) && Picked(d, ep.allowed, atropos, walked, picked)
      requires forall x | x in walked :: x in index.headers && index.headers[x] == d[x]
      ensures Ordered(d, events)
      ensures forall x :: x in events <==> x in picked
    {
      hide InBlock;
      events := FareOrdering(picked, index.headers);
      assert forall i | 0 <= i < |events| :: events[i] in events && events[i] in picked;
    }

    lemma KnowsBelow(a: EventId)
      requires index.d == d && EventsOk() && a in Known()
      ensures HeadersBelow(a) && Past(d, a) <= d.Keys
    {
      hide Index.Valid;
      hide FrameOk;
      IndexHeaders();
      AcceptedIsClosed(d, stakes, Known());
      ClosedHoldsPast(d, Known(), a);
    }

    lemma IndexHeaders()
      requires index.d == d && index.Valid()
      ensures forall x {:trigger index.headers[x]} {:trigger x in Known()} | x in Known() ::
                x in index.headers && x in d && index.headers[x] == d[x]
    {}

    /** Moves on to the next frame: confirms the block of the decided one and hands it to the
        application, which may seal the epoch. */
    method OnFrameDecided(frame: nat, atropos: EventId) returns (seal: bool)
      requires Valid() && !sealed && frame == lastDecidedFrame + 1 && atropos in Known()
      requires World(d, stakes, Known()) ==> Elected(d, stakes, Known(), frame, atropos)
      modifies this, voting, index`bi
      ensures Valid() && seal == sealed
      ensures lastDecidedFrame == frame && atropoi == old(atropoi) + [atropos]
      ensures voting.processed == {} && StillOpen(|stakes|, voting.decidedRoots)
    {
      hide EventsOk;
      hide FramesOk;
      hide StillOpen;
      hide Store.Valid;
      hide Voting.Valid;
      hide World;
      hide Elected;
      hide AllElected;
      VotingTotal(voting, d, Known());
      DecidedSoFar();
      voting.Reset(frame + 1, d, Known());
      NothingDecided(|stakes|);
      if World(d, stakes, Known()) {
        ElectedNext(d, stakes, Known(), atropoi, atropos);
      }
      seal := ApplyBlock(frame, atropos);
    }

    lemma DecidedSoFar()
      requires Known() <= d.Keys && FramesOk()
      ensures |atropoi| == lastDecidedFrame
    {}

    /** Confirms a decided frame, hands its block to the application and moves the checkpoint. */
    method ApplyBlock(frame: nat, atropos: EventId) returns (seal: bool)
      requires Linked() && EventsOk() && FramesOk() && !sealed && frame == lastDecidedFrame + 1 && atropos in Known()
      modifies this, index`bi
      ensures EventsOk() && FramesOk() && seal == sealed
      ensures lastDecidedFrame == frame && atropoi == old(atropoi) + [atropos]
    {
      hide EventsOk;
      hide ConfirmedBy;
      hide Infos;
      hide Delivered;
      hide IsDelivery;
      hide OpenUntilLast;
      hide Run;
      hide ListOf;
      hide NewlyConfirmed;
      hide Reported;
      hide AllIn;
      hide PrevAtropos;
      var block, cheaters, _, _ := ConfirmBlock(frame, atropos);
      MoveCheckpoint(atropos, Delivery(block, frame, cheaters));
      return sealed;
    }

    /** Takes the application's answer to a delivery. */
    method MoveCheckpoint(atropos: EventId, delivery: Delivery)
      requires |atropoi| == lastDecidedFrame && lastBlockN == ep.firstBlock + lastDecidedFrame && !sealed
      requires AllIn(d, atropoi) && (forall a | a in atropoi :: a in Known()) && atropos in Known()
      requires atropos in d && AllIn(d, atropoi + [atropos])
      requires confirmedOn == ConfirmedBy(d, atropoi + [atropos])
      requires frameInfos == Infos(d, ep.start, atropoi + [atropos])
      requires Delivered(d, ep, atropoi, deliveries) && IsDelivery(d, ep, atropoi + [atropos], delivery)
      requires OpenUntilLast(ep, deliveries) && Progress(appState, appHash, sealed) == Run(ep, deliveries)
      modifies this`lastDecidedFrame, this`lastBlockN, this`lastAtropos, this`sealed
      modifies this`appState, this`appHash, this`atropoi, this`deliveries
      ensures FramesOk() && lastDecidedFrame == old(lastDecidedFrame) + 1 && atropoi == old(atropoi) + [atropos]
      ensures deliveries == old(deliveries) + [delivery] && lastAtropos == atropos && lastBlockN == old(lastBlockN) + 1
      ensures var answer := ep.rules.app(old(appState), delivery);
              && appState == answer.state && sealed == answer.seal
              && appHash == ep.rules.chainHash(old(appHash), answer.appHash)
    {
      hide ConfirmedBy;
      hide Infos;
      hide Delivered;
      hide IsDelivery;
      hide OpenUntilLast;
      hide Run;
      hide AllIn;
      hide PrevAtropos;
      PrevAtroposNext(ep.firstAtropos, atropoi, atropos);
      DeliveredNext(d, ep, atropoi, deliveries, atropos, delivery);
      RunNext(ep, deliveries, delivery);
      lastDecidedFrame := lastDecidedFrame + 1;
      lastBlockN := lastBlockN + 1;
      var answer := ep.rules.app(appState, delivery);
      appState, appHash := answer.state, ep.rules.chainHash(appHash, answer.appHash);
      lastAtropos := atropos;
      sealed := answer.seal;
      atropoi := atropoi + [atropos];
      deliveries := deliveries + [delivery];
    }

    /** The election's view of a stored root. */
    method ProcessRoot(slot: RootSlot) returns (res: Outcome)
      requires Valid() && slot.id in Known() && SlotOk(d, slot.frame, slot) && ProcessedBelow(slot.frame)
      modifies voting`votes, voting`decidedRoots, voting`processed, index`bi, index`causeCache, roots`cache
      ensures Valid() && DecisionFits(res)
      ensures res.Undecided? ==> StillOpen(|stakes|, voting.decidedRoots)
      ensures res.Undecided? ==>
                voting.processed ==
                  if slot.frame > voting.frameToDecide then old(voting.processed) + {slot.id} else old(voting.processed)
    {
      hide FramesOk;
      hide StillOpen;
      hide AcceptedSet;
      hide AllAdmissible;
      hide Index.Valid;
      hide Store.Valid;
      hide Voting.Valid;
      hide Voting.CanProcess;
      hide World;
      hide Elected;
      hide AllElected;
      hide ListsFrame;
      RootFrame(d, stakes, Known(), slot.id);
      var frameRoots := roots.GetFrameRoots(slot.frame - 1, d, Known());
      ReadyToProcess(slot, frameRoots);
      res := voting.ProcessRoot(slot, frameRoots, index);
    }

    lemma ReadyToProcess(slot: RootSlot, frameRoots: seq<RootSlot>)
      requires Linked() && EventsOk() && Known() <= d.Keys
      requires slot.id in Known() && SlotOk(d, slot.frame, slot) && slot.frame >= 1 && ProcessedBelow(slot.frame)
      requires ListsFrame(d, Known(), slot.frame - 1, frameRoots)
      ensures voting.CanProcess(d, Known(), slot, frameRoots)
    {
      hide Index.Valid;
      hide FrameOk;
      hide AllAdmissible;
      forall i | 0 <= i < |frameRoots|
        ensures frameRoots[i].validator < |stakes|
        ensures slot.frame - 1 > voting.frameToDecide ==> frameRoots[i].id in voting.processed
      {
        assert SlotOk(d, slot.frame - 1, frameRoots[i]);
        assert frameRoots[i].id in Ids(frameRoots) && frameRoots[i].id in Known();
      }
    }

    /** Reprocesses the known roots frame by frame, until one decides the election or a frame has no roots. */
    method ProcessKnownRoots() returns (res: Outcome)
      requires Valid() && StillOpen(|stakes|, voting.decidedRoots)
      modifies voting`votes, voting`decidedRoots, voting`processed, index`bi, index`causeCache, roots`cache
      ensures Valid() && DecisionFits(res)
      ensures res.Undecided? ==> CaughtUp()
      ensures res.Decided? ==> lastDecidedFrame < TopFrame(d, Known())
    {
      hide Valid;
      hide StillOpen;
      ghost var ids := Known();
      ValidParts();
      var f := lastDecidedFrame + 1;
      while true
        invariant Valid() && ids <= d.Keys && f >= voting.frameToDecide && ProcessedBelow(f)
        invariant StillOpen(|stakes|, voting.decidedRoots)
        decreases TopFrame(d, ids) + 1 - f
      {
        var last;
        res, last := ProcessFrame(f);
        if !res.Undecided? {
          return;
        }
        if last {
          break;
        }
        f := f + 1;
      }
      return Undecided;
    }

    /** Processes the roots of one frame. */
    method ProcessFrame(f: nat) returns (res: Outcome, last: bool)
      requires Valid() && ProcessedBelow(f) && f >= voting.frameToDecide && StillOpen(|stakes|, voting.decidedRoots)
      modifies voting`votes, voting`decidedRoots, voting`processed, index`bi, index`causeCache, roots`cache
      ensures Valid() && DecisionFits(res)
      ensures res.Undecided? && !last ==>
                ProcessedBelow(f + 1) && f <= TopFrame(d, Known()) && StillOpen(|stakes|, voting.decidedRoots)
      ensures res.Undecided? && last ==> CaughtUp()
      ensures res.Decided? ==> f <= TopFrame(d, Known())
    {
      hide Valid;
      hide StillOpen;
      hide ListsFrame;
      hide World;
      hide Elected;
      hide Ids;
      hide RootOf;
      ghost var ids := Known();
      ValidParts();
      var slots := FrameRoots(f);
      if slots == [] {
        NoRootsAbove(f, slots);
        return Undecided, true;
      }
      last := false;
      res := Undecided;
      NoIds(slots);
      for i := 0 to |slots|
        invariant Valid() && ids <= d.Keys && ProcessedBelow(f) && res == Undecided
        invariant StillOpen(|stakes|, voting.decidedRoots)
        invariant f > voting.frameToDecide ==> Ids(slots[..i]) <= voting.processed
      {
        Listed(d, ids, f, slots, i);
        TakeSnoc(slots, i);
        IdsSnoc(slots[..i], slots[i]);
        res := ProcessRoot(slots[i]);
        if !res.Undecided? {
          return;
        }
      }
      TakeAll(slots);
      Listed(d, ids, f, slots, 0);
      FrameProcessed(f, slots);
    }

    method FrameRoots(f: nat) returns (slots: seq<RootSlot>)
      requires Valid()
      modifies roots`cache
      ensures Valid() && ListsFrame(d, Known(), f, slots)
    {
      hide FramesOk;
      hide EventsOk;
      hide Voting.Valid;
      hide Store.Valid;
      hide World;
      hide ListsFrame;
      slots := roots.GetFrameRoots(f, d, Known());
    }

    lemma ValidParts()
      requires Valid()
      ensures Known() <= d.Keys && voting.frameToDecide == lastDecidedFrame + 1 && AcceptedSet(d, stakes, Known())
    {}

    /** Behind a frame without roots there are none: stopping there misses no root. */
    lemma NoRootsAbove(f: nat, slots: seq<RootSlot>)
      requires Valid() && ListsFrame(d, Known(), f, slots) && slots == [] && f >= 1 && ProcessedBelow(f)
      requires StillOpen(|stakes|, voting.decidedRoots)
      ensures CaughtUp()
    {
      hide Valid;
      hide AcceptedSet;
      hide AllAdmissible;
      ValidParts();
      assert Ids(slots) == {};
      forall r | r in Known() && d[r].isRoot && d[r].frame > voting.frameToDecide
        ensures r in voting.processed
      {
        assert r in RootsAt(d, Known(), d[r].frame);
        if d[r].frame >= f {
          NoHoles(d, stakes, Known(), d[r].frame, f);
        }
      }
    }

    lemma FrameProcessed(f: nat, slots: seq<RootSlot>)
      requires Known() <= d.Keys && ListsFrame(d, Known(), f, slots) && ProcessedBelow(f)
      requires f > voting.frameToDecide ==> Ids(slots) <= voting.processed
      ensures ProcessedBelow(f + 1)
    {
      forall r | r in Known() && d[r].isRoot && voting.frameToDecide < d[r].frame < f + 1
        ensures r in voting.processed
      {
        if d[r].frame == f {
          assert r in RootsAt(d, Known(), f);
        }
      }
    }

    /** A decision is about the frame after the last decided one and elects a known event; only
        forks beyond the fault bound make an election fail. */
    ghost predicate DecisionFits(res: Outcome)
      requires Known() <= d.Keys
      reads this, index`flushed
    {
      && (res.Decided? ==> res.frame == lastDecidedFrame + 1 && res.atropos in Known())
      && (World(d, stakes, Known()) ==>
            !res.Failed? && (res.Decided? ==> Elected(d, stakes, Known(), res.frame, res.atropos)))
    }

    /** The known roots of the frames between the one to decide and `f` were processed. */
    ghost predicate ProcessedBelow(f: nat)
      requires Known() <= d.Keys
      reads this, index`flushed, voting
    {
      forall r {:trigger d[r]} | r in Known() && d[r].isRoot && voting.frameToDecide < d[r].frame < f ::
        r in voting.processed
    }

    /** Decides frame after frame from the known roots, until an election stays open or the epoch is
        sealed. An election that cannot be decided stops the node. */
    method ProcessElections() returns (ok: bool)
      requires Valid() && !sealed && StillOpen(|stakes|, voting.decidedRoots)
      modifies this, voting, index`bi, index`causeCache, roots`cache
      ensures Valid() && old(atropoi) <= atropoi
      ensures if ok then sealed || CaughtUp() else !World(d, stakes, Known())
    {
      hide Valid;
      hide StillOpen;
      hide World;
      hide Elected;
      ghost var ids := Known();
      ValidParts();
      while true
        invariant Valid() && !sealed && ids <= d.Keys && old(atropoi) <= atropoi
        invariant StillOpen(|stakes|, voting.decidedRoots)
        decreases TopFrame(d, ids) - lastDecidedFrame
      {
        var res := ProcessKnownRoots();
        if res.Failed? {
          return false;
        }
        if res.Undecided? {
          return true;
        }
        var seal := OnFrameDecided(res.frame, res.atropos);
        if seal {
          return true;
        }
      }
    }

    /** Every known root above the frame to decide was processed, except perhaps `id`. */
    ghost predicate CaughtUpExcept(id: EventId)
      requires Known() <= d.Keys
      reads this, index`flushed, voting
    {
      && StillOpen(|stakes|, voting.decidedRoots)
      && forall r {:trigger d[r]} | r in Known() && r != id && d[r].isRoot && d[r].frame > voting.frameToDecide ::
           r in voting.processed
    }

    /** Lets a new event vote, if it is a root. */
    method HandleElection(id: EventId, e: Event) returns (ok: bool)
      requires Valid() && !sealed && id in Known() && e == d[id] && CaughtUpExcept(id)
      modifies this, voting, index`bi, index`causeCache, roots`cache
      ensures Valid() && old(atropoi) <= atropoi
      ensures if ok then sealed || CaughtUp() else !World(d, stakes, Known())
    {
      hide Valid;
      hide StillOpen;
      hide World;
      hide Elected;
      ValidParts();
      if !e.isRoot {
        return true;
      }
      var res := ProcessRoot(RootSlot(id, e.frame, e.creator));
      if res.Failed? {
        return false;
      }
      if res.Undecided? {
        return true;
      }
      var seal := OnFrameDecided(res.frame, res.atropos);
      if seal {
        return true;
      }
      ok := ProcessElections();
    }

    /** Takes a new event into processing; its parents came before it. */
    method ProcessEvent(id: EventId, e: Event) returns (v: Verdict, ok: bool)
      requires Valid() && CaughtUp() && !sealed
      requires id in d && e == d[id] && e.frame >= 1
      requires id !in Known() && forall p | p in e.parents :: p in Known()
      modifies this, index, voting, roots
      ensures v == VerdictOf(d, stakes, ep.prevHash, ep.start, id)
      ensures Known() == if v == Accepted then old(Known()) + {id} else old(Known())
      ensures Valid() && old(atropoi) <= atropoi
      ensures if ok then sealed || CaughtUp() else !World(d, stakes, Known())
    {
      hide EventsOk;
      hide StillOpen;
      hide Store.Valid;
      hide Voting.Valid;
      hide World;
      hide AllElected;
      hide VerdictOf;
      hide ConfirmedBy;
      hide Infos;
      hide Delivered;
      hide OpenUntilLast;
      hide Run;
      if e.creator >= |stakes| {
        NoAuth(d, stakes, ep.prevHash, ep.start, id);
        return ErrAuth, true;
      }
      ghost var ids := Known();
      ValidParts();
      v := CheckAndSaveEvent(id, e);
      if v != Accepted {
        return v, true;
      }
      StillValid(ids, id);
      ok := HandleElection(id, e);
    }

    lemma StillValid(ids: set<EventId>, id: EventId)
      requires Linked() && EventsOk() && Known() == ids + {id} && roots.Valid(d, Known()) && FramesOk()
      requires AcceptedSet(d, stakes, ids) && ids <= d.Keys
      requires voting.Valid(d, ids) && voting.frameToDecide == lastDecidedFrame + 1
      requires World(d, stakes, ids) ==> AllElected(d, stakes, ids, atropoi)
      ensures Valid()
    {
      hide Index.Valid;
      hide AcceptedSet;
      hide AllAdmissible;
      hide FramesOk;
      hide AllElected;
      hide VotesOk;
      hide DecisionsOk;
      hide Complete;
      hide World;
      AcceptedIsClosed(d, stakes, Known());
      KnownRootsGrow(ids, Known(), voting.votes, voting.decidedRoots);
      if World(d, stakes, Known()) {
        WorldShrinks(d, stakes, ids, Known());
        ElectionGrows(d, stakes, ids, Known(), voting.frameToDecide, voting.votes, voting.decidedRoots);
        AllElectedGrows(d, stakes, ids, Known(), atropoi);
      }
    }

    /** An election that processed all known roots and is open has no Atropos yet: decisions are not late. */
    lemma NoAtroposYet(x: EventId)
      requires Valid() && CaughtUp() && World(d, stakes, Known())
      ensures !Elected(d, stakes, Known(), lastDecidedFrame + 1, x)
    {
      hide World;
      hide Elected;
      hide EventsOk;
      hide FramesOk;
      hide StillOpen;
      hide DecisionsOk;
      hide NoneMissed;
      OpenMeansUndecided(d, stakes, Known(), voting.frameToDecide, voting.processed, voting.decidedRoots, x);
    }

    /** A restarted node purges its caches and votes anew; it decides nothing it had not decided. */
    method Bootstrap() returns (ok: bool)
      requires Valid() && CaughtUp() && !sealed
      modifies this, voting, index, roots`cache
      ensures Valid() && Known() == old(Known())
      ensures if ok then sealed || CaughtUp() else !World(d, stakes, Known())
      ensures World(d, stakes, Known()) ==> ok && atropoi == old(atropoi)
    {
      hide World;
      hide Elected;
      hide StillOpen;
      hide FramesOk;
      hide AllElected;
      hide AcceptedSet;
      hide AllAdmissible;
      hide Index.Valid;
      hide Voting.Valid;
      hide Store.Valid;
      ghost var before := atropoi;
      ghost var world := World(d, stakes, Known());
      ghost var next := lastDecidedFrame + 1;
      if world {
        forall x
          ensures !Elected(d, stakes, Known(), next, x)
        {
          NoAtroposYet(x);
        }
      }
      index.DropNotFlushed();
      index.PurgeCache();
      roots.Purge(d, Known());
      VotingTotal(voting, d, Known());
      voting.Reset(lastDecidedFrame + 1, d, Known());
      NothingDecided(|stakes|);
      DecidedSoFar();
      ok := ProcessElections();
      if world {
        DecidedSoFar();
        NothingNew(d, stakes, Known(), before, atropoi, next);
      }
    }

    /** The consensus time of a confirmed event. */
    method GetConsensusTime(id: EventId) returns (t: Option<nat>)
      requires FramesOk() && index.Valid() && index.d == d && AcceptedSet(d, stakes, Known()) && AllIn(d, atropoi)
      ensures t.Some? <==> id in ConfirmedBy(d, atropoi)
      ensures t.Some? ==> t.value == TimeOf(d, ep.start, atropoi, id)
    {
      hide AcceptedSet;
      hide AllAdmissible;
      hide Infos;
      hide ConfirmedBy;
      hide Delivered;
      hide Run;
      hide OpenUntilLast;
      hide Past;
      hide Index.Valid;
      hide FrameInfo.CalcConsensusTime;
      if id !in confirmedOn {
        return None;
      }
      ConfirmedInRange(d, atropoi, id);
      ConfirmedIff(d, atropoi, id);
      ghost var i :| 0 <= i < |atropoi| && atropoi[i] in d && id in Past(d, atropoi[i]);
      assert atropoi[i] in atropoi;
      AcceptedIsClosed(d, stakes, Known());
      ClosedHoldsPast(d, Known(), atropoi[i]);
      IndexHeaders();
      return Some(frameInfos[confirmedOn[id] - 1].CalcConsensusTime(index.headers[id].lamport));
    }

    /** The epoch that follows a sealed one: it starts at the last consensus time, after the last block
        and Atropos, with the validators the application selects. */
    function NextEpoch(): (e: Epoch)
      requires |frameInfos| == lastDecidedFrame
      reads this
    {
      var time := LastAt(ep.start, frameInfos, lastDecidedFrame);
      Epoch(ep.rules, ep.rules.select(appState, ep.number + 1), GenesisState(ep.number, time, lastAtropos, appHash),
            lastBlockN, appState)
    }

    /** Moves a sealed epoch on: new validators, empty tables, the chain carried over. */
    method SealEpoch(nextTotal: nat, ghost nextDag: Dag) returns (p: Poset)
      requires Valid() && sealed && |frameInfos| == lastDecidedFrame
      requires nextTotal == Total(NextEpoch().stakes) && |NextEpoch().stakes| > 0
      ensures fresh(p) && p.Valid() && p.CaughtUp() && p.Known() == {} && !p.sealed
      ensures p.ep == NextEpoch() && p.d == nextDag && p.ep.number == ep.number + 1
      ensures p.lastBlockN == lastBlockN && p.lastAtropos == lastAtropos && p.lastDecidedFrame == 0
      ensures p.appState == appState && p.appHash == appHash
      ensures p.ep.prev == GenesisState(ep.number, LastAt(ep.start, frameInfos, lastDecidedFrame), lastAtropos, appHash)
      ensures p.stakes == ep.rules.select(appState, ep.number + 1) && p.ep.prevHash == ep.rules.stateHash(p.ep.prev)
    {
      hide EventsOk;
      hide ElectionsOk;
      hide Store.Valid;
      hide Voting.Valid;
      hide Index.Valid;
      hide StillOpen;
      hide Delivered;
      hide OpenUntilLast;
      hide ConfirmedBy;
      p := new Poset(NextEpoch(), nextTotal, nextDag);
    }
  }
}
