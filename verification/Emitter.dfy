/**
 Emitting an event: choosing parents, building the header on them and having consensus fill it in.
 */
module Emitter {
  import opened Common
  import opened Dag
  import opened ForklessCause
  import opened Frames
  import opened MergedClock
  import opened VectorIndex
  import opened RootStore
  import opened EventChecks
  import opened EventRules
  import opened FrameChecks
  import opened Poset

  // ---------- choosing parents ----------

  /** Parents as they may be chosen: the self-parent first, then different options. */
  predicate Chosen(selfParent: Option<EventId>, options: seq<EventId>, parents: seq<EventId>)
  {
    && (selfParent.Some? ==> parents != [] && parents[0] == selfParent.value)
    && (forall p | p in parents :: p in options || selfParent == Some(p))
    && (forall i, j | 0 <= i < j < |parents| :: parents[i] != parents[j])
  }

  /** Links the self-parent and what a strategy, here any, finds among the options. There are no more
      parents than allowed, and fewer only if every option is linked. */
  method FindBestParents(max: nat, options: seq<EventId>, selfParent: Option<EventId>) returns (parents: seq<EventId>)
    ensures Chosen(selfParent, options, parents)
    ensures |parents| <= max || (max == 0 && selfParent.Some? && |parents| == 1)
    ensures |parents| < max ==> forall p | p in options :: p in parents
  {
    var left := set p | p in options;
    parents := [];
    if selfParent.Some? {
      parents := [selfParent.value];
      left := left - {selfParent.value};
    }
    while |parents| < max && left != {}
      invariant Chosen(selfParent, options, parents)
      invariant forall p :: p in left <==> p in options && p !in parents
      invariant |parents| <= max || (max == 0 && selfParent.Some? && |parents| == 1)
      decreases left
    {
      var best :| best in left;
      assert forall i | 0 <= i < |parents| :: parents[i] in parents;
      parents := parents + [best];
      left := left - {best};
    }
  }

  lemma KnownHeaders(p: Poset)
    requires p.Linked() && p.EventsOk()
    ensures p.index.Valid() && p.Known() <= p.d.Keys && p.index.db.branchOf.Keys == p.Known()
    ensures forall x | x in p.Known() ::
              x in p.index.headers && p.index.headers[x] == p.d[x] && p.d[x].creator < |p.stakes|
  {
    hide AcceptedSet;
    hide AllAdmissible;
    p.KnownAreEvents();
  }

  /** Keeps the heads by creators the self-parent did not see forking, and refuses if it saw its own. */
  method FindHonestParents(p: Poset, max: nat, heads: seq<EventId>, selfParent: Option<EventId>)
    returns (r: Option<seq<EventId>>)
    requires p.Linked() && p.EventsOk() && AllIn(p.d, heads) && (forall h | h in heads :: h in p.Known())
    requires selfParent.Some? ==> selfParent.value in p.Known() && selfParent.value in p.d
    modifies p.index`bi
    ensures p.EventsOk() && p.Known() == old(p.Known())
    ensures r.None? <==> selfParent.Some? && SeesFork(p.d, selfParent.value, p.d[selfParent.value].creator)
    ensures r.Some? ==> Chosen(selfParent, heads, r.value) && AllIn(p.d, r.value)
    ensures r.Some? && selfParent.Some? ==>
              forall x | x in r.value :: !SeesFork(p.d, selfParent.value, p.d[x].creator)
  {
    hide SeesFork;
    hide HonestOptions;
    hide AcceptedSet;
    hide AllAdmissible;
    hide Index.Valid;
    KnownHeaders(p);
    var kept := p.index.NoCheaters(selfParent, heads);
    if selfParent.Some? {
      var self := selfParent.value;
      var own := p.index.NoCheaters(selfParent, [self]);
      forall x
        ensures x in kept <==> x in heads && !SeesFork(p.d, self, p.d[x].creator)
        ensures x in own <==> x == self && !SeesFork(p.d, self, p.d[self].creator)
      {
        HonestOptionsHolds(p.d, self, heads, x);
        HonestOptionsHolds(p.d, self, [self], x);
      }
      if |own| == 0 {
        return None;
      }
    }
    var parents := FindBestParents(max, kept, selfParent);
    return Some(parents);
  }

  // ---------- building the event ----------

  /** The highest Lamport time of the parents. */
  function MaxLamport(headers: map<EventId, Event>, parents: seq<EventId>): (m: nat)
    requires AllIn(headers, parents)
    ensures forall p | p in parents :: headers[p].lamport <= m
  {
    if parents == [] then 0
    else
      var init, last := parents[..|parents| - 1], headers[parents[|parents| - 1]].lamport;
      assert parents == init + [parents[|parents| - 1]];
      var m := MaxLamport(headers, init);
      if last > m then last else m
  }

  /** The header on the parents, before consensus fills in its fields. */
  function EventOn(headers: map<EventId, Event>, me: nat, now: nat, selfParent: Option<EventId>, parents: seq<EventId>)
    : (e: Event)
    requires AllIn(headers, parents) && (selfParent.Some? ==> selfParent.value in headers)
  {
    var (seqNo, time) := match selfParent
      case Some(p) => (headers[p].seqNo, headers[p].claimedTime)
      case None => (0, 0);
    Event(me, seqNo + 1, MaxLamport(headers, parents) + 1, if now > time + 1 then now else time + 1, parents,
          0, false, 0, 0)
  }

  /** Parents on which a header passes the checks: only the self-parent is by the same creator. */
  predicate OwnFirst(headers: map<EventId, Event>, me: nat, selfParent: Option<EventId>, parents: seq<EventId>)
    requires AllIn(headers, parents)
  {
    forall i | 0 <= i < |parents| :: headers[parents[i]].creator == me <==> i == 0 && selfParent.Some?
  }

  lemma EventOnIsWellFormed(d: Dag, me: nat, now: nat, selfParent: Option<EventId>, heads: seq<EventId>,
                            parents: seq<EventId>)
    requires AllIn(d, parents) && Chosen(selfParent, heads, parents) && OwnFirst(d, me, selfParent, parents)
    requires selfParent.Some? ==> selfParent.value in d
    ensures var e := EventOn(d, me, now, selfParent, parents);
            && WellFormedEvent(d, e) && e.SelfParent() == selfParent
            && VerdictOnParents(e, Headers(d, parents)) == ParentsOk
            && now <= e.claimedTime
            && (now == e.claimedTime || (selfParent.Some? && e.claimedTime == d[selfParent.value].claimedTime + 1)
                || e.claimedTime == 1)
  {
    PassesCheck(d, me, now, selfParent, heads, parents);
    hide VerdictOnParents;
    var e := EventOn(d, me, now, selfParent, parents);
    if selfParent.Some? {
      assert WellFormedEvent(d, d[selfParent.value]);
    }
    forall p | p in parents
      ensures d[p].creator == me <==> e.IsSelfParent(p)
    {
      var i :| 0 <= i < |parents| && parents[i] == p;
      assert i != 0 ==> parents[0] != parents[i];
    }
  }

  lemma Numbered(d: Dag, p: EventId)
    requires p in d
    ensures d[p].seqNo >= 1
  {
    assert WellFormedEvent(d, d[p]);
  }

  lemma {:induction false} MaxIsReached(headers: map<EventId, Event>, parents: seq<EventId>)
    requires AllIn(headers, parents)
    ensures var m := MaxLamport(headers, parents);
            && (forall p | p in parents :: headers[p].lamport <= m)
            && (m == 0 || exists p | p in parents :: headers[p].lamport == m)
  {
    if parents != [] {
      var init, last := parents[..|parents| - 1], parents[|parents| - 1];
      assert parents == init + [last];
      MaxIsReached(headers, init);
      assert last in parents;
    }
  }

  lemma PassesCheck(d: Dag, me: nat, now: nat, selfParent: Option<EventId>, heads: seq<EventId>, parents: seq<EventId>)
    requires AllIn(d, parents) && Chosen(selfParent, heads, parents) && OwnFirst(d, me, selfParent, parents)
    requires selfParent.Some? ==> selfParent.value in d
    ensures VerdictOnParents(EventOn(d, me, now, selfParent, parents), Headers(d, parents)) == ParentsOk
  {
    hide VerdictOnParents;
    hide WellFormed;
    hide MaxLamport;
    var e, hs := EventOn(d, me, now, selfParent, parents), Headers(d, parents);
    if selfParent.Some? {
      Numbered(d, selfParent.value);
    }
    MaxIsReached(d, parents);
    assert forall i | 0 <= i < |parents| :: parents[i] in parents && hs[i] == d[parents[i]];
    if parents != [] {
      assert parents[0] in parents;
      var p :| p in parents && d[p].lamport + 1 == e.lamport;
      var i :| 0 <= i < |parents| && parents[i] == p;
      assert hs[i].lamport + 1 == e.lamport;
    }
    ParentsOkIff(e, hs);
  }

  /** All events that can be built have their hashes in the graph: it holds whatever may be emitted. */
  ghost predicate Covers(d: Dag, known: set<EventId>, hash: Event -> EventId, me: nat, now: nat,
                         selfParent: Option<EventId>, heads: seq<EventId>)
    requires AllIn(d, heads) && (selfParent.Some? ==> selfParent.value in d)
  {
    forall parents {:trigger Chosen(selfParent, heads, parents)} |
      Chosen(selfParent, heads, parents) && AllIn(d, parents) ::
      var e := EventOn(d, me, now, selfParent, parents);
      WellFormedEvent(d, e) ==> hash(e) in d && d[hash(e)] == e && hash(e) !in known
  }

  /** Whether a parent other than the first is by the creator itself. */
  method OwnHead(headers: map<EventId, Event>, me: nat, parents: seq<EventId>) returns (own: bool)
    requires AllIn(headers, parents)
    ensures own <==> exists i | 0 < i < |parents| :: headers[parents[i]].creator == me
  {
    for i := 0 to |parents|
      invariant forall k | 0 < k < i :: headers[parents[k]].creator != me
    {
      assert parents[i] in parents;
      if headers[parents[i]].creator == me && i != 0 {
        return true;
      }
    }
    return false;
  }

  lemma {:induction false} SameHeaders(headers: map<EventId, Event>, d: map<EventId, Event>, me: nat, now: nat,
                                       selfParent: Option<EventId>, parents: seq<EventId>)
    requires forall p | p in parents || selfParent == Some(p) :: p in headers && p in d && headers[p] == d[p]
    ensures AllIn(headers, parents) && AllIn(d, parents) && (selfParent.Some? ==> selfParent.value in headers)
    ensures selfParent.Some? ==> selfParent.value in d
    ensures EventOn(headers, me, now, selfParent, parents) == EventOn(d, me, now, selfParent, parents)
    decreases parents
  {
    if parents != [] {
      var init := parents[..|parents| - 1];
      assert parents == init + [parents[|parents| - 1]];
      SameHeaders(headers, d, me, now, selfParent, init);
    }
  }

  /** Builds a header on honest parents, one that passes the parents check. */
  method BuildEvent(p: Poset, me: nat, now: nat, max: nat, heads: seq<EventId>, selfParent: Option<EventId>)
    returns (r: Option<Event>)
    requires p.Linked() && p.EventsOk() && AllIn(p.d, heads) && forall h | h in heads :: h in p.Known()
    requires selfParent.Some? ==>
               selfParent.value in p.Known() && selfParent.value in p.d && p.d[selfParent.value].creator == me
    requires selfParent.None? ==> forall h | h in heads :: p.d[h].creator != me
    modifies p.index`bi
    ensures p.EventsOk() && p.Known() == old(p.Known())
    ensures r.Some? ==>
              var e := r.value;
              && AllIn(p.d, e.parents) && (forall x | x in e.parents :: x in p.Known())
              && Chosen(selfParent, heads, e.parents) && e == EventOn(p.d, me, now, selfParent, e.parents)
              && WellFormedEvent(p.d, e) && e.SelfParent() == selfParent && NoCheaterParents(p.d, e)
              && VerdictOnParents(e, Headers(p.d, e.parents)) == ParentsOk && now <= e.claimedTime
    ensures r.None? ==>
              || (selfParent.Some? && SeesFork(p.d, selfParent.value, me))
              || exists h | h in heads :: p.d[h].creator == me && selfParent != Some(h)
  {
    hide Index.Valid;
    hide AcceptedSet;
    hide AllAdmissible;
    hide SeesFork;
    hide Poset.EventsOk;
    hide WellFormed;
    hide WellFormedEvent;
    hide VerdictOnParents;
    hide MaxLamport;
    KnownHeaders(p);
    var parents := FindHonestParents(p, max, heads, selfParent);
    if parents.None? {
      return None;
    }
    KnownHeaders(p);
    var own := OwnHead(p.index.headers, me, parents.value);
    if own {
      var i :| 0 < i < |parents.value| && p.index.headers[parents.value[i]].creator == me;
      assert parents.value[i] in heads;
      return None;
    }
    var e := EventOn(p.index.headers, me, now, selfParent, parents.value);
    SameHeaders(p.index.headers, p.d, me, now, selfParent, parents.value);
    EventOnIsWellFormed(p.d, me, now, selfParent, heads, parents.value);
    return Some(e);
  }

  /**
   Creates an event on the last event of the creator and the heads. Whatever it returns is accepted by
   the checks of every node under its final hash. It refuses only creators outside the group and ones
   that forked: the self-parent sees it, or another head is their own.
   */
  method CreateEvent(p: Poset, me: nat, now: nat, max: nat, heads: seq<EventId>, selfParent: Option<EventId>,
                     hash: Event -> EventId)
    returns (r: Option<Event>)
    requires p.Linked() && p.EventsOk() && p.roots.Valid(p.d, p.Known())
    requires AllIn(p.d, heads) && forall h | h in heads :: h in p.Known()
    requires selfParent.Some? ==>
               selfParent.value in p.Known() && selfParent.value in p.d && p.d[selfParent.value].creator == me
    requires selfParent.None? ==> forall h | h in heads :: p.d[h].creator != me
    requires Covers(p.d, p.Known(), hash, me, now, selfParent, heads)
    modifies p.index, p.roots`cache
    ensures p.EventsOk() && p.Known() == old(p.Known()) && p.roots.Valid(p.d, p.Known())
    ensures r.Some? ==>
              && r.value.creator == me && r.value.SelfParent() == selfParent
              && forall b | b in p.d && b !in p.Known() && p.d[b] == r.value ::
                   VerdictOf(p.d, p.stakes, p.ep.prevHash, p.ep.start, b) == Accepted
    ensures r.None? ==>
              || me >= |p.stakes|
              || (selfParent.Some? && SeesFork(p.d, selfParent.value, me))
              || exists h | h in heads :: p.d[h].creator == me && selfParent != Some(h)
  {
    hide Index.Valid;
    hide Store.Valid;
    hide AcceptedSet;
    hide AllAdmissible;
    hide SeesFork;
    hide VerdictOf;
    hide NoCheaterParents;
    hide Poset.EventsOk;
    hide WellFormed;
    hide WellFormedEvent;
    hide MaxLamport;
    var e := BuildEvent(p, me, now, max, heads, selfParent);
    if e.None? {
      return None;
    }
    assert Chosen(selfParent, heads, e.value.parents);
    r := p.Prepare(hash(e.value), e.value);
  }
}
