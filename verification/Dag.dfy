/**
 The event graph: headers, well-formedness, ancestry and forks.

 Everything the consensus code computes is specified against a `Dag`, a map from event
 ids to headers. Ids are hashes of the content, so one map can serve every node: a node
 that has connected only some of the events has a parent-closed part of it.
 */
module Dag {
  import opened Common

  /** A 32-byte event hash read as a big-endian number, so that comparing bytes is comparing numbers. */
  type EventId = nat

  /** The header fields consensus works with. `creator` is the validator's index in its group. */
  datatype Event = Event(
    creator: nat,
    seqNo: nat,
    lamport: nat,
    claimedTime: nat,
    parents: seq<EventId>,
    frame: nat,
    isRoot: bool,
    medianTime: nat,
    prevEpochHash: nat)
  {
    function SelfParent(): (r: Option<EventId>)
    {
      if seqNo <= 1 || |parents| == 0 then None else Some(parents[0])
    }

    predicate IsSelfParent(id: EventId)
    {
      SelfParent() == Some(id)
    }
  }

  /** What the basic and parents checks leave true of an event whose parents are in `d`. */
  predicate WellFormedEvent(d: map<EventId, Event>, e: Event)
  {
    && e.seqNo >= 1 && e.lamport >= 1
    && (e.seqNo > 1 ==> |e.parents| > 0)
    && forall p {:trigger p in e.parents} | p in e.parents ::
         && p in d
         && d[p].lamport < e.lamport
         && (d[p].creator == e.creator <==> e.IsSelfParent(p))
         && (e.IsSelfParent(p) ==> d[p].seqNo + 1 == e.seqNo && d[p].claimedTime < e.claimedTime)
  }

  ghost predicate WellFormed(d: map<EventId, Event>)
  {
    forall id {:trigger d[id]} | id in d :: WellFormedEvent(d, d[id])
  }

  type Dag = d: map<EventId, Event> | WellFormed(d) witness map[]

  /** The events `a` observes: itself and everything below it. */
  ghost function Past(d: Dag, a: EventId): (past: set<EventId>)
    requires a in d
    ensures a in past
    ensures past <= d.Keys
    decreases d[a].lamport
  {
    {a} + set p, x | p in d[a].parents && x in Past(d, p) :: x
  }

  /** The union of the pasts of some events. */
  ghost function PastOf(d: Dag, ids: seq<EventId>): (past: set<EventId>)
    requires forall p | p in ids :: p in d
    ensures past <= d.Keys
  {
    set p, x | p in ids && x in Past(d, p) :: x
  }

  lemma PastUnfold(d: Dag, a: EventId)
    requires a in d
    ensures Past(d, a) == {a} + PastOf(d, d[a].parents)
  {}

  lemma PastOfSnoc(d: Dag, ids: seq<EventId>, p: EventId)
    requires forall q | q in ids :: q in d
    requires p in d
    ensures PastOf(d, ids + [p]) == PastOf(d, ids) + Past(d, p)
  {
    forall x
      ensures x in PastOf(d, ids + [p]) <==> x in PastOf(d, ids) || x in Past(d, p)
    {
      if x in PastOf(d, ids) {
        var q :| q in ids && x in Past(d, q);
        assert q in ids + [p];
      } else if x in Past(d, p) {
        assert p in ids + [p];
      }
    }
  }

  /** Observing is transitive. */
  lemma {:induction false} PastTransitive(d: Dag, a: EventId, b: EventId)
    requires a in d && b in Past(d, a)
    ensures Past(d, b) <= Past(d, a)
    decreases d[a].lamport
  {
    if a != b {
      var p :| p in d[a].parents && b in Past(d, p);
      PastTransitive(d, p, b);
    }
  }

  /** Whatever an event observes besides itself has a smaller Lamport time. */
  lemma {:induction false} PastLamport(d: Dag, a: EventId, b: EventId)
    requires a in d && b in Past(d, a)
    ensures a == b || d[b].lamport < d[a].lamport
    decreases d[a].lamport
  {
    if a != b {
      var p :| p in d[a].parents && b in Past(d, p);
      PastLamport(d, p, b);
    }
  }

  /** The past of an event does not depend on which later or unrelated events are known. */
  lemma {:induction false} PastStable(d: Dag, d': Dag, a: EventId)
    requires a in d
    requires forall id | id in d :: id in d' && d'[id] == d[id]
    ensures Past(d, a) == Past(d', a)
    decreases d[a].lamport
  {
    forall p | p in d[a].parents
      ensures Past(d, p) == Past(d', p)
    {
      PastStable(d, d', p);
    }
  }

  predicate AllIn(d: map<EventId, Event>, ids: seq<EventId>)
  {
    forall p | p in ids :: p in d
  }

  /** A set of events that holds the parents of its members. */
  ghost predicate Closed(d: Dag, ids: set<EventId>)
  {
    && ids <= d.Keys
    && forall id, p {:trigger id in ids, p in d[id].parents} | id in ids && p in d[id].parents :: p in ids
  }

  lemma {:induction false} ClosedHoldsPast(d: Dag, ids: set<EventId>, a: EventId)
    requires Closed(d, ids) && a in ids
    ensures Past(d, a) <= ids
    decreases d[a].lamport
  {
    forall p | p in d[a].parents
      ensures Past(d, p) <= ids
    {
      ClosedHoldsPast(d, ids, p);
    }
  }

  lemma PastClosed(d: Dag, a: EventId)
    requires a in d
    ensures Closed(d, Past(d, a))
  {
    forall x, p | x in Past(d, a) && p in d[x].parents
      ensures p in Past(d, a)
    {
      PastTransitive(d, a, x);
      assert p in Past(d, p);
    }
  }

  // ---------- self-parent chains ----------

  /** The event with number `s` on the self-parent chain that ends in `x`. */
  ghost function ChainAt(d: Dag, x: EventId, s: nat): (y: EventId)
    requires x in d && 1 <= s <= d[x].seqNo
    ensures y in d && d[y].seqNo == s && d[y].creator == d[x].creator
    ensures y in Past(d, x)
    decreases d[x].lamport
  {
    if s == d[x].seqNo then x
    else
      var p := d[x].parents[0];
      assert p in d[x].parents;
      var y := ChainAt(d, p, s);
      assert y in Past(d, p);
      y
  }

  /** Walking down in two steps is walking down in one. */
  lemma {:induction false} ChainCompose(d: Dag, x: EventId, s: nat, t: nat)
    requires x in d && 1 <= s <= t <= d[x].seqNo
    ensures ChainAt(d, ChainAt(d, x, t), s) == ChainAt(d, x, s)
    decreases d[x].lamport
  {
    if t != d[x].seqNo {
      assert d[x].parents[0] in d[x].parents;
      ChainCompose(d, d[x].parents[0], s, t);
    }
  }

  /** Claimed times rise along a self-parent chain. */
  lemma {:induction false} ChainTimes(d: Dag, x: EventId, s: nat)
    requires x in d && 1 <= s <= d[x].seqNo
    ensures s < d[x].seqNo ==> d[ChainAt(d, x, s)].claimedTime < d[x].claimedTime
    decreases d[x].lamport
  {
    if s < d[x].seqNo {
      assert d[x].parents[0] in d[x].parents;
      ChainTimes(d, d[x].parents[0], s);
    }
  }

  // ---------- forks ----------

  /** Two different events of one creator with the same number. */
  predicate ForkPair(d: map<EventId, Event>, x: EventId, y: EventId)
  {
    && x in d && y in d && x != y
    && d[x].creator == d[y].creator
    && d[x].seqNo == d[y].seqNo
  }

  /** Some two of the given events are a fork of creator `c`. */
  ghost predicate ForkIn(d: Dag, ids: set<EventId>, c: nat)
  {
    exists x, y | x in ids && y in ids :: ForkPair(d, x, y) && d[x].creator == c
  }

  /** Neither event lies on the self-parent chain of the other. */
  ghost predicate OffChain(d: Dag, x: EventId, y: EventId)
  {
    && x in d && y in d && d[x].creator == d[y].creator
    && d[x].seqNo >= 1 && d[y].seqNo >= 1
    && (d[y].seqNo <= d[x].seqNo ==> ChainAt(d, x, d[y].seqNo) != y)
    && (d[x].seqNo <= d[y].seqNo ==> ChainAt(d, y, d[x].seqNo) != x)
  }

  /** A closed set holds a fork exactly when it holds two events off each other's chain. */
  lemma ForkIffOffChain(d: Dag, ids: set<EventId>, c: nat)
    requires Closed(d, ids)
    ensures ForkIn(d, ids, c) <==> exists x, y | x in ids && y in ids :: OffChain(d, x, y) && d[x].creator == c
  {
    if ForkIn(d, ids, c) {
      var x, y :| x in ids && y in ids && ForkPair(d, x, y) && d[x].creator == c;
      assert OffChain(d, x, y);
    }
    forall x, y | x in ids && y in ids && OffChain(d, x, y) && d[x].creator == c
      ensures ForkIn(d, ids, c)
    {
      OffChainGivesFork(d, ids, x, y);
    }
  }

  lemma OffChainGivesFork(d: Dag, ids: set<EventId>, x: EventId, y: EventId)
    requires Closed(d, ids) && x in ids && y in ids && OffChain(d, x, y)
    ensures ForkIn(d, ids, d[x].creator)
  {
    var (hi, lo) := if d[y].seqNo <= d[x].seqNo then (x, y) else (y, x);
    var z := ChainAt(d, hi, d[lo].seqNo);
    ClosedHoldsPast(d, ids, hi);
    assert ForkPair(d, z, lo);
  }

  /** Without a fork, the lower of two events of a creator is on the chain of the higher one. */
  lemma NoForkChain(d: Dag, ids: set<EventId>, x: EventId, y: EventId)
    requires Closed(d, ids) && x in ids && y in ids
    requires d[x].creator == d[y].creator && d[y].seqNo <= d[x].seqNo
    requires !ForkIn(d, ids, d[x].creator)
    ensures d[y].seqNo >= 1 && ChainAt(d, x, d[y].seqNo) == y
  {
    var z := ChainAt(d, x, d[y].seqNo);
    ClosedHoldsPast(d, ids, x);
    assert !ForkPair(d, z, y);
  }

  lemma ForkMonotone(d: Dag, ids: set<EventId>, more: set<EventId>, c: nat)
    requires ids <= more && ForkIn(d, ids, c)
    ensures ForkIn(d, more, c)
  {}
}
