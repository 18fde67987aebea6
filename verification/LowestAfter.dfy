/**
 What the LowestAfter vectors must hold, and why the pruned walk that updates them misses
 nothing.
 */
module LowestAfter {
  import opened Dag
  import opened Branches

  /** The indexed events of branch `br` that observe `x`. */
  ghost function Observers(d: Dag, at: map<EventId, nat>, br: nat, x: EventId): (obs: set<EventId>)
    requires at.Keys <= d.Keys
    ensures obs <= at.Keys
  {
    set y | y in at && at[y] == br && x in Past(d, y)
  }

  /** `l` is the lowest number among the events, or 0 if there are none. */
  ghost predicate LowestOf(d: Dag, ids: set<EventId>, l: nat)
    requires ids <= d.Keys
  {
    if l == 0 then ids == {}
    else (exists y | y in ids :: d[y].seqNo == l) && forall y | y in ids :: l <= d[y].seqNo
  }

  /** `l` is the lowest number on the branch of an event observing `x`, or 0 if none does. */
  ghost predicate Lowest(d: Dag, at: map<EventId, nat>, br: nat, x: EventId, l: nat)
    requires at.Keys <= d.Keys
  {
    LowestOf(d, Observers(d, at, br, x), l)
  }

  ghost predicate LowestExact(d: Dag, at: map<EventId, nat>, la: map<EventId, seq<nat>>)
  {
    && la.Keys == at.Keys <= d.Keys
    && forall x, br: nat {:trigger Lowest(d, at, br, x, Get(la[x], br, 0))} | x in at ::
         Lowest(d, at, br, x, Get(la[x], br, 0))
  }

  /** The vector has an entry for the branch. */
  predicate Done(la: map<EventId, seq<nat>>, me: nat, x: EventId)
  {
    x in la && Get(la[x], me, 0) != 0
  }

  /** What the walk has done to one vector so far: nothing, or set a missing entry. */
  predicate Touched(before: seq<nat>, after: seq<nat>, me: nat, s: nat)
  {
    Get(before, me, 0) == 0 && after == Set(before, me, s, 0)
  }

  /** Set already, or waiting on the stack. */
  predicate Pending(la: map<EventId, seq<nat>>, me: nat, stack: seq<EventId>, x: EventId)
  {
    Done(la, me, x) || x in stack
  }

  /**
   The state of the walk below event `e`: vectors of events of `below` are untouched or set
   once, and everything below is set or still reachable through the stack.
   */
  ghost predicate Walking(d: Dag, la0: map<EventId, seq<nat>>, la: map<EventId, seq<nat>>,
                          below: set<EventId>, e: Event, me: nat, stack: seq<EventId>)
  {
    && la.Keys == la0.Keys <= d.Keys
    && (forall x {:trigger la[x]} | x in la :: la[x] == la0[x] || (x in below && Touched(la0[x], la[x], me, e.seqNo)))
    && (forall x | x in stack :: x in below && x in la)
    && (forall p | p in e.parents :: Pending(la, me, stack, p))
    && (forall x, p | x in la && la[x] != la0[x] && p in d[x].parents :: Pending(la, me, stack, p))
  }

  lemma PendingMoves(la: map<EventId, seq<nat>>, la': map<EventId, seq<nat>>, me: nat,
                     stack: seq<EventId>, stack': seq<EventId>, p: EventId)
    requires |stack| > 0 && stack[..|stack| - 1] <= stack'
    requires forall x | x in la :: x in la' && (la'[x] == la[x] || Done(la', me, x))
    requires Done(la', me, stack[|stack| - 1])
    requires Pending(la, me, stack, p)
    ensures Pending(la', me, stack', p)
  {
    if p in stack && p != stack[|stack| - 1] {
      var i :| 0 <= i < |stack| && stack[i] == p;
      assert stack'[i] == p;
    }
  }

  lemma WalkTop(d: Dag, la0: map<EventId, seq<nat>>, la: map<EventId, seq<nat>>,
                below: set<EventId>, e: Event, me: nat, stack: seq<EventId>)
    requires |stack| > 0 && Walking(d, la0, la, below, e, me, stack)
    ensures la.Keys == la0.Keys && stack[|stack| - 1] in la
  {
    assert stack[|stack| - 1] in stack;
  }

  lemma WalkStart(d: Dag, la: map<EventId, seq<nat>>, id: EventId, me: nat)
    requires id in d && la.Keys <= d.Keys && forall p | p in d[id].parents :: p in la
    ensures Walking(d, la, la, PastOf(d, d[id].parents), d[id], me, d[id].parents)
  {
    var ps := d[id].parents;
    var below := PastOf(d, ps);
    forall p | p in ps
      ensures p in below && Pending(la, me, ps, p)
    {
      assert p in Past(d, p);
    }
  }

  /** Skipping an entry that is already set. */
  lemma WalkSkip(d: Dag, la0: map<EventId, seq<nat>>, la: map<EventId, seq<nat>>,
                 below: set<EventId>, e: Event, me: nat, stack: seq<EventId>)
    requires |stack| > 0 && Walking(d, la0, la, below, e, me, stack)
    requires Done(la, me, stack[|stack| - 1])
    ensures Walking(d, la0, la, below, e, me, stack[..|stack| - 1])
  {
    var stack' := stack[..|stack| - 1];
    forall p | Pending(la, me, stack, p)
      ensures Pending(la, me, stack', p)
    {
      PendingMoves(la, la, me, stack, stack', p);
    }
  }

  /** Setting a missing entry and going deeper. */
  lemma WalkDeeper(d: Dag, la0: map<EventId, seq<nat>>, la: map<EventId, seq<nat>>,
                   below: set<EventId>, e: Event, me: nat, stack: seq<EventId>, top: EventId)
    requires |stack| > 0 && Walking(d, la0, la, below, e, me, stack)
    requires Closed(d, la0.Keys) && Closed(d, below) && e.seqNo >= 1
    requires top == stack[|stack| - 1] && top in la && !Done(la, me, top)
    ensures Walking(d, la0, la[top := Set(la[top], me, e.seqNo, 0)], below, e, me,
                    stack[..|stack| - 1] + d[top].parents)
  {
    assert top in stack;
    var la' := la[top := Set(la[top], me, e.seqNo, 0)];
    var stack' := stack[..|stack| - 1] + d[top].parents;
    forall p | Pending(la, me, stack, p)
      ensures Pending(la', me, stack', p)
    {
      PendingMoves(la, la', me, stack, stack', p);
    }
    forall p | p in d[top].parents
      ensures p in stack' && Pending(la', me, stack', p)
    {
      var i :| 0 <= i < |d[top].parents| && d[top].parents[i] == p;
      assert stack'[|stack| - 1 + i] == p;
    }
    forall x | x in stack'
      ensures x in below && x in la'
    {
      assert x in stack[..|stack| - 1] ==> x in stack;
    }
    forall x | x in la'
      ensures la'[x] == la0[x] || (x in below && Touched(la0[x], la'[x], me, e.seqNo))
    {
      assert x == top ==> la[x] == la0[x];
    }
  }

  lemma BelowIsClosed(d: Dag, id: EventId)
    requires id in d
    ensures Closed(d, PastOf(d, d[id].parents))
  {
    var below := PastOf(d, d[id].parents);
    forall x, p | x in below && p in d[x].parents
      ensures p in below
    {
      var q :| q in d[id].parents && x in Past(d, q);
      PastTransitive(d, q, x);
      assert p in Past(d, p);
      assert p in Past(d, x);
    }
  }

  /** An event that is set has its whole past set: either by an older event of the branch, or by the walk. */
  lemma {:induction false} DoneIsClosed(d: Dag, at: map<EventId, nat>, la0: map<EventId, seq<nat>>,
                                        la: map<EventId, seq<nat>>,
                     below: set<EventId>, e: Event, me: nat, x: EventId, z: EventId)
    requires e.seqNo >= 1 && Walking(d, la0, la, below, e, me, [])
    requires LowestExact(d, at, la0) && Closed(d, at.Keys)
    requires x in at && Done(la, me, x) && z in Past(d, x)
    ensures z in at && Done(la, me, z)
    decreases d[x].lamport
  {
    ClosedHoldsPast(d, at.Keys, x);
    if la[x] == la0[x] {
      assert Lowest(d, at, me, x, Get(la0[x], me, 0));
      var y :| y in Observers(d, at, me, x);
      PastTransitive(d, y, x);
      assert y in Observers(d, at, me, z);
      assert Lowest(d, at, me, z, Get(la0[z], me, 0));
    } else if z != x {
      var p :| p in d[x].parents && z in Past(d, p);
      assert Pending(la, me, [], p);
      DoneIsClosed(d, at, la0, la, below, e, me, p, z);
    }
  }

  /** When the stack is empty every event below the new one has its entry. */
  lemma WalkComplete(d: Dag, at: map<EventId, nat>, la0: map<EventId, seq<nat>>, la: map<EventId, seq<nat>>,
                     below: set<EventId>, e: Event, me: nat, x: EventId)
    requires e.seqNo >= 1 && Walking(d, la0, la, below, e, me, [])
    requires LowestExact(d, at, la0) && Closed(d, at.Keys)
    requires forall p | p in e.parents :: p in at
    requires x in PastOf(d, e.parents)
    ensures x in at && Done(la, me, x)
  {
    var p :| p in e.parents && x in Past(d, p);
    assert Pending(la, me, [], p);
    DoneIsClosed(d, at, la0, la, below, e, me, p, x);
  }

  /** Who observes `x` once the new event is placed: the old observers, and the new event if `x` is below it. */
  lemma NewObservers(d: Dag, at: map<EventId, nat>, id: EventId, me: nat, br: nat, x: EventId)
    requires id in d && id !in at && Closed(d, at.Keys)
    ensures Observers(d, at[id := me], br, x) ==
            (if x == id then {} else Observers(d, at, br, x)) + (if br == me && x in Past(d, id) then {id} else {})
  {
    if x == id {
      forall y | y in at
        ensures id !in Past(d, y)
      {
        ClosedHoldsPast(d, at.Keys, y);
      }
    }
  }

  /** The walk sets exactly the missing entries of the events below the new one. */
  lemma WalkSets(d: Dag, at: map<EventId, nat>, la0: map<EventId, seq<nat>>, la: map<EventId, seq<nat>>,
                 id: EventId, me: nat, x: EventId, br: nat)
    requires id in d && Walking(d, la0, la, PastOf(d, d[id].parents), d[id], me, [])
    requires LowestExact(d, at, la0) && Closed(d, at.Keys)
    requires forall p | p in d[id].parents :: p in at
    requires x in at && x != id
    ensures Get(la[x], br, 0) ==
            if br == me && x in Past(d, id) && Get(la0[x], br, 0) == 0 then d[id].seqNo else Get(la0[x], br, 0)
  {
    PastUnfold(d, id);
    if x in Past(d, id) {
      WalkComplete(d, at, la0, la, PastOf(d, d[id].parents), d[id], me, x);
    }
  }

  /** Filling the entry with the new event's number, if it was missing, keeps it the lowest. */
  lemma LowestGrows(d: Dag, at: map<EventId, nat>, id: EventId, me: nat, br: nat, x: EventId, l: nat)
    requires id in d && id !in at && Closed(d, at.Keys) && x != id
    requires forall y | y in at && at[y] == me :: d[y].seqNo < d[id].seqNo
    requires Lowest(d, at, br, x, l)
    ensures Lowest(d, at[id := me], br, x, if br == me && x in Past(d, id) && l == 0 then d[id].seqNo else l)
  {
    NewObservers(d, at, id, me, br, x);
    if br == me && x in Past(d, id) {
      LowestWithLast(d, Observers(d, at, br, x), id, l);
    }
  }

  lemma LowestWithLast(d: Dag, ids: set<EventId>, id: EventId, l: nat)
    requires ids <= d.Keys && id in d && LowestOf(d, ids, l)
    requires forall y | y in ids :: d[y].seqNo < d[id].seqNo
    ensures LowestOf(d, ids + {id}, if l == 0 then d[id].seqNo else l)
  {
    assert d[id].seqNo >= 1;
    if l != 0 {
      var y :| y in ids && d[y].seqNo == l;
      assert y in ids + {id};
    } else {
      assert ids + {id} == {id};
    }
  }

  /** The new event is observed by itself alone. */
  lemma OwnVectorExact(d: Dag, at: map<EventId, nat>, id: EventId, me: nat, own: seq<nat>, br: nat)
    requires id in d && id !in at && Closed(d, at.Keys)
    requires forall b: nat :: Get(own, b, 0) == if b == me then d[id].seqNo else 0
    ensures Lowest(d, at[id := me], br, id, Get(own, br, 0))
  {
    NewObservers(d, at, id, me, br, id);
    assert d[id].seqNo >= 1;
  }
}
