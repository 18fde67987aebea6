/**
 Confirming events: each decided Atropos confirms what it observes and nobody before it did.
 */
module Confirmation {
  import opened Dag

  /** The frame each event is confirmed on after the given Atropoi of frames 1, 2, ... were decided. */
  ghost function ConfirmedBy(d: Dag, atropoi: seq<EventId>): (on: map<EventId, nat>)
    requires AllIn(d, atropoi)
  {
    if atropoi == [] then map[]
    else
      var before := ConfirmedBy(d, Earlier(d, atropoi));
      Confirm(before, Past(d, atropoi[|atropoi| - 1]), |atropoi|)
  }

  /** All but the last Atropos. */
  function Earlier(d: map<EventId, Event>, atropoi: seq<EventId>): (init: seq<EventId>)
    requires AllIn(d, atropoi) && atropoi != []
    ensures AllIn(d, init) && |init| == |atropoi| - 1 && atropoi[|atropoi| - 1] in d
    ensures forall i | 0 <= i < |init| :: init[i] == atropoi[i]
  {
    assert forall x | x in atropoi[..|atropoi| - 1] :: x in atropoi;
    atropoi[..|atropoi| - 1]
  }

  /** Adds the events of `ids` not confirmed before. */
  ghost function Confirm(before: map<EventId, nat>, ids: set<EventId>, frame: nat): (on: map<EventId, nat>)
    ensures on.Keys == before.Keys + ids
    ensures forall x | x in on :: on[x] == if x in before then before[x] else frame
  {
    before + map x | x in ids && x !in before :: frame
  }

  /** The events the last Atropos confirms. */
  ghost function NewlyConfirmed(d: Dag, atropoi: seq<EventId>): (ids: set<EventId>)
    requires atropoi != [] && AllIn(d, atropoi)
    ensures ids <= d.Keys
  {
    Past(d, atropoi[|atropoi| - 1]) - ConfirmedBy(d, Earlier(d, atropoi)).Keys
  }

  /** After any run of decisions the confirmed events are closed under parents, and each is
      confirmed on one of the decided frames. */
  lemma {:induction false} ConfirmedRun(d: Dag, atropoi: seq<EventId>)
    requires AllIn(d, atropoi)
    ensures Closed(d, ConfirmedBy(d, atropoi).Keys)
    ensures forall x | x in ConfirmedBy(d, atropoi) :: 1 <= ConfirmedBy(d, atropoi)[x] <= |atropoi|
  {
    if atropoi != [] {
      var init, last := Earlier(d, atropoi), atropoi[|atropoi| - 1];
      ConfirmedRun(d, init);
      PastClosed(d, last);
      UnionClosed(d, ConfirmedBy(d, init).Keys, Past(d, last));
    }
  }

  lemma ConfirmedInRange(d: Dag, atropoi: seq<EventId>, x: EventId)
    requires AllIn(d, atropoi)
    ensures x in ConfirmedBy(d, atropoi) ==> x in d && 1 <= ConfirmedBy(d, atropoi)[x] <= |atropoi|
  {
    ConfirmedRun(d, atropoi);
  }

  lemma UnionClosed(d: Dag, a: set<EventId>, b: set<EventId>)
    requires Closed(d, a) && Closed(d, b)
    ensures Closed(d, a + b)
  {
    forall id, p | id in a + b && p in d[id].parents
      ensures p in a + b
    {
      if id in a {
        assert p in a;
      } else {
        assert id in b && p in b;
      }
    }
  }

  /** Some of the first `k` Atropoi observes `x`. */
  ghost predicate ObservedBefore(d: Dag, atropoi: seq<EventId>, k: nat, x: EventId)
    requires AllIn(d, atropoi) && k <= |atropoi|
  {
    exists i | 0 <= i < k :: atropoi[i] in d && x in Past(d, atropoi[i])
  }

  /** An event is confirmed on frame `f` exactly when the Atropos of `f` observes it and no earlier one does. */
  lemma {:induction false} ConfirmedOnFirst(d: Dag, atropoi: seq<EventId>, x: EventId, f: nat)
    requires AllIn(d, atropoi) && 1 <= f <= |atropoi|
    ensures atropoi[f - 1] in d
    ensures x in ConfirmedBy(d, atropoi) && ConfirmedBy(d, atropoi)[x] == f
       <==> x in Past(d, atropoi[f - 1]) && !ObservedBefore(d, atropoi, f - 1, x)
  {
    hide Past;
    var init := Earlier(d, atropoi);
    ConfirmedRun(d, init);
    if f < |atropoi| {
      ConfirmedOnFirst(d, init, x, f);
      ObservedPrefix(d, atropoi, f - 1, x);
    } else {
      ConfirmedIff(d, init, x);
      ObservedPrefix(d, atropoi, f - 1, x);
    }
  }

  lemma ObservedPrefix(d: Dag, atropoi: seq<EventId>, k: nat, x: EventId)
    requires AllIn(d, atropoi) && atropoi != [] && k < |atropoi|
    ensures ObservedBefore(d, Earlier(d, atropoi), k, x) <==> ObservedBefore(d, atropoi, k, x)
  {
    hide Past;
    var init := Earlier(d, atropoi);
    if i :| 0 <= i < k && init[i] in d && x in Past(d, init[i]) {
      assert atropoi[i] in d && x in Past(d, atropoi[i]);
    }
    if i :| 0 <= i < k && atropoi[i] in d && x in Past(d, atropoi[i]) {
      assert init[i] in d && x in Past(d, init[i]);
    }
  }

  lemma {:induction false} ConfirmedIff(d: Dag, atropoi: seq<EventId>, x: EventId)
    requires AllIn(d, atropoi)
    ensures x in ConfirmedBy(d, atropoi) <==> ObservedBefore(d, atropoi, |atropoi|, x)
  {
    hide Past;
    if atropoi != [] {
      var k := |atropoi| - 1;
      ConfirmedIff(d, Earlier(d, atropoi), x);
      ObservedPrefix(d, atropoi, k, x);
      if i :| 0 <= i < |atropoi| && atropoi[i] in d && x in Past(d, atropoi[i]) {
        assert i < k ==> ObservedBefore(d, atropoi, k, x);
      }
    }
  }

  // ---------- the walk ----------

  /** The list holds exactly the events of the set, each once. */
  ghost predicate ListOf(list: seq<EventId>, ids: set<EventId>)
  {
    && (forall x :: x in list <==> x in ids)
    && (forall i, j | 0 <= i < j < |list| :: list[i] != list[j])
  }

  lemma ListSnoc(list: seq<EventId>, ids: set<EventId>, x: EventId)
    requires ListOf(list, ids) && x !in ids
    ensures ListOf(list + [x], ids + {x})
  {
    assert forall i | 0 <= i < |list| :: list[i] in list;
  }

  /** The walk below an Atropos: `done` is confirmed now, and everything below is confirmed or
      still reachable through the stack. */
  ghost predicate Confirming(d: Dag, on0: map<EventId, nat>, on: map<EventId, nat>, below: set<EventId>, head: EventId,
                             frame: nat, done: set<EventId>, stack: seq<EventId>)
  {
    && done <= below <= d.Keys && done !! on0.Keys
    && on.Keys == on0.Keys + done
    && (forall x {:trigger on[x]} | x in on :: on[x] == if x in on0 then on0[x] else frame)
    && (forall x | x in stack :: x in below)
    && Awaited(on, stack, head)
    && (forall x, p {:trigger x in done, p in d[x].parents} | x in done && p in d[x].parents :: Awaited(on, stack, p))
  }

  predicate Awaited(on: map<EventId, nat>, stack: seq<EventId>, x: EventId)
  {
    x in on || x in stack
  }

  lemma ConfirmingStart(d: Dag, on: map<EventId, nat>, head: EventId, frame: nat)
    requires head in d
    ensures Confirming(d, on, on, Past(d, head), head, frame, {}, [head])
  {}

  lemma AwaitedMoves(on: map<EventId, nat>, on': map<EventId, nat>, stack: seq<EventId>, stack': seq<EventId>,
                     p: EventId)
    requires |stack| > 0 && stack[..|stack| - 1] <= stack'
    requires on.Keys <= on'.Keys && stack[|stack| - 1] in on'
    requires Awaited(on, stack, p)
    ensures Awaited(on', stack', p)
  {
    if p in stack && p != stack[|stack| - 1] {
      var i :| 0 <= i < |stack| && stack[i] == p;
      assert stack'[i] == p;
    }
  }

  lemma ConfirmingSkip(d: Dag, on0: map<EventId, nat>, on: map<EventId, nat>, below: set<EventId>, head: EventId,
                       frame: nat, done: set<EventId>, stack: seq<EventId>)
    requires |stack| > 0 && Confirming(d, on0, on, below, head, frame, done, stack)
    requires stack[|stack| - 1] in on
    ensures Confirming(d, on0, on, below, head, frame, done, stack[..|stack| - 1])
  {
    var stack' := stack[..|stack| - 1];
    forall p | Awaited(on, stack, p)
      ensures Awaited(on, stack', p)
    {
      AwaitedMoves(on, on, stack, stack', p);
    }
  }

  lemma ConfirmingDeeper(d: Dag, on0: map<EventId, nat>, on: map<EventId, nat>, below: set<EventId>, head: EventId,
                         frame: nat, done: set<EventId>, stack: seq<EventId>, top: EventId)
    requires |stack| > 0 && Confirming(d, on0, on, below, head, frame, done, stack) && Closed(d, below)
    requires top == stack[|stack| - 1] && top in below && top !in on
    ensures Confirming(d, on0, on[top := frame], below, head, frame, done + {top},
                       stack[..|stack| - 1] + d[top].parents)
  {
    var on', stack' := on[top := frame], stack[..|stack| - 1] + d[top].parents;
    forall p | Awaited(on, stack, p)
      ensures Awaited(on', stack', p)
    {
      AwaitedMoves(on, on', stack, stack', p);
    }
    forall p | p in d[top].parents
      ensures p in below && Awaited(on', stack', p)
    {
      var i :| 0 <= i < |d[top].parents| && d[top].parents[i] == p;
      assert stack'[|stack| - 1 + i] == p;
    }
    forall x | x in stack'
      ensures x in below
    {
      assert x in stack[..|stack| - 1] ==> x in stack;
    }
  }

  /** A finished walk confirmed exactly what the Atropos observes and was not confirmed. */
  lemma ConfirmingEnd(d: Dag, on0: map<EventId, nat>, on: map<EventId, nat>, head: EventId, frame: nat,
                      done: set<EventId>)
    requires head in d && Closed(d, on0.Keys) && Confirming(d, on0, on, Past(d, head), head, frame, done, [])
    ensures done == Past(d, head) - on0.Keys
    ensures on == Confirm(on0, Past(d, head), frame)
  {
    hide Past;
    WalkIsClosed(d, on0, on, Past(d, head), head, frame, done);
    ClosedHoldsPast(d, on.Keys, head);
  }

  lemma WalkIsClosed(d: Dag, on0: map<EventId, nat>, on: map<EventId, nat>, below: set<EventId>, head: EventId,
                     frame: nat, done: set<EventId>)
    requires Closed(d, on0.Keys) && Confirming(d, on0, on, below, head, frame, done, [])
    ensures Closed(d, on.Keys) && head in on
  {
    assert Awaited(on, [], head);
    forall x, p | x in on.Keys && p in d[x].parents
      ensures p in on.Keys
    {
      if x in done {
        assert Awaited(on, [], p);
      } else {
        assert x in on0.Keys && p in on0.Keys;
      }
    }
  }
}
