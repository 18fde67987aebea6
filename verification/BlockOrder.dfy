/**
 The order of events in a block: by Lamport time, then by hash.
 */
module BlockOrder {
  import opened Common
  import opened Dag

  predicate Before(d: map<EventId, Event>, a: EventId, b: EventId)
    requires a in d && b in d
  {
    d[a].lamport < d[b].lamport || (d[a].lamport == d[b].lamport && a < b)
  }

  ghost predicate Ordered(d: map<EventId, Event>, ids: seq<EventId>)
  {
    && (forall i | 0 <= i < |ids| :: ids[i] in d)
    && (forall i, j | 0 <= i < j < |ids| :: Before(d, ids[i], ids[j]))
  }

  /** The events of a set have one order only: nodes that confirm the same events build the same block. */
  lemma {:induction false} OrderUnique(d: map<EventId, Event>, a: seq<EventId>, b: seq<EventId>)
    requires Ordered(d, a) && Ordered(d, b)
    requires forall x :: x in a <==> x in b
    ensures a == b
  {
    if a == [] {
      if b != [] {
        HasMember(b);
      }
    } else {
      assert a[0] in a;
      LastIsSame(d, a, b);
      var a', b' := a[..|a| - 1], b[..|b| - 1];
      forall x
        ensures x in a' <==> x in b'
      {
        DropLast(d, a, x);
        DropLast(d, b, x);
      }
      OrderUnique(d, a', b');
      assert a == a' + [a[|a| - 1]] && b == b' + [b[|b| - 1]];
    }
  }

  lemma LastIsSame(d: map<EventId, Event>, a: seq<EventId>, b: seq<EventId>)
    requires Ordered(d, a) && Ordered(d, b) && a != [] && b != []
    requires forall x :: x in a <==> x in b
    ensures a[|a| - 1] == b[|b| - 1]
  {
    var x, y := a[|a| - 1], b[|b| - 1];
    assert x in b && y in a;
    var k :| 0 <= k < |b| && b[k] == x;
    var j :| 0 <= j < |a| && a[j] == y;
    assert k < |b| - 1 ==> Before(d, x, y);
    assert j < |a| - 1 ==> Before(d, y, x);
  }

  lemma DropLast(d: map<EventId, Event>, a: seq<EventId>, x: EventId)
    requires Ordered(d, a) && a != []
    ensures x in a[..|a| - 1] <==> x in a && x != a[|a| - 1]
  {
    if x in a && x != a[|a| - 1] {
      var i :| 0 <= i < |a| && a[i] == x;
      assert a[..|a| - 1][i] == x;
    }
    if x in a[..|a| - 1] {
      var i :| 0 <= i < |a| - 1 && a[i] == x;
      assert Before(d, a[i], a[|a| - 1]);
    }
  }

  /** In a block every event comes after its ancestors. */
  lemma AncestorsComeFirst(d: Dag, ids: seq<EventId>, i: nat, j: nat)
    requires Ordered(d, ids) && i < |ids| && j < |ids| && i != j
    requires ids[i] in Past(d, ids[j])
    ensures i < j
  {
    PastLamport(d, ids[j], ids[i]);
    assert j < i ==> Before(d, ids[j], ids[i]);
  }

  /** Sorts events into the order of a block. */
  method FareOrdering(unordered: seq<EventId>, headers: map<EventId, Event>) returns (ids: seq<EventId>)
    requires forall x | x in unordered :: x in headers
    requires forall i, j | 0 <= i < j < |unordered| :: unordered[i] != unordered[j]
    ensures Ordered(headers, ids)
    ensures forall i, j | 0 <= i < j < |ids| ::
              && ids[i] in headers && ids[j] in headers && headers[ids[i]].lamport <= headers[ids[j]].lamport
              && (headers[ids[i]].lamport == headers[ids[j]].lamport ==> ids[i] < ids[j])
    ensures forall x :: x in ids <==> x in unordered
  {
    ids := [];
    for i := 0 to |unordered|
      invariant Ordered(headers, ids)
      invariant forall x :: x in ids <==> x in unordered[..i]
    {
      var e := unordered[i];
      assert e in unordered;
      assert e !in unordered[..i];
      var k := PlaceFor(ids, e, headers);
      InsertOrdered(headers, ids, k, e);
      TakeSnoc(unordered, i);
      forall x
        ensures x in Inserted(ids, k, e) <==> x in ids || x == e
      {
        InsertedMembers(ids, k, e, x);
      }
      ids := Inserted(ids, k, e);
    }
    TakeAll(unordered);
  }

  /** Where an event goes: after the ones that come before it. */
  method PlaceFor(ids: seq<EventId>, e: EventId, headers: map<EventId, Event>) returns (k: nat)
    requires Ordered(headers, ids) && e in headers && e !in ids
    ensures k <= |ids|
    ensures forall j | 0 <= j < k :: Before(headers, ids[j], e)
    ensures forall j | k <= j < |ids| :: Before(headers, e, ids[j])
  {
    k := |ids|;
    while k > 0 && Before(headers, e, ids[k - 1])
      invariant k <= |ids|
      invariant forall j | k <= j < |ids| :: Before(headers, e, ids[j])
    {
      k := k - 1;
    }
    if k > 0 {
      assert ids[k - 1] in ids && Before(headers, ids[k - 1], e);
      forall j | 0 <= j < k
        ensures Before(headers, ids[j], e)
      {
        assert j < k - 1 ==> Before(headers, ids[j], ids[k - 1]);
      }
    }
  }

  /** The list with `e` put before position `k`. */
  function Inserted(ids: seq<EventId>, k: nat, e: EventId): (r: seq<EventId>)
    requires k <= |ids|
    ensures |r| == |ids| + 1
    ensures forall j | 0 <= j < |r| :: r[j] == if j < k then ids[j] else if j == k then e else ids[j - 1]
  {
    ids[..k] + [e] + ids[k..]
  }

  lemma InsertedMembers(ids: seq<EventId>, k: nat, e: EventId, x: EventId)
    requires k <= |ids|
    ensures x in Inserted(ids, k, e) <==> x in ids || x == e
  {
    assert ids == ids[..k] + ids[k..];
  }

  lemma InsertOrdered(d: map<EventId, Event>, ids: seq<EventId>, k: nat, e: EventId)
    requires Ordered(d, ids) && e in d && k <= |ids|
    requires forall j | 0 <= j < k :: Before(d, ids[j], e)
    requires forall j | k <= j < |ids| :: Before(d, e, ids[j])
    ensures Ordered(d, Inserted(ids, k, e))
  {
    var r := Inserted(ids, k, e);
    forall i, j | 0 <= i < j < |r|
      ensures r[i] in d && r[j] in d && Before(d, r[i], r[j])
    {
      if i < k && j > k {
        assert Before(d, ids[i], ids[j - 1]);
      } else if i > k {
        assert Before(d, ids[i - 1], ids[j - 1]);
      }
    }
  }
}
