/**
 Transactions of one account, keyed and sorted by nonce.
 */
module Transactions {
  import opened Common

  datatype Tx = Tx(hash: nat, nonce: nat, gasPrice: nat, gas: nat, cost: nat)

  type Items = map<nat, Tx>

  /** Each transaction is stored under its nonce. */
  predicate Keyed(items: Items)
  {
    forall n {:trigger items[n]} | n in items :: items[n].nonce == n
  }

  /** The list holds the transactions in the order of their nonces. */
  ghost predicate Lists(list: seq<Tx>, items: Items)
  {
    && (forall i, j | 0 <= i < j < |list| :: list[i].nonce < list[j].nonce)
    && (forall t {:trigger t in list} :: t in list <==> t.nonce in items && items[t.nonce] == t)
  }

  /** There is one such list. */
  lemma {:induction false} ListUnique(a: seq<Tx>, b: seq<Tx>, items: Items)
    requires Lists(a, items) && Lists(b, items)
    ensures a == b
    decreases |a|
  {
    if a == [] || b == [] {
      if a != b {
        HasMember(a + b);
      }
    } else {
      LastSame(a, b, items);
      var last := a[|a| - 1];
      ListInit(a, items);
      ListInit(b, items);
      ListUnique(a[..|a| - 1], b[..|b| - 1], items - {last.nonce});
      assert a == a[..|a| - 1] + [last] && b == b[..|b| - 1] + [last];
    }
  }

  lemma LastSame(a: seq<Tx>, b: seq<Tx>, items: Items)
    requires Lists(a, items) && Lists(b, items) && a != [] && b != []
    ensures a[|a| - 1] == b[|b| - 1]
  {
    var x, y := a[|a| - 1], b[|b| - 1];
    assert x in a && y in b;
    assert x in b && y in a;
    var i :| 0 <= i < |b| && b[i] == x;
    var j :| 0 <= j < |a| && a[j] == y;
  }

  lemma ListInit(a: seq<Tx>, items: Items)
    requires Lists(a, items) && a != []
    ensures Lists(a[..|a| - 1], items - {a[|a| - 1].nonce})
  {
    var init, last := a[..|a| - 1], a[|a| - 1];
    forall t
      ensures t in init <==> t in a && t.nonce != last.nonce
    {
      if t in a && t.nonce != last.nonce {
        var i :| 0 <= i < |a| && a[i] == t;
        assert init[i] == t;
      }
    }
  }

  lemma ListTail(a: seq<Tx>, items: Items)
    requires Lists(a, items) && a != []
    ensures a[0].nonce in items && items[a[0].nonce] == a[0]
    ensures forall n | n in items :: items[n].nonce == n ==> a[0].nonce <= n
    ensures Lists(a[1..], items - {a[0].nonce})
  {
    var tail, first := a[1..], a[0];
    assert first in a;
    forall n | n in items && items[n].nonce == n
      ensures first.nonce <= n
    {
      assert items[n] in a;
    }
    forall t
      ensures t in tail <==> t in a && t.nonce != first.nonce
    {
      if t in a && t.nonce != first.nonce {
        var i :| 0 <= i < |a| && a[i] == t;
        assert tail[i - 1] == t;
      }
      if t in tail {
        var i :| 0 <= i < |tail| && tail[i] == t;
        assert a[i + 1] == t;
      }
    }
  }

  lemma ListSnoc(a: seq<Tx>, items: Items, t: Tx)
    requires Lists(a, items) && t.nonce !in items && forall x | x in a :: x.nonce < t.nonce
    ensures Lists(a + [t], items[t.nonce := t])
  {
    assert forall i | 0 <= i < |a| :: a[i] in a;
  }

  /** Sorts by a key. */
  method SortByKey<T(==)>(s: seq<T>, key: T -> nat) returns (r: seq<T>)
    ensures multiset(r) == multiset(s)
    ensures Ascending(r, key)
  {
    hide Ascending;
    r := [];
    EmptyAscends(key);
    for i := 0 to |s|
      invariant multiset(r) == multiset(s[..i]) && Ascending(r, key)
    {
      r := InsertByKey(r, s[i], key);
      assert s[..i + 1] == s[..i] + [s[i]];
    }
    assert s[..|s|] == s;
  }

  predicate Ascending<T>(r: seq<T>, key: T -> nat)
  {
    forall i, j | 0 <= i < j < |r| :: key(r[i]) <= key(r[j])
  }

  lemma EmptyAscends<T>(key: T -> nat)
    ensures Ascending<T>([], key)
  {}

  method InsertByKey<T(==)>(s: seq<T>, x: T, key: T -> nat) returns (r: seq<T>)
    requires Ascending(s, key)
    ensures multiset(r) == multiset(s) + multiset{x} && Ascending(r, key)
  {
    hide Ascending;
    hide FitsAt;
    var k := PlaceByKey(s, x, key);
    InsertedAt(s, k, x);
    InsertAscends(s, k, x, key);
    r := s[..k] + [x] + s[k..];
  }

  /** Everything from place `k` on has a higher key, and what is just before it has not. */
  predicate FitsAt<T>(s: seq<T>, x: T, key: T -> nat, k: nat)
    requires k <= |s|
  {
    (k > 0 ==> key(s[k - 1]) <= key(x)) && forall j | k <= j < |s| :: key(s[j]) > key(x)
  }

  /** Where an element goes: after those with a key that is not higher. */
  method PlaceByKey<T>(s: seq<T>, x: T, key: T -> nat) returns (k: nat)
    ensures k <= |s| && FitsAt(s, x, key, k)
  {
    k := |s|;
    while k > 0 && key(s[k - 1]) > key(x)
      invariant k <= |s|
      invariant forall j | k <= j < |s| :: key(s[j]) > key(x)
    {
      k := k - 1;
    }
  }

  lemma InsertAscends<T>(s: seq<T>, k: nat, x: T, key: T -> nat)
    requires k <= |s| && Ascending(s, key) && FitsAt(s, x, key, k)
    ensures Ascending(s[..k] + [x] + s[k..], key)
  {
    var r := s[..k] + [x] + s[k..];
    assert forall j | 0 <= j < |r| :: r[j] == if j < k then s[j] else if j == k then x else s[j - 1];
    assert forall j | 0 <= j < k :: key(s[j]) <= key(s[k - 1]);
  }

  lemma InsertedAt<T>(r: seq<T>, k: nat, x: T)
    requires k <= |r|
    ensures multiset(r[..k] + [x] + r[k..]) == multiset(r) + multiset{x}
  {
    assert r == r[..k] + r[k..];
  }
}
