/**
 The transactions of one account: a map by nonce with a heap of its nonces and a cache of its
 sorted contents, and the list built on it that caps costs and gas.
 */
module TxList {
  import opened Common
  import opened NonceHeap
  import opened Transactions

  /** The heap holds each nonce of the map once. */
  ghost predicate Indexed(index: seq<nat>, keys: set<nat>)
  {
    IsHeap(index) && multiset(index) == multiset(keys)
  }

  lemma IndexMembers(index: seq<nat>, keys: set<nat>)
    requires Indexed(index, keys)
    ensures |index| == |keys|
    ensures forall i | 0 <= i < |index| :: index[i] in keys
    ensures forall n | n in keys :: n in index
    ensures forall n | n in keys :: |index| > 0 && index[0] <= n
  {
    forall i | 0 <= i < |index|
      ensures index[i] in keys
    {
      assert index[i] in multiset(index);
    }
    assert |multiset(index)| == |multiset(keys)|;
    forall n | n in keys
      ensures n in index && |index| > 0 && index[0] <= n
    {
      assert n in multiset(keys) && n in multiset(index);
      var i :| 0 <= i < |index| && index[i] == n;
      RootIsLeast(index, i);
    }
  }

  lemma KeysWithout(keys: set<nat>, n: nat)
    requires n in keys
    ensures multiset(keys) - multiset{n} == multiset(keys - {n})
  {}

  lemma KeysWith(keys: set<nat>, n: nat)
    requires n !in keys
    ensures multiset(keys) + multiset{n} == multiset(keys + {n})
  {}

  lemma PutKeys(items: Items, tx: Tx)
    requires Keyed(items)
    ensures Keyed(items[tx.nonce := tx]) && items[tx.nonce := tx].Keys == items.Keys + {tx.nonce}
    ensures tx.nonce in items ==> items.Keys + {tx.nonce} == items.Keys
  {}

  /** What was taken out of a map. */
  function Taken(before: Items, after: Items): (taken: Items)
  {
    map n | n in before && n !in after :: before[n]
  }

  function AtLeast(items: Items, threshold: nat): (some: Items)
  {
    map n | n in items && n >= threshold :: items[n]
  }

  function Under(items: Items, threshold: nat): (some: Items)
  {
    map n | n in items && n < threshold :: items[n]
  }

  /** Taking the lowest nonces one after the other: so far `removed`, in order. */
  ghost predicate TakingLowest(before: Items, after: Items, removed: seq<Tx>)
  {
    && after.Keys <= before.Keys && (forall n | n in after :: after[n] == before[n])
    && Lists(removed, Taken(before, after))
    && (forall t, n {:trigger t in removed, n in after} | t in removed && n in after :: t.nonce < n)
  }

  lemma TakeLowest(before: Items, after: Items, removed: seq<Tx>, n: nat)
    requires Keyed(before) && TakingLowest(before, after, removed) && n in after && forall m | m in after :: n <= m
    ensures TakingLowest(before, after - {n}, removed + [after[n]])
  {
    var less := after - {n};
    assert Taken(before, less) == Taken(before, after)[n := after[n]];
    ListSnoc(removed, Taken(before, after), after[n]);
  }

  lemma TakeNone(items: Items)
    ensures TakingLowest(items, items, [])
  {}

  lemma TakenBelow(before: Items, after: Items, removed: seq<Tx>, threshold: nat)
    requires Keyed(before) && TakingLowest(before, after, removed)
    requires (forall t | t in removed :: t.nonce < threshold) && (forall n | n in after :: threshold <= n)
    ensures after == AtLeast(before, threshold) && Taken(before, after) == Under(before, threshold)
  {
    forall n | n in before
      ensures n in after <==> n >= threshold
    {
      if n !in after {
        assert Taken(before, after)[n].nonce == n && Taken(before, after)[n] in removed;
      }
    }
  }

  /** Behind the transactions taken, the cached order lists the rest. */
  lemma CacheTail(cache: seq<Tx>, k: nat, items: Items, n: nat)
    requires k <= |cache| && Keyed(items) && Lists(cache[k..], items) && n in items && forall m | m in items :: n <= m
    ensures k < |cache| && Lists(cache[k + 1..], items - {n})
  {
    assert items[n] in cache[k..];
    ListTail(cache[k..], items);
    assert cache[k..][1..] == cache[k + 1..];
  }

  class TxSortedMap {
    var items: Items
    var index: seq<nat>
    var cache: Option<seq<Tx>>

    ghost predicate Valid()
      reads this
    {
      Keyed(items) && Indexed(index, items.Keys) && (cache.Some? ==> Lists(cache.value, items))
    }

    constructor ()
      ensures Valid() && items == map[]
    {
      items, index, cache := map[], [], None;
    }

    /** Stores a transaction, replacing one with the same nonce. */
    method Put(tx: Tx)
      requires Valid()
      modifies this
      ensures Valid() && items == old(items)[tx.nonce := tx]
    {
      hide IsHeap;
      hide Lists;
      hide Keyed;
      PutKeys(items, tx);
      if tx.nonce !in items {
        KeysWith(items.Keys, tx.nonce);
        index := Push(index, tx.nonce);
      }
      items, cache := items[tx.nonce := tx], None;
    }

    /** Removes the transactions below a nonce and returns them in order. */
    method Forward(threshold: nat) returns (removed: seq<Tx>)
      requires Valid()
      modifies this
      ensures Valid() && items == AtLeast(old(items), threshold) && Lists(removed, Under(old(items), threshold))
    {
      hide IsHeap;
      hide Lists;
      hide TakingLowest;
      hide Indexed;
      ghost var before := items;
      removed := [];
      TakeNone(items);
      IndexMembers(index, items.Keys);
      assert cache.Some? ==> cache.value[0..] == cache.value;
      while |index| > 0 && index[0] < threshold
        invariant Keyed(items) && Indexed(index, items.Keys) && cache == old(cache)
        invariant TakingLowest(before, items, removed) && forall t | t in removed :: t.nonce < threshold
        invariant cache.Some? ==> |removed| <= |cache.value| && Lists(cache.value[|removed|..], items)
        decreases |index|
      {
        removed := TakeFirst(removed, before);
      }
      IndexMembers(index, items.Keys);
      TakenBelow(before, items, removed, threshold);
      TakenLists(before, items, removed);
      if cache.Some? {
        cache := Some(cache.value[|removed|..]);
      }
    }

    /** Takes out the transaction with the lowest nonce. */
    method TakeFirst(taken: seq<Tx>, ghost before: Items) returns (removed: seq<Tx>)
      requires Keyed(items) && Indexed(index, items.Keys) && |index| > 0 && Keyed(before)
               && TakingLowest(before, items, taken)
      modifies this`items, this`index
      ensures Keyed(items) && Indexed(index, items.Keys) && |index| == |old(index)| - 1
      ensures old(index)[0] in old(items) && items == old(items) - {old(index)[0]}
              && removed == taken + [old(items)[old(index)[0]]]
      ensures TakingLowest(before, items, removed) && removed[|removed| - 1].nonce == old(index)[0]
      ensures cache.Some? && |taken| <= |cache.value| && Lists(cache.value[|taken|..], old(items)) ==>
                |taken| < |cache.value| && Lists(cache.value[|taken| + 1..], items)
    {
      hide Lists;
      hide TakingLowest;
      IndexMembers(index, items.Keys);
      ghost var first := index[0];
      TakeLowest(before, items, taken, first);
      KeysWithout(items.Keys, first);
      if cache.Some? && |taken| <= |cache.value| && Lists(cache.value[|taken|..], items) {
        CacheTail(cache.value, |taken|, items, first);
      }
      var n;
      index, n := Pop(index);
      removed := taken + [items[n]];
      items := items - {n};
    }

    /** Removes the transactions a filter names, in no particular order. */
    method Filter(filter: Tx -> bool) returns (removed: seq<Tx>)
      requires Valid()
      modifies this
      ensures Valid() && items == Where(old(items), Not(filter)) && Collects(removed, Where(old(items), filter))
      ensures removed == [] ==> items == old(items)
    {
      hide IsHeap;
      hide Lists;
      ghost var before := items;
      removed := [];
      var rest := items.Keys;
      while rest != {}
        invariant Filtering(before, rest, filter, items, removed)
        invariant index == old(index) && cache == old(cache)
        decreases rest
      {
        var n :| n in rest;
        FilterStep(before, rest, filter, items, removed, n);
        if filter(items[n]) {
          removed := removed + [items[n]];
          items := items - {n};
        }
        rest := rest - {n};
      }
      FilterEnd(before, filter, items, removed);
      if |removed| > 0 {
        var keys := ListOfKeys(items.Keys);
        index := Init(keys);
        cache := None;
      }
    }

    /** Keeps the given number of transactions with the lowest nonces and returns the others, highest first. */
    method Cap(threshold: nat) returns (drops: seq<Tx>)
      requires Valid()
      modifies this
      ensures Valid() && Capped(old(items), items, threshold)
      ensures Lists(Reversed(drops), Taken(old(items), items))
    {
      hide IsHeap;
      hide Lists;
      hide Indexed;
      hide Strict;
      hide Keyed;
      hide Capped;
      hide DroppingHighest;
      hide CacheFront;
      ghost var before := items;
      DropNone(items);
      if |items| <= threshold {
        AllKept(items, threshold);
        return [];
      }
      SortedIndex(index, items.Keys);
      var sorted := SortByKey(index, n => n);
      StrictlySorted(sorted, items.Keys);
      WholeCache(cache, items);
      drops := DropTo(sorted, threshold);
      index := Init(sorted[..threshold]);
      InitIndexes(index, items.Keys);
      DroppedLists(before, items, drops);
      CacheIs(cache, |drops|, items);
      if cache.Some? {
        cache := Some(cache.value[..|cache.value| - |drops|]);
      }
    }

    /** Drops the highest nonces until a number is left; the nonces are given sorted. */
    method DropTo(sorted: seq<nat>, threshold: nat) returns (drops: seq<Tx>)
      requires Keyed(items) && Strict(sorted) && multiset(sorted) == multiset(items.Keys)
               && threshold <= |sorted| == |items|
      requires CacheFront(cache, 0, items)
      modifies this`items
      ensures Keyed(items) && |items| == threshold && multiset(sorted[..threshold]) == multiset(items.Keys)
      ensures DroppingHighest(old(items), items, drops) && CacheFront(cache, |drops|, items)
    {
      hide Lists;
      hide Strict;
      hide Keyed;
      hide DroppingHighest;
      hide CacheFront;
      ghost var before := items;
      drops := [];
      DropNone(items);
      var size := |items|;
      assert sorted[..size] == sorted;
      while size > threshold
        invariant threshold <= size <= |sorted| && Keyed(items) && multiset(sorted[..size]) == multiset(items.Keys)
        invariant DroppingHighest(before, items, drops) && |items| == size && CacheFront(cache, |drops|, items)
      {
        LastOfSorted(sorted, size, items.Keys);
        drops := DropOne(sorted[size - 1], drops, before);
        size := size - 1;
      }
    }

    /** Drops the transaction with the highest nonce. */
    method DropOne(n: nat, drops0: seq<Tx>, ghost before: Items) returns (drops: seq<Tx>)
      requires Keyed(items) && Keyed(before) && DroppingHighest(before, items, drops0)
               && CacheFront(cache, |drops0|, items)
      requires n in items && forall m | m in items :: m <= n
      modifies this`items
      ensures items.Keys == old(items).Keys - {n} && |items| == |old(items)| - 1 && |drops| == |drops0| + 1
      ensures Keyed(items) && DroppingHighest(before, items, drops) && CacheFront(cache, |drops|, items)
    {
      hide Lists;
      hide DroppingHighest;
      hide CacheFront;
      DropHighest(before, items, drops0, n);
      CacheStep(cache, |drops0|, items, n);
      drops := drops0 + [items[n]];
      SizeWithout(items, n);
      items := items - {n};
    }

    /** Removes one transaction; false if there is none with the nonce. */
    method Remove(nonce: nat) returns (found: bool)
      requires Valid()
      modifies this
      ensures Valid() && found == (nonce in old(items)) && items == old(items) - {nonce}
    {
      hide IsHeap;
      hide Lists;
      IndexMembers(index, items.Keys);
      if nonce !in items {
        assert items - {nonce} == items;
        return false;
      }
      for i := 0 to |index|
        invariant items == old(items) && index == old(index) && cache == old(cache)
        invariant forall j | 0 <= j < i :: index[j] != nonce
      {
        if index[i] == nonce {
          KeysWithout(items.Keys, nonce);
          index := NonceHeap.Remove(index, i);
          items, cache := items - {nonce}, None;
          return true;
        }
      }
    }

    /** Takes out the run of consecutive nonces that starts at the lowest one, if it is not above `start`. */
    method Ready(start: nat) returns (ready: seq<Tx>)
      requires Valid()
      modifies this
      ensures Valid()
      ensures ready == [] <==> forall n | n in old(items) :: n > start
      ensures ready == [] ==> items == old(items)
      ensures ready != [] ==> IsRun(old(items), ready) && items == AtLeast(old(items), ready[0].nonce + |ready|)
    {
      hide IsHeap;
      hide Lists;
      hide TakingLowest;
      hide Indexed;
      IndexMembers(index, items.Keys);
      if |index| == 0 || index[0] > start {
        return [];
      }
      ghost var before := items;
      TakeNone(items);
      var next := index[0];
      ghost var first := next;
      ready := [];
      while |index| > 0 && index[0] == next
        invariant Keyed(items) && Indexed(index, items.Keys) && TakingLowest(before, items, ready)
        invariant next == first + |ready| && forall i | 0 <= i < |ready| :: ready[i].nonce == first + i
        invariant ready == [] ==> |index| > 0 && index[0] == next
        invariant first in before
        decreases |index|
      {
        ready := TakeFirst(ready, before);
        next := next + 1;
      }
      IndexMembers(index, items.Keys);
      RunEnds(before, items, ready, first, if |index| > 0 then index[0] else 0);
      cache := None;
    }

    /** The transactions in no particular order. */
    method Contents() returns (list: seq<Tx>)
      requires Valid()
      ensures Collects(list, items)
    {
      hide IsHeap;
      hide Indexed;
      hide Lists;
      hide Collects;
      list := [];
      var rest := items.Keys;
      NothingCollected(items);
      while rest != {}
        invariant rest <= items.Keys && Collects(list, items - rest)
        decreases rest
      {
        var n :| n in rest;
        CollectSnoc(list, items - rest, items[n]);
        assert (items - rest)[n := items[n]] == items - (rest - {n});
        list := list + [items[n]];
        rest := rest - {n};
      }
      assert items - {} == items;
    }

    /** The transactions in the order of their nonces, remembered until the contents change. */
    method Flatten() returns (txs: seq<Tx>)
      requires Valid()
      modifies this`cache
      ensures Valid() && cache == Some(txs) && Lists(txs, items)
    {
      hide IsHeap;
      hide Indexed;
      if cache.None? {
        var list := Contents();
        var sorted := SortByKey(list, (t: Tx) => t.nonce);
        SortedLists(list, sorted, items);
        cache := Some(sorted);
      }
      return cache.value;
    }
  }

  /** All but the last `k` of the cached order list the transactions. */
  ghost predicate CacheFront(cache: Option<seq<Tx>>, k: nat, items: Items)
  {
    cache.Some? ==> k <= |cache.value| && Lists(cache.value[..|cache.value| - k], items)
  }

  lemma CacheIs(cache: Option<seq<Tx>>, k: nat, items: Items)
    requires CacheFront(cache, k, items)
    ensures cache.Some? ==> k <= |cache.value| && Lists(cache.value[..|cache.value| - k], items)
  {}

  lemma WholeCache(cache: Option<seq<Tx>>, items: Items)
    requires cache.Some? ==> Lists(cache.value, items)
    ensures CacheFront(cache, 0, items)
  {
    assert cache.Some? ==> cache.value[..|cache.value|] == cache.value;
  }

  lemma CacheStep(cache: Option<seq<Tx>>, k: nat, items: Items, n: nat)
    requires CacheFront(cache, k, items) && Keyed(items) && n in items && forall m | m in items :: m <= n
    ensures CacheFront(cache, k + 1, items - {n})
  {
    if cache.Some? {
      CacheInit(cache.value, k, items, n);
    }
  }

  lemma SizeWithout(items: Items, n: nat)
    requires n in items
    ensures (items - {n}).Keys == items.Keys - {n} && |items - {n}| == |items| - 1
  {
    assert |items.Keys| == |items| && |(items - {n}).Keys| == |items - {n}|;
  }

  lemma AllKept(items: Items, threshold: nat)
    requires |items| <= threshold
    ensures Capped(items, items, threshold)
  {}

  lemma TakenLists(before: Items, after: Items, removed: seq<Tx>)
    requires TakingLowest(before, after, removed)
    ensures Lists(removed, Taken(before, after))
  {}

  function Not(p: Tx -> bool): (q: Tx -> bool)
  {
    t => !p(t)
  }

  function NonceAbove(nonce: nat): (p: Tx -> bool)
  {
    (t: Tx) => t.nonce > nonce
  }

  function NotIn(list: seq<Tx>): (p: Tx -> bool)
  {
    t => t !in list
  }

  /** The transactions with a property. */
  function Where(items: Items, p: Tx -> bool): (some: Items)
  {
    map n | n in items && p(items[n]) :: items[n]
  }

  /** The list holds each of the transactions once. */
  ghost predicate Collects(list: seq<Tx>, items: Items)
  {
    && (forall i, j | 0 <= i < j < |list| :: list[i] != list[j])
    && (forall t {:trigger t in list} :: t in list <==> t.nonce in items && items[t.nonce] == t)
  }

  /** Filtering a map, the nonces in `rest` still to come. */
  ghost predicate Filtering(before: Items, rest: set<nat>, filter: Tx -> bool, items: Items, removed: seq<Tx>)
  {
    && Keyed(before) && rest <= before.Keys
    && items == (map n | n in before && (n in rest || !filter(before[n])) :: before[n])
    && Collects(removed, map n | n in before && n !in rest && filter(before[n]) :: before[n])
  }

  lemma FilterStep(before: Items, rest: set<nat>, filter: Tx -> bool, items: Items, removed: seq<Tx>, n: nat)
    requires Filtering(before, rest, filter, items, removed) && n in rest
    ensures n in items
    ensures if filter(items[n]) then Filtering(before, rest - {n}, filter, items - {n}, removed + [items[n]])
            else Filtering(before, rest - {n}, filter, items, removed)
  {
    var some := map m | m in before && m !in rest && filter(before[m]) :: before[m];
    var more := map m | m in before && m !in rest - {n} && filter(before[m]) :: before[m];
    if filter(items[n]) {
      CollectSnoc(removed, some, items[n]);
      assert more == some[n := items[n]];
    } else {
      assert more == some;
    }
  }

  lemma CollectSnoc(list: seq<Tx>, items: Items, t: Tx)
    requires Collects(list, items) && t.nonce !in items
    ensures Collects(list + [t], items[t.nonce := t])
  {
    assert forall i | 0 <= i < |list| :: list[i] in list;
  }

  lemma FilterEnd(before: Items, filter: Tx -> bool, items: Items, removed: seq<Tx>)
    requires Filtering(before, {}, filter, items, removed)
    ensures Keyed(items) && items == Where(before, Not(filter)) && Collects(removed, Where(before, filter))
    ensures removed == [] ==> items == before
  {
    assert (map n | n in before && n !in {} && filter(before[n]) :: before[n]) == Where(before, filter);
    forall n | n in before && filter(before[n])
      ensures removed != []
    {
      assert Where(before, filter)[n] in removed;
    }
  }

  method ListOfKeys(keys: set<nat>) returns (list: seq<nat>)
    ensures multiset(list) == multiset(keys)
  {
    list := [];
    var rest := keys;
    while rest != {}
      invariant rest <= keys && multiset(list) == multiset(keys - rest)
      decreases rest
    {
      var n :| n in rest;
      assert keys - (rest - {n}) == keys - rest + {n};
      KeysWith(keys - rest, n);
      list := list + [n];
      rest := rest - {n};
    }
  }

  // ---------- dropping the highest nonces ----------

  function Reversed(list: seq<Tx>): (r: seq<Tx>)
    ensures |r| == |list| && forall i | 0 <= i < |list| :: r[i] == list[|list| - 1 - i]
  {
    if list == [] then [] else [list[|list| - 1]] + Reversed(list[..|list| - 1])
  }

  /** The lowest nonces are kept, as many as allowed. */
  ghost predicate Capped(before: Items, after: Items, threshold: nat)
  {
    && after.Keys <= before.Keys && (forall n | n in after :: after[n] == before[n])
    && |after| == (if |before| <= threshold then |before| else threshold)
    && (forall m, n | m in after && n in before && n !in after :: m < n)
  }

  ghost predicate DroppingHighest(before: Items, after: Items, drops: seq<Tx>)
  {
    && after.Keys <= before.Keys && (forall n | n in after :: after[n] == before[n])
    && Lists(Reversed(drops), Taken(before, after))
    && (forall t, n {:trigger t in drops, n in after} | t in drops && n in after :: n < t.nonce)
  }

  lemma DropNone(items: Items)
    ensures DroppingHighest(items, items, []) && Lists(Reversed([]), Taken(items, items))
  {}

  lemma DropHighest(before: Items, after: Items, drops: seq<Tx>, n: nat)
    requires Keyed(before) && DroppingHighest(before, after, drops) && n in after && forall m | m in after :: m <= n
    ensures DroppingHighest(before, after - {n}, drops + [after[n]])
  {
    var less, more := after - {n}, drops + [after[n]];
    assert Taken(before, less) == Taken(before, after)[n := after[n]];
    assert more[..|drops|] == drops;
    assert Reversed(more) == [after[n]] + Reversed(drops);
    forall t | t in Reversed(drops)
      ensures n < t.nonce
    {
      var i :| 0 <= i < |drops| && Reversed(drops)[i] == t;
      assert drops[|drops| - 1 - i] == t && t in drops;
    }
    ListCons(Reversed(drops), Taken(before, after), after[n]);
  }

  lemma ListCons(a: seq<Tx>, items: Items, t: Tx)
    requires Lists(a, items) && t.nonce !in items && forall x | x in a :: t.nonce < x.nonce
    ensures Lists([t] + a, items[t.nonce := t])
  {
    assert forall i | 0 <= i < |a| :: a[i] in a;
  }

  lemma DroppedLists(before: Items, after: Items, drops: seq<Tx>)
    requires Keyed(before) && DroppingHighest(before, after, drops) && |after| <= |before|
    ensures Lists(Reversed(drops), Taken(before, after)) && (|after| < |before| ==> Capped(before, after, |after|))
  {
    forall m, n | m in after && n in before && n !in after
      ensures m < n
    {
      var t := Taken(before, after)[n];
      assert t in Reversed(drops);
      var i :| 0 <= i < |drops| && Reversed(drops)[i] == t;
      assert drops[|drops| - 1 - i] == t && t in drops;
    }
  }

  predicate Strict(s: seq<nat>)
  {
    forall i, j | 0 <= i < j < |s| :: s[i] < s[j]
  }

  lemma SortedIndex(index: seq<nat>, keys: set<nat>)
    requires Indexed(index, keys)
    ensures multiset(index) == multiset(keys)
  {}

  lemma StrictlySorted(s: seq<nat>, keys: set<nat>)
    requires multiset(s) == multiset(keys) && Ascending(s, n => n)
    ensures Strict(s) && |s| == |keys|
  {
    assert |multiset(s)| == |multiset(keys)|;
    forall i, j | 0 <= i < j < |s|
      ensures s[i] < s[j]
    {
      if s[i] == s[j] {
        AppearsTwice(s, i, j);
      }
      assert (n => n)(s[i]) <= (n => n)(s[j]);
    }
  }

  lemma LastOfSorted(s: seq<nat>, size: nat, keys: set<nat>)
    requires 0 < size <= |s| && Strict(s) && multiset(s[..size]) == multiset(keys)
    ensures s[size - 1] in keys && forall m | m in keys :: m <= s[size - 1]
    ensures multiset(s[..size - 1]) == multiset(keys - {s[size - 1]})
  {
    var n := s[size - 1];
    assert s[..size] == s[..size - 1] + [n];
    assert n in multiset(s[..size]);
    forall m | m in keys
      ensures m <= n
    {
      assert m in multiset(s[..size]);
    }
    KeysWithout(keys, n);
  }

  lemma CacheInit(cache: seq<Tx>, k: nat, items: Items, n: nat)
    requires k <= |cache| && Keyed(items) && Lists(cache[..|cache| - k], items) && n in items
             && forall m | m in items :: m <= n
    ensures k < |cache| && Lists(cache[..|cache| - k - 1], items - {n})
  {
    var front := cache[..|cache| - k];
    assert items[n] in front;
    var i :| 0 <= i < |front| && front[i] == items[n];
    var last := front[|front| - 1];
    assert last in front;
    ListInit(front, items);
    assert front[..|front| - 1] == cache[..|cache| - k - 1];
  }

  lemma InitIndexes(index: seq<nat>, keys: set<nat>)
    requires IsHeap(index) && multiset(index) == multiset(keys)
    ensures Indexed(index, keys)
  {}

  lemma NothingCollected(items: Items)
    ensures Collects([], items - items.Keys)
  {
    assert items - items.Keys == map[];
  }

  lemma SortedLists(list: seq<Tx>, sorted: seq<Tx>, items: Items)
    requires Keyed(items) && Collects(list, items) && multiset(sorted) == multiset(list)
             && Ascending(sorted, (t: Tx) => t.nonce)
    ensures Lists(sorted, items)
  {
    forall t
      ensures t in sorted <==> t in list
    {
      assert t in sorted <==> t in multiset(sorted);
    }
    forall i, j | 0 <= i < j < |sorted|
      ensures sorted[i].nonce < sorted[j].nonce
    {
      var key := (t: Tx) => t.nonce;
      assert key(sorted[i]) <= key(sorted[j]);
      if sorted[i].nonce == sorted[j].nonce {
        assert sorted[i] in sorted && sorted[j] in sorted;
        AppearsTwice(sorted, i, j);
        AppearsOnce(list, sorted[i]);
      }
    }
  }

  lemma {:induction false} AppearsOnce(s: seq<Tx>, t: Tx)
    requires forall i, j | 0 <= i < j < |s| :: s[i] != s[j]
    ensures multiset(s)[t] <= 1
  {
    if s != [] {
      var init, last := s[..|s| - 1], s[|s| - 1];
      AppearsOnce(init, t);
      assert s == init + [last];
      assert forall i | 0 <= i < |init| :: init[i] == s[i];
      assert t == last ==> t !in init;
    }
  }

  // ---------- runs of nonces ----------

  /** The list is the longest run of consecutive nonces from the lowest one on. */
  ghost predicate IsRun(items: Items, run: seq<Tx>)
    requires run != []
  {
    var first := run[0].nonce;
    && (forall n | n in items :: first <= n)
    && (forall i {:trigger RunAt(items, run, i)} | 0 <= i < |run| :: RunAt(items, run, i))
    && first + |run| !in items
  }

  predicate RunAt(items: Items, run: seq<Tx>, i: nat)
    requires i < |run|
  {
    run[0].nonce + i in items && run[i] == items[run[0].nonce + i]
  }

  lemma RunEnds(before: Items, after: Items, run: seq<Tx>, first: nat, lowest: nat)
    requires Keyed(before) && TakingLowest(before, after, run) && run != []
    requires forall i | 0 <= i < |run| :: run[i].nonce == first + i
    requires forall n | n in after :: lowest in after && lowest <= n
    requires lowest in after ==> lowest != first + |run|
    ensures IsRun(before, run) && after == AtLeast(before, first + |run|)
  {
    assert run[0].nonce == first;
    forall i | 0 <= i < |run|
      ensures RunAt(before, run, i) && first + i !in after
    {
      assert run[i] in run;
    }
    forall n | n in before && n !in after
      ensures first <= n < first + |run|
    {
      assert Taken(before, after)[n] in run;
      var i :| 0 <= i < |run| && run[i] == before[n];
    }
    assert run[|run| - 1] in run;
    assert lowest in after ==> lowest > first + |run|;
  }

  // ---------- the list with its caps ----------

  /** No nonce is missing between two of the map. */
  ghost predicate Contiguous(items: Items)
  {
    forall m, k, n {:trigger m in items, n in items, k in items} | m in items && n in items && m <= k <= n :: k in items
  }

  lemma ForwardKeepsContiguous(items: Items, threshold: nat)
    requires Contiguous(items)
    ensures Contiguous(AtLeast(items, threshold))
  {}

  lemma CapKeepsContiguous(before: Items, after: Items, threshold: nat)
    requires Contiguous(before) && Capped(before, after, threshold)
    ensures Contiguous(after)
  {
    forall m, k, n | m in after && n in after && m <= k <= n
      ensures k in after
    {
      assert k in before;
    }
  }

  lemma CutKeepsContiguous(items: Items, some: Items, nonce: nat)
    requires Contiguous(items) && some.Keys <= items.Keys && forall n | n in items :: n in some <==> n < nonce
    ensures Contiguous(some)
  {}

  /** What costs more or has a higher gas limit than allowed. */
  function Exceeds(costLimit: nat, gasLimit: nat): (p: Tx -> bool)
  {
    (t: Tx) => t.cost > costLimit || t.gas > gasLimit
  }

  const MAX_UINT64: nat := 0xffff_ffff_ffff_ffff

  class TxList {
    const strict: bool
    const txs: TxSortedMap
    /** No transaction costs more. */
    var costcap: nat
    /** No transaction has a higher gas limit. */
    var gascap: nat

    ghost predicate Valid()
      reads this, txs
    {
      txs.Valid() && forall n {:trigger txs.items[n]} | n in txs.items ::
                       n <= MAX_UINT64 && txs.items[n].cost <= costcap && txs.items[n].gas <= gascap
    }

    constructor (strict: bool)
      ensures Valid() && this.strict == strict && txs.items == map[] && fresh(txs)
    {
      this.strict := strict;
      costcap, gascap := 0, 0;
      txs := new TxSortedMap();
    }

    /** Inserts a transaction; one with the same nonce is replaced only by a price high enough above its own. */
    method Add(tx: Tx, priceBump: nat) returns (added: bool, replaced: Option<Tx>)
      requires Valid() && tx.nonce <= MAX_UINT64
      modifies this, txs
      ensures Valid()
      ensures replaced == if tx.nonce in old(txs.items) then Some(old(txs.items)[tx.nonce]) else None
      ensures added <==> (replaced.Some? ==> replaced.value.gasPrice < tx.gasPrice
                                             && replaced.value.gasPrice * (100 + priceBump) / 100 <= tx.gasPrice)
      ensures txs.items == if added then old(txs.items)[tx.nonce := tx] else old(txs.items)
    {
      hide TxSortedMap.Valid;
      replaced := None;
      if tx.nonce in txs.items {
        var prev := txs.items[tx.nonce];
        replaced := Some(prev);
        var threshold := prev.gasPrice * (100 + priceBump) / 100;
        if prev.gasPrice >= tx.gasPrice || threshold > tx.gasPrice {
          return false, replaced;
        }
      }
      txs.Put(tx);
      if costcap < tx.cost {
        costcap := tx.cost;
      }
      if gascap < tx.gas {
        gascap := tx.gas;
      }
      added := true;
    }

    /** Removes what exceeds the limits and, in a strict list, what the gaps invalidate. The caps
        tell when nothing can exceed them. */
    method Filter(costLimit: nat, gasLimit: nat) returns (removed: seq<Tx>, invalids: seq<Tx>)
      requires Valid()
      modifies this, txs
      ensures Valid()
      ensures Collects(removed, Where(old(txs.items), Exceeds(costLimit, gasLimit)))
      ensures forall n | n in txs.items :: txs.items[n].cost <= costLimit && txs.items[n].gas <= gasLimit
      ensures forall t | t in removed :: t.cost > costLimit || t.gas > gasLimit
      ensures !strict || removed == [] ==>
                invalids == [] && txs.items == Where(old(txs.items), Not(Exceeds(costLimit, gasLimit)))
      ensures strict && removed != [] ==>
                exists lowest: nat :: CutAt(old(txs.items), removed, lowest, txs.items, invalids)
      ensures strict && Contiguous(old(txs.items)) ==> Contiguous(txs.items)
    {
      hide TxSortedMap.Valid;
      if costcap <= costLimit && gascap <= gasLimit {
        NothingTooBig(txs.items, costLimit, gasLimit);
        return [], [];
      }
      KeysAreNonces(txs);
      costcap, gascap := costLimit, gasLimit;
      ghost var before := txs.items;
      removed := txs.Filter(Exceeds(costLimit, gasLimit));
      invalids := [];
      if strict && |removed| > 0 {
        var lowest := LowestNonce(removed);
        ghost var mid := txs.items;
        RemovedNonces(before, removed, costLimit, gasLimit);
        invalids := txs.Filter(NonceAbove(lowest));
        CutIs(before, mid, removed, lowest, txs.items, invalids, costLimit, gasLimit);
      }
    }

    /** Removes a transaction and, in a strict list, what the gap invalidates. */
    method Remove(tx: Tx) returns (found: bool, invalids: seq<Tx>)
      requires Valid()
      modifies txs
      ensures Valid() && found == (tx.nonce in old(txs.items))
      ensures !found ==> txs.items == old(txs.items) && invalids == []
      ensures found && !strict ==> txs.items == old(txs.items) - {tx.nonce} && invalids == []
      ensures found && strict ==>
                txs.items == Under(old(txs.items), tx.nonce) && Collects(invalids, Above(old(txs.items), tx.nonce))
      ensures strict && Contiguous(old(txs.items)) ==> Contiguous(txs.items)
    {
      hide TxSortedMap.Valid;
      ghost var before := txs.items;
      KeysAreNonces(txs);
      found := txs.Remove(tx.nonce);
      invalids := [];
      if !found {
        assert before - {tx.nonce} == before;
        return;
      }
      if strict {
        invalids := txs.Filter(NonceAbove(tx.nonce));
        RestIs(before, tx.nonce);
      }
    }
  }

  function Above(items: Items, nonce: nat): (some: Items)
  {
    map n | n in items && n > nonce :: items[n]
  }

  lemma KeysAreNonces(txs: TxSortedMap)
    requires txs.Valid()
    ensures Keyed(txs.items)
  {}

  lemma RestIs(items: Items, nonce: nat)
    requires Keyed(items)
    ensures Where(items - {nonce}, Not(NonceAbove(nonce))) == Under(items, nonce)
    ensures Where(items - {nonce}, NonceAbove(nonce)) == Above(items, nonce)
  {}

  lemma NothingTooBig(items: Items, costLimit: nat, gasLimit: nat)
    requires forall n | n in items :: items[n].cost <= costLimit && items[n].gas <= gasLimit
    ensures Collects([], Where(items, Exceeds(costLimit, gasLimit)))
    ensures items == Where(items, Not(Exceeds(costLimit, gasLimit)))
  {}

  /** The lowest nonce of the transactions. */
  ghost predicate IsLowestNonce(txs: seq<Tx>, nonce: nat)
  {
    (exists t | t in txs :: t.nonce == nonce) && (forall t | t in txs :: nonce <= t.nonce)
  }

  /** The list was cut at the lowest removed nonce: what is left is below it, what is above is invalid. */
  ghost predicate CutAt(before: Items, removed: seq<Tx>, lowest: nat, after: Items, invalids: seq<Tx>)
  {
    && IsLowestNonce(removed, lowest)
    && after == Under(before, lowest)
    && Collects(invalids, Where(Above(before, lowest), NotIn(removed)))
  }

  method LowestNonce(removed: seq<Tx>) returns (lowest: nat)
    requires removed != [] && forall t | t in removed :: t.nonce <= MAX_UINT64
    ensures IsLowestNonce(removed, lowest)
  {
    lowest := MAX_UINT64;
    for i := 0 to |removed|
      invariant forall j | 0 <= j < i :: lowest <= removed[j].nonce
      invariant lowest == MAX_UINT64 || exists j | 0 <= j < i :: removed[j].nonce == lowest
    {
      if lowest > removed[i].nonce {
        lowest := removed[i].nonce;
      }
    }
    assert removed[0] in removed;
  }

  lemma RemovedNonces(before: Items, removed: seq<Tx>, costLimit: nat, gasLimit: nat)
    requires Collects(removed, Where(before, Exceeds(costLimit, gasLimit))) && forall n | n in before :: n <= MAX_UINT64
    ensures forall t | t in removed :: t.nonce <= MAX_UINT64 && t.nonce in before && before[t.nonce] == t
  {}

  lemma CutIs(before: Items, mid: Items, removed: seq<Tx>, lowest: nat, after: Items, invalids: seq<Tx>, costLimit: nat,
              gasLimit: nat)
    requires Keyed(before) && mid == Where(before, Not(Exceeds(costLimit, gasLimit)))
    requires Collects(removed, Where(before, Exceeds(costLimit, gasLimit)))
    requires IsLowestNonce(removed, lowest)
    requires after == Where(mid, Not(NonceAbove(lowest))) && Collects(invalids, Where(mid, NonceAbove(lowest)))
    ensures CutAt(before, removed, lowest, after, invalids)
    ensures Contiguous(before) ==> Contiguous(after)
  {
    forall n | n in before
      ensures n in mid <==> before[n] !in removed
    {
      assert Exceeds(costLimit, gasLimit)(before[n]) <==> before[n] in removed;
    }
    assert after == Under(before, lowest);
    assert Where(mid, NonceAbove(lowest)) == Where(Above(before, lowest), NotIn(removed));
    if Contiguous(before) {
      CutKeepsContiguous(before, after, lowest);
    }
  }
}
