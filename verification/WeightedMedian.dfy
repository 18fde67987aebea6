/**
 The stake-weighted median of claimed times.
 */
module WeightedMedian {

  /** A validator's stake and the time of its highest observed event. */
  datatype Reading = Reading(stake: nat, time: nat)

  function StakeSum(es: seq<Reading>): (sum: nat)
  {
    if es == [] then 0 else StakeSum(es[..|es| - 1]) + es[|es| - 1].stake
  }

  /** The stake of the readings not later than `t`. */
  ghost function StakeBy(es: seq<Reading>, t: nat): (sum: nat)
  {
    if es == [] then 0
    else StakeBy(es[..|es| - 1], t) + if es[|es| - 1].time <= t then es[|es| - 1].stake else 0
  }

  /** The stake of the readings outside `lo..hi`. */
  ghost function StakeOutside(es: seq<Reading>, lo: nat, hi: nat): (sum: nat)
  {
    if es == [] then 0
    else StakeOutside(es[..|es| - 1], lo, hi) +
         if lo <= es[|es| - 1].time <= hi then 0 else es[|es| - 1].stake
  }

  /** The earliest reading by which half of the stake is reached; 0 without readings. */
  ghost predicate IsMedian(es: seq<Reading>, m: nat)
  {
    if es == [] then m == 0
    else
      && (exists i :: 0 <= i < |es| && es[i].time == m)
      && StakeBy(es, m) >= StakeSum(es) / 2
      && forall i :: 0 <= i < |es| && es[i].time < m ==> StakeBy(es, es[i].time) < StakeSum(es) / 2
  }

  /** The readings determine the median, however equal times are ordered. */
  lemma MedianUnique(es: seq<Reading>, m: nat, m': nat)
    requires IsMedian(es, m) && IsMedian(es, m')
    ensures m == m'
  {}

  // ---------- computing it ----------

  predicate Sorted(es: seq<Reading>)
  {
    forall i, j | 0 <= i < j < |es| :: es[i].time <= es[j].time
  }

  /** Sorts by time. */
  method SortByTime(es: seq<Reading>) returns (r: seq<Reading>)
    ensures Sorted(r) && multiset(r) == multiset(es)
  {
    r := [];
    for i := 0 to |es|
      invariant Sorted(r) && multiset(r) == multiset(es[..i])
    {
      var k := InsertAt(r, es[i]);
      InsertKeeps(r, k, es[i]);
      TakeAdds(es, i);
      r := r[..k] + [es[i]] + r[k..];
    }
    assert es[..|es|] == es;
  }

  /** Where a reading goes: after the ones that are not later. */
  method InsertAt(r: seq<Reading>, e: Reading) returns (k: nat)
    ensures k <= |r| && (forall j | k <= j < |r| :: r[j].time > e.time)
    ensures k > 0 ==> r[k - 1].time <= e.time
  {
    k := |r|;
    while k > 0 && r[k - 1].time > e.time
      invariant k <= |r|
      invariant forall j | k <= j < |r| :: r[j].time > e.time
    {
      k := k - 1;
    }
  }

  lemma TakeAdds(es: seq<Reading>, i: nat)
    requires i < |es|
    ensures multiset(es[..i + 1]) == multiset(es[..i]) + multiset{es[i]}
  {
    assert es[..i + 1] == es[..i] + [es[i]];
  }

  lemma InsertKeeps(r: seq<Reading>, k: nat, e: Reading)
    requires Sorted(r) && k <= |r|
    requires forall j | k <= j < |r| :: r[j].time > e.time
    requires k > 0 ==> r[k - 1].time <= e.time
    ensures Sorted(r[..k] + [e] + r[k..])
    ensures multiset(r[..k] + [e] + r[k..]) == multiset(r) + multiset{e}
  {
    InsertSorted(r, k, e, r[..k] + [e] + r[k..]);
    InsertAdds(r, k, e);
  }

  lemma InsertAdds(r: seq<Reading>, k: nat, e: Reading)
    requires k <= |r|
    ensures multiset(r[..k] + [e] + r[k..]) == multiset(r) + multiset{e}
  {
    assert r == r[..k] + r[k..];
  }

  lemma InsertSorted(r: seq<Reading>, k: nat, e: Reading, r': seq<Reading>)
    requires Sorted(r) && k <= |r|
    requires forall j | k <= j < |r| :: r[j].time > e.time
    requires k > 0 ==> r[k - 1].time <= e.time
    requires |r'| == |r| + 1
    requires forall j | 0 <= j < |r'| :: r'[j] == if j < k then r[j] else if j == k then e else r[j - 1]
    ensures Sorted(r')
  {
    assert forall i | 0 <= i < k :: r[i].time <= r[k - 1].time;
    forall i, j | 0 <= i < j < |r'|
      ensures r'[i].time <= r'[j].time
    {
      assert r'[i] == if i < k then r[i] else if i == k then e else r[i - 1];
      assert r'[j] == if j < k then r[j] else if j == k then e else r[j - 1];
    }
  }

  lemma {:induction false} StakeByAll(es: seq<Reading>, t: nat)
    requires forall i | 0 <= i < |es| :: es[i].time <= t
    ensures StakeBy(es, t) == StakeSum(es)
  {
    if es != [] {
      StakeByAll(es[..|es| - 1], t);
    }
  }

  /** If the first `k` readings are not later than `t`, their stake is reached by `t`. */
  lemma {:induction false} StakeByAtLeast(es: seq<Reading>, t: nat, k: nat)
    requires k <= |es| && forall i | 0 <= i < k :: es[i].time <= t
    ensures StakeBy(es, t) >= StakeSum(es[..k])
  {
    if k == |es| {
      assert es[..k] == es;
      StakeByAll(es, t);
    } else {
      assert es[..|es| - 1][..k] == es[..k];
      StakeByAtLeast(es[..|es| - 1], t, k);
    }
  }

  /** If all from the `k`-th on are later than `t`, only the first `k` count. */
  lemma {:induction false} StakeByAtMost(es: seq<Reading>, t: nat, k: nat)
    requires k <= |es| && forall i | k <= i < |es| :: es[i].time > t
    ensures StakeBy(es, t) <= StakeSum(es[..k])
  {
    if k == |es| {
      assert es[..k] == es;
      StakeByBounded(es, t);
    } else {
      assert es[..|es| - 1][..k] == es[..k];
      StakeByAtMost(es[..|es| - 1], t, k);
    }
  }

  lemma {:induction false} StakeByBounded(es: seq<Reading>, t: nat)
    ensures StakeBy(es, t) <= StakeSum(es)
  {
    if es != [] {
      StakeByBounded(es[..|es| - 1], t);
    }
  }

  /** The weighted median: sort by time and stop where half of the stake is reached. */
  method Median(es: seq<Reading>, total: nat) returns (m: nat)
    requires total == StakeSum(es)
    ensures IsMedian(es, m)
  {
    var sorted := SortByTime(es);
    StakeSumPermuted(es, sorted);
    var half := total / 2;
    var curr := 0;
    m := 0;
    for i := 0 to |sorted|
      invariant curr == StakeSum(sorted[..i]) && (i > 0 ==> curr < half)
    {
      assert sorted[..i + 1][..i] == sorted[..i];
      curr := curr + sorted[i].stake;
      if curr >= half {
        m := sorted[i].time;
        StopIsMedian(sorted, i);
        MedianPermuted(sorted, es, m);
        return;
      }
    }
    assert sorted[..|sorted|] == sorted;
  }

  lemma StopIsMedian(es: seq<Reading>, i: nat)
    requires Sorted(es) && i < |es|
    requires StakeSum(es[..i + 1]) >= StakeSum(es) / 2
    requires i > 0 ==> StakeSum(es[..i]) < StakeSum(es) / 2
    ensures IsMedian(es, es[i].time)
  {
    StakeByAtLeast(es, es[i].time, i + 1);
    forall j | 0 <= j < |es| && es[j].time < es[i].time
      ensures StakeBy(es, es[j].time) < StakeSum(es) / 2
    {
      StakeByAtMost(es, es[j].time, i);
    }
  }

  // ---------- permutations ----------

  lemma StakeByConcat(a: seq<Reading>, b: seq<Reading>, t: nat)
    ensures StakeBy(a + b, t) == StakeBy(a, t) + StakeBy(b, t)
    ensures StakeSum(a + b) == StakeSum(a) + StakeSum(b)
  {
    if b == [] {
      assert a + b == a;
    } else {
      assert (a + b)[..|a + b| - 1] == a + b[..|b| - 1];
      StakeByConcat(a, b[..|b| - 1], t);
    }
  }

  lemma {:induction false} SumsPermuted(a: seq<Reading>, b: seq<Reading>, t: nat)
    requires multiset(a) == multiset(b)
    ensures StakeBy(a, t) == StakeBy(b, t) && StakeSum(a) == StakeSum(b)
    decreases |a|
  {
    if a == [] {
      assert |multiset(b)| == 0;
    } else {
      var k := |a| - 1;
      assert a[k] in multiset(b);
      var l :| 0 <= l < |b| && b[l] == a[k];
      RemoveAt(a, k, t);
      RemoveAt(b, l, t);
      SumsPermuted(a[..k] + a[k + 1..], b[..l] + b[l + 1..], t);
    }
  }

  /** What a sequence loses with one of its readings. */
  lemma RemoveAt(a: seq<Reading>, k: nat, t: nat)
    requires k < |a|
    ensures multiset(a[..k] + a[k + 1..]) == multiset(a) - multiset{a[k]}
    ensures StakeBy(a, t) == StakeBy(a[..k] + a[k + 1..], t) + if a[k].time <= t then a[k].stake else 0
    ensures StakeSum(a) == StakeSum(a[..k] + a[k + 1..]) + a[k].stake
  {
    assert a == a[..k] + ([a[k]] + a[k + 1..]);
    StakeByConcat(a[..k], [a[k]] + a[k + 1..], t);
    StakeByConcat([a[k]], a[k + 1..], t);
    StakeByConcat(a[..k], a[k + 1..], t);
  }

  lemma StakeSumPermuted(a: seq<Reading>, b: seq<Reading>)
    requires multiset(a) == multiset(b)
    ensures StakeSum(a) == StakeSum(b) && |a| == |b|
  {
    SumsPermuted(a, b, 0);
    assert |multiset(a)| == |a| && |multiset(b)| == |b|;
  }

  lemma MedianPermuted(a: seq<Reading>, b: seq<Reading>, m: nat)
    requires multiset(a) == multiset(b) && IsMedian(a, m)
    ensures IsMedian(b, m)
  {
    StakeSumPermuted(a, b);
    if b != [] {
      SumsPermuted(a, b, m);
      var i :| 0 <= i < |a| && a[i].time == m;
      assert a[i] in multiset(b);
      forall j | 0 <= j < |b| && b[j].time < m
        ensures StakeBy(b, b[j].time) < StakeSum(b) / 2
      {
        assert b[j] in multiset(a);
        var k :| 0 <= k < |a| && a[k] == b[j];
        SumsPermuted(a, b, b[j].time);
      }
    }
  }

  // ---------- what the median promises ----------

  /** Among the readings not later than `t` a latest one; nothing lies between it and `t`. */
  lemma {:induction false} LatestBy(es: seq<Reading>, t: nat, i: nat) returns (j: nat)
    requires i < |es| && es[i].time <= t
    ensures j < |es| && es[j].time <= t && StakeBy(es, es[j].time) == StakeBy(es, t)
  {
    j := i;
    for k := 0 to |es|
      invariant j < |es| && es[j].time <= t
      invariant forall l | 0 <= l < k && es[l].time <= t :: es[l].time <= es[j].time
    {
      if es[j].time < es[k].time <= t {
        j := k;
      }
    }
    StakeBySame(es, es[j].time, t);
  }

  lemma {:induction false} StakeBySame(es: seq<Reading>, s: nat, t: nat)
    requires forall l | 0 <= l < |es| :: es[l].time <= s <==> es[l].time <= t
    ensures StakeBy(es, s) == StakeBy(es, t)
  {
    if es != [] {
      assert es[|es| - 1].time <= s <==> es[|es| - 1].time <= t;
      StakeBySame(es[..|es| - 1], s, t);
    }
  }

  /** Before the median less than half of the stake is reached. */
  lemma BeforeMedian(es: seq<Reading>, m: nat, t: nat, i: nat)
    requires IsMedian(es, m) && t < m && i < |es| && es[i].time <= t
    ensures StakeBy(es, t) < StakeSum(es) / 2
  {
    var j := LatestBy(es, t, i);
  }

  /** Readings outside a window cannot move the median out of it if they hold less than half of the stake. */
  lemma MedianWithin(es: seq<Reading>, m: nat, lo: nat, hi: nat)
    requires IsMedian(es, m)
    requires StakeOutside(es, lo, hi) < StakeSum(es) / 2
    ensures lo <= m <= hi
  {
    if m < lo {
      OutsideHolds(es, lo, hi, m);
    } else if m > hi {
      OutsideRest(es, lo, hi, m - 1);
      if exists i :: 0 <= i < |es| && es[i].time <= m - 1 {
        var i :| 0 <= i < |es| && es[i].time <= m - 1;
        BeforeMedian(es, m, m - 1, i);
      } else {
        NothingBy(es, m - 1);
      }
    }
  }

  lemma {:induction false} OutsideHolds(es: seq<Reading>, lo: nat, hi: nat, t: nat)
    requires t < lo
    ensures StakeBy(es, t) <= StakeOutside(es, lo, hi)
  {
    if es != [] {
      OutsideHolds(es[..|es| - 1], lo, hi, t);
    }
  }

  lemma {:induction false} OutsideRest(es: seq<Reading>, lo: nat, hi: nat, t: nat)
    requires t >= hi
    ensures StakeSum(es) - StakeBy(es, t) <= StakeOutside(es, lo, hi)
  {
    if es != [] {
      OutsideRest(es[..|es| - 1], lo, hi, t);
    }
  }

  lemma {:induction false} NothingBy(es: seq<Reading>, t: nat)
    requires forall i | 0 <= i < |es| :: es[i].time > t
    ensures StakeBy(es, t) == 0
  {
    if es != [] {
      NothingBy(es[..|es| - 1], t);
    }
  }

  /** Later readings with the same stakes give no earlier median. */
  lemma MedianMonotone(es: seq<Reading>, es': seq<Reading>, m: nat, m': nat)
    requires |es| == |es'|
    requires forall i | 0 <= i < |es| :: es[i].stake == es'[i].stake && es[i].time <= es'[i].time
    requires IsMedian(es, m) && IsMedian(es', m')
    ensures m <= m'
  {
    LaterReadings(es, es', m');
    if m' < m && es != [] {
      var i :| 0 <= i < |es'| && es'[i].time == m';
      BeforeMedian(es, m, m', i);
    }
  }

  lemma {:induction false} LaterReadings(es: seq<Reading>, es': seq<Reading>, t: nat)
    requires |es| == |es'|
    requires forall i | 0 <= i < |es| :: es[i].stake == es'[i].stake && es[i].time <= es'[i].time
    ensures StakeSum(es) == StakeSum(es') && StakeBy(es, t) >= StakeBy(es', t)
  {
    if es != [] {
      LaterReadings(es[..|es| - 1], es'[..|es| - 1], t);
    }
  }
}
