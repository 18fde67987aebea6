/**
 A binary heap of nonces kept in a list, with the operations of a standard heap.
 */
module NonceHeap {
  function Parent(k: nat): (p: nat)
    requires k > 0
  {
    (k - 1) / 2
  }

  /** The edge above `k` is in order. */
  predicate Edge(h: seq<nat>, k: nat)
    requires 0 < k < |h|
  {
    h[Parent(k)] <= h[k]
  }

  predicate IsHeap(h: seq<nat>)
  {
    forall k {:trigger Edge(h, k)} | 0 < k < |h| :: Edge(h, k)
  }

  function Swap(h: seq<nat>, i: nat, j: nat): (r: seq<nat>)
    requires i < |h| && j < |h|
    ensures |r| == |h| && r[i] == h[j] && r[j] == h[i]
    ensures forall k | 0 <= k < |h| && k != i && k != j :: r[k] == h[k]
    ensures multiset(r) == multiset(h)
  {
    h[i := h[j]][j := h[i]]
  }

  lemma {:induction false} RootIsLeast(h: seq<nat>, k: nat)
    requires IsHeap(h) && k < |h|
    ensures h[0] <= h[k]
  {
    if k > 0 {
      RootIsLeast(h, Parent(k));
      assert Edge(h, k);
    }
  }

  // ---------- sifting up ----------

  /** All edges are in order but the one above `j`, over which `j`'s children are in order too. */
  ghost predicate Rising(h: seq<nat>, j: nat)
    requires j < |h|
  {
    && (forall k {:trigger Edge(h, k)} | 0 < k < |h| && k != j :: Edge(h, k))
    && (forall k {:trigger h[k]} | 0 < k < |h| && Parent(k) == j && j > 0 :: h[Parent(j)] <= h[k])
  }

  lemma RiseStep(h: seq<nat>, j: nat)
    requires 0 < j < |h| && Rising(h, j) && h[j] < h[Parent(j)]
    ensures Rising(Swap(h, Parent(j), j), Parent(j))
  {
    var i := Parent(j);
    var r := Swap(h, i, j);
    forall k | 0 < k < |r| && k != i
      ensures Edge(r, k)
    {
      if k != j {
        assert Edge(h, k);
        assert Parent(k) == i ==> r[k] == h[k] && h[i] <= h[k];
        assert Parent(k) == j ==> h[i] <= h[k];
      }
    }
    forall k | 0 < k < |r| && Parent(k) == i && i > 0
      ensures r[Parent(i)] <= r[k]
    {
      assert Edge(h, i);
      if k != j {
        assert Edge(h, k);
      }
    }
  }

  method Up(h0: seq<nat>, j0: nat) returns (h: seq<nat>)
    requires j0 < |h0| && Rising(h0, j0)
    ensures IsHeap(h) && |h| == |h0| && multiset(h) == multiset(h0)
  {
    h := h0;
    var j: nat := j0;
    while j > 0 && h[j] < h[Parent(j)]
      invariant |h| == |h0| && j < |h| && multiset(h) == multiset(h0)
      invariant Rising(h, j)
    {
      RiseStep(h, j);
      h := Swap(h, Parent(j), j);
      j := Parent(j);
    }
    assert j > 0 ==> Edge(h, j);
  }

  // ---------- sifting down ----------

  /** Of the edges at or below `lo` and within the first `n`, those not touching `i` are in order,
      and so are `i`'s children with its parent. */
  ghost predicate Sinking(h: seq<nat>, n: nat, lo: nat, i: nat)
    requires n <= |h|
  {
    && (forall k {:trigger Edge(h, k)} | 0 < k < n && Parent(k) >= lo && k != i && Parent(k) != i :: Edge(h, k))
    && (forall k {:trigger h[k]} | 0 < k < n && Parent(k) == i && i > 0 && Parent(i) >= lo :: h[Parent(i)] <= h[k])
  }

  lemma Children(i: nat)
    ensures forall k: nat {:trigger Parent(k)} | k > 0 && Parent(k) == i :: k == 2 * i + 1 || k == 2 * i + 2
  {}

  /** The smaller of the children of `i` within the first `n`. */
  function LesserChild(h: seq<nat>, n: nat, i: nat): (j: nat)
    requires 2 * i + 1 < n <= |h|
    ensures i < j < n && Parent(j) == i
    ensures forall k {:trigger h[k]} | 0 < k < n && Parent(k) == i :: h[j] <= h[k]
  {
    var j1, j2 := 2 * i + 1, 2 * i + 2;
    Children(i);
    if j2 < n && h[j2] < h[j1] then j2 else j1
  }

  lemma SinkStep(h: seq<nat>, n: nat, lo: nat, i: nat)
    requires 2 * i + 1 < n <= |h| && lo <= i && Sinking(h, n, lo, i)
    requires h[LesserChild(h, n, i)] < h[i]
    ensures var j := LesserChild(h, n, i);
            var r := Swap(h, i, j);
            && Sinking(r, n, lo, j) && Edge(r, j)
            && (i > 0 && Parent(i) >= lo ==> Edge(r, i))
  {
    var j := LesserChild(h, n, i);
    var r := Swap(h, i, j);
    assert i > 0 && Parent(i) >= lo ==> h[Parent(i)] <= h[j];
    forall k | 0 < k < n && Parent(k) >= lo && k != j && Parent(k) != j
      ensures Edge(r, k)
    {
      if k == i {
      } else if Parent(k) == i {
        assert h[j] <= h[k];
      } else {
        assert Edge(h, k);
      }
    }
    forall k | 0 < k < n && Parent(k) == j
      ensures r[Parent(j)] <= r[k]
    {
      assert k != i && Parent(k) != i && Edge(h, k);
    }
  }

  ghost predicate Sunk(h: seq<nat>, n: nat, lo: nat, i: nat, moved: bool)
    requires n <= |h|
  {
    forall k {:trigger Edge(h, k)} | 0 < k < n && Parent(k) >= lo && (k != i || moved) :: Edge(h, k)
  }

  /** Sinks the entry at `i0`; the edge above it is in order afterwards if it moved. */
  method Down(h0: seq<nat>, i0: nat, n: nat, ghost lo: nat) returns (h: seq<nat>, moved: bool)
    requires lo <= i0 && n <= |h0| && (i0 < n || n == 0) && Sinking(h0, n, lo, i0)
    ensures |h| == |h0| && multiset(h) == multiset(h0) && h[n..] == h0[n..]
    ensures Sunk(h, n, lo, i0, moved)
    ensures !moved ==> h == h0
  {
    h := h0;
    var i: nat := i0;
    while 2 * i + 1 < n && h[LesserChild(h, n, i)] < h[i]
      invariant |h| == |h0| && multiset(h) == multiset(h0) && h[n..] == h0[n..]
      invariant lo <= i0 <= i && Sinking(h, n, lo, i)
      invariant i == i0 ==> h == h0
      invariant i > i0 ==> i < n && Parent(i) >= lo && Edge(h, i) && (i0 > 0 && Parent(i0) >= lo ==> Edge(h, i0))
      decreases n - i
    {
      var j := LesserChild(h, n, i);
      SinkStep(h, n, lo, i);
      h := Swap(h, i, j);
      i := j;
    }
    moved := i > i0;
    forall k | 0 < k < n && Parent(k) >= lo && (k != i0 || moved)
      ensures Edge(h, k)
    {
      if Parent(k) == i {
        assert h[LesserChild(h, n, i)] <= h[k];
      }
    }
  }

  // ---------- the operations ----------

  method Push(h0: seq<nat>, x: nat) returns (h: seq<nat>)
    requires IsHeap(h0)
    ensures IsHeap(h) && multiset(h) == multiset(h0) + multiset{x}
  {
    h := h0 + [x];
    forall k | 0 < k < |h0|
      ensures Edge(h, k)
    {
      assert Edge(h0, k);
    }
    h := Up(h, |h0|);
  }

  /** Removes the least entry. */
  method Pop(h0: seq<nat>) returns (h: seq<nat>, x: nat)
    requires IsHeap(h0) && h0 != []
    ensures IsHeap(h) && x == h0[0] && multiset(h) == multiset(h0) - multiset{x} && |h| == |h0| - 1
  {
    hide IsHeap;
    hide Edge;
    hide Sunk;
    hide Sinking;
    hide Rising;
    hide Swap;
    var n := |h0| - 1;
    var moved;
    RemovedSinks(h0, 0);
    h, moved := Down(Swap(h0, 0, n), 0, n, 0);
    RootSunk(h, n, moved);
    FrontIsHeap(h, n, 0);
    LastOf(h, h0, n, 0);
    x := h[n];
    h := h[..n];
  }

  /** Removes the entry at a position. */
  method Remove(h0: seq<nat>, i: nat) returns (h: seq<nat>)
    requires IsHeap(h0) && i < |h0|
    ensures IsHeap(h) && multiset(h) == multiset(h0) - multiset{h0[i]}
  {
    hide IsHeap;
    hide Edge;
    hide Sunk;
    hide Sinking;
    hide Rising;
    hide Swap;
    var n := |h0| - 1;
    if n == i {
      HeapFront(h0);
      LastOf(h0, h0, n, n);
      return h0[..n];
    }
    RemovedSinks(h0, i);
    var moved;
    h, moved := Down(Swap(h0, i, n), i, n, 0);
    LastOf(h, h0, n, i);
    h := Settle(h, h0, i, n, moved);
  }

  /** Drops the last entry, and lifts the one at `i` if it did not sink. */
  method Settle(sunk: seq<nat>, ghost h0: seq<nat>, i: nat, n: nat, moved: bool) returns (h: seq<nat>)
    requires IsHeap(h0) && |sunk| == |h0| == n + 1 && i < n && Sunk(sunk, n, 0, i, moved)
             && (!moved ==> sunk == Swap(h0, i, n))
    ensures IsHeap(h) && multiset(h) == multiset(sunk[..n])
  {
    hide IsHeap;
    hide Edge;
    hide Sunk;
    hide Rising;
    h := sunk[..n];
    if moved {
      FrontIsHeap(sunk, n, i);
    } else {
      NotMovedRises(h0, h, i);
      h := Up(h, i);
    }
  }

  lemma FrontIsHeap(h: seq<nat>, n: nat, i: nat)
    requires n <= |h| && Sunk(h, n, 0, i, true)
    ensures IsHeap(h[..n])
  {
    forall k | 0 < k < n
      ensures Edge(h[..n], k)
    {
      assert Edge(h, k);
    }
  }

  lemma HeapFront(h: seq<nat>)
    requires IsHeap(h) && h != []
    ensures IsHeap(h[..|h| - 1])
  {
    FrontIsHeap(h, |h| - 1, 0);
  }

  lemma RootSunk(h: seq<nat>, n: nat, moved: bool)
    requires n <= |h| && Sunk(h, n, 0, 0, moved)
    ensures Sunk(h, n, 0, 0, true)
  {}

  /** Dropping the last of rearranged entries, if it is entry `i` of the original ones. */
  lemma LastOf(h: seq<nat>, h0: seq<nat>, n: nat, i: nat)
    requires |h| == |h0| == n + 1 && i <= n && multiset(h) == multiset(h0) && h[n..] == Swap(h0, i, n)[n..]
    ensures h[n] == h0[i] && multiset(h[..n]) == multiset(h0) - multiset{h0[i]}
  {
    assert h[n..][0] == h[n] && Swap(h0, i, n)[n..][0] == h0[i];
    assert h == h[..n] + [h[n]];
  }

  lemma RemovedSinks(h: seq<nat>, i: nat)
    requires IsHeap(h) && i < |h|
    ensures Sinking(Swap(h, i, |h| - 1), |h| - 1, 0, i)
  {
    var n := |h| - 1;
    var r := Swap(h, i, n);
    forall k | 0 < k < n && k != i && Parent(k) != i
      ensures Edge(r, k)
    {
      assert Edge(h, k);
    }
    forall k | 0 < k < n && Parent(k) == i && i > 0
      ensures r[Parent(i)] <= r[k]
    {
      assert Edge(h, i) && Edge(h, k);
    }
  }

  lemma NotMovedRises(h0: seq<nat>, h: seq<nat>, i: nat)
    requires IsHeap(h0) && i < |h| == |h0| - 1 && h == Swap(h0, i, |h|)[..|h|]
             && Sunk(Swap(h0, i, |h|), |h|, 0, i, false)
    ensures Rising(h, i)
  {
    var r := Swap(h0, i, |h|);
    forall k | 0 < k < |h| && k != i
      ensures Edge(h, k)
    {
      assert Edge(r, k);
    }
    forall k | 0 < k < |h| && Parent(k) == i && i > 0
      ensures h[Parent(i)] <= h[k]
    {
      assert Edge(h0, i) && Edge(h0, k);
    }
  }

  /** Makes a heap of any list. */
  method Init(h0: seq<nat>) returns (h: seq<nat>)
    ensures IsHeap(h) && multiset(h) == multiset(h0)
  {
    h := h0;
    var n := |h|;
    var i := n / 2;
    while i > 0
      invariant i <= n / 2 && |h| == n && multiset(h) == multiset(h0)
      invariant forall k {:trigger Edge(h, k)} | 0 < k < n && Parent(k) >= i :: Edge(h, k)
    {
      i := i - 1;
      var moved;
      h, moved := Down(h, i, n, i);
    }
  }
}
