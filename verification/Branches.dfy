/**
 Global branches: how the index cuts each creator's events into self-parent chains, and
 the growable vectors indexed by branch.
 */
module Branches {
  import opened Dag

  const MAX_INT32: nat := 0x7fff_ffff

  /** The highest and lowest observed event numbers of a branch. */
  datatype BranchSeq = BranchSeq(high: nat, low: nat)

  /** Marks a branch whose creator was seen forking. */
  const FORK_DETECTED := BranchSeq(0, MAX_INT32)

  const NOTHING := BranchSeq(0, 0)

  /** Reading past the end of a vector gives zero. */
  function Get<T>(v: seq<T>, i: nat, zero: T): (x: T)
  {
    if i < |v| then v[i] else zero
  }

  /** Writing past the end of a vector grows it with zeros. */
  function Set<T>(v: seq<T>, i: nat, x: T, zero: T): (w: seq<T>)
    ensures |w| == if i < |v| then |v| else i + 1
    ensures forall j: nat :: Get(w, j, zero) == if j == i then x else Get(v, j, zero)
  {
    if i < |v| then v[i := x] else (v + seq(i + 1 - |v|, _ => zero))[i := x]
  }

  /** Branch tables: last number and creator of each branch, and the branches of each creator. */
  datatype BranchesInfo = BranchesInfo(lastSeq: seq<nat>, creatorOf: seq<nat>, byCreator: seq<seq<nat>>)

  function InitialBranches(n: nat): (bi: BranchesInfo)
    ensures TablesAgree(n, bi)
    ensures forall br | 0 <= br < |bi.lastSeq| :: bi.lastSeq[br] == 0
  {
    BranchesInfo(seq(n, _ => 0), seq(n, i => i), seq(n, (i: nat) => [i]))
  }

  /** The first `n` branches are the validators' own; `byCreator` inverts `creatorOf`. */
  ghost predicate TablesAgree(n: nat, bi: BranchesInfo)
  {
    && |bi.lastSeq| == |bi.creatorOf| >= n
    && |bi.byCreator| == n
    && (forall br | 0 <= br < n :: bi.creatorOf[br] == br)
    && (forall br | 0 <= br < |bi.creatorOf| :: bi.creatorOf[br] < n)
    && (forall c | 0 <= c < n :: |bi.byCreator[c]| >= 1 && bi.byCreator[c][0] == c)
    && (forall c, i | 0 <= c < n && 0 <= i < |bi.byCreator[c]| ::
          bi.byCreator[c][i] < |bi.creatorOf| && bi.creatorOf[bi.byCreator[c][i]] == c)
    && (forall br | 0 <= br < |bi.creatorOf| :: br in bi.byCreator[bi.creatorOf[br]])
  }

  /** Every branch is a piece of one self-parent chain of its creator. */
  ghost predicate Placed(d: Dag, bi: BranchesInfo, at: map<EventId, nat>)
    requires |bi.lastSeq| == |bi.creatorOf|
  {
    && Closed(d, at.Keys)
    && (forall x {:trigger PlacedAt(d, bi, at, x)} | x in at :: PlacedAt(d, bi, at, x))
    && (forall x, y | SamePlace(d, at, x, y) :: x == y)
    && (forall x, y | Below(d, at, y, x) :: FollowsParent(d, at, x))
  }

  /** An event is on a branch of its creator, not past the branch's last number. */
  predicate PlacedAt(d: map<EventId, Event>, bi: BranchesInfo, at: map<EventId, nat>, x: EventId)
  {
    && x in d && x in at && at[x] < |bi.creatorOf| && at[x] < |bi.lastSeq|
    && bi.creatorOf[at[x]] == d[x].creator
    && d[x].seqNo <= bi.lastSeq[at[x]]
  }

  /** Two events with the same number on the same branch. */
  predicate SamePlace(d: map<EventId, Event>, at: map<EventId, nat>, x: EventId, y: EventId)
  {
    x in d && y in d && x in at && y in at && at[x] == at[y] && d[x].seqNo == d[y].seqNo
  }

  /** An event lies on the branch of its self-parent. */
  predicate FollowsParent(d: map<EventId, Event>, at: map<EventId, nat>, x: EventId)
  {
    && x in d && x in at && d[x].SelfParent().Some?
    && d[x].parents[0] in at && at[d[x].parents[0]] == at[x]
  }

  /** `y` comes before `x` on one branch. */
  predicate Below(d: map<EventId, Event>, at: map<EventId, nat>, y: EventId, x: EventId)
  {
    x in d && y in d && x in at && y in at && at[x] == at[y] && d[y].seqNo < d[x].seqNo
  }

  /** Two events of a branch and everything between them lie on one self-parent chain and on that branch. */
  lemma {:induction false} BranchIsChain(d: Dag, bi: BranchesInfo, at: map<EventId, nat>, x: EventId, y: EventId,
                                         s: nat)
    requires |bi.lastSeq| == |bi.creatorOf| && Placed(d, bi, at)
    requires x in at && y in at && at[x] == at[y]
    requires 1 <= d[y].seqNo <= s <= d[x].seqNo
    ensures ChainAt(d, x, d[y].seqNo) == y
    ensures ChainAt(d, x, s) in at && at[ChainAt(d, x, s)] == at[x]
    decreases d[x].lamport
  {
    assert SamePlace(d, at, x, y) <==> d[x].seqNo == d[y].seqNo;
    if d[y].seqNo < d[x].seqNo {
      var p := d[x].parents[0];
      assert p in d[x].parents && Below(d, at, y, x);
      BranchIsChain(d, bi, at, p, y, if s == d[x].seqNo then d[y].seqNo else s);
    }
  }

  /** What `fillGlobalBranchID` may answer for a new event `e`: an untouched first branch, the
      branch it extends, or a new branch. */
  ghost predicate FreshPlace(d: Dag, bi: BranchesInfo, at: map<EventId, nat>, e: Event, me: nat)
  {
    && me < |bi.creatorOf| && me < |bi.lastSeq|
    && bi.creatorOf[me] == e.creator
    && (forall x | x in at && at[x] == me :: x in d && d[x].seqNo < e.seqNo)
    && ((exists x :: x in at && at[x] == me) ==>
          e.SelfParent().Some? && e.parents[0] in at && at[e.parents[0]] == me)
    && bi.lastSeq[me] == e.seqNo
  }

  /** Placing a new event on the branch chosen for it keeps the branches chains. */
  lemma PlaceKeepsChains(d: Dag, old': BranchesInfo, bi: BranchesInfo, at: map<EventId, nat>, id: EventId, me: nat)
    requires |old'.lastSeq| == |old'.creatorOf| <= |bi.lastSeq| == |bi.creatorOf|
    requires Placed(d, old', at)
    requires id in d && id !in at && (forall p | p in d[id].parents :: p in at)
    requires FreshPlace(d, bi, at, d[id], me)
    requires forall br | 0 <= br < |old'.creatorOf| :: bi.creatorOf[br] == old'.creatorOf[br]
    requires forall br | 0 <= br < |old'.lastSeq| :: old'.lastSeq[br] <= bi.lastSeq[br]
    ensures Placed(d, bi, at[id := me])
  {
    var at' := at[id := me];
    assert Closed(d, at'.Keys) by {
      PlaceKeepsClosed(d, at, id, me);
    }
    forall x | x in at'
      ensures PlacedAt(d, bi, at', x)
    {
      assert x != id ==> PlacedAt(d, old', at, x);
    }
    forall x, y | SamePlace(d, at', x, y)
      ensures x == y
    {
      PlaceKeepsPair(d, old', bi, at, id, me, x, y);
    }
    forall x, y | Below(d, at', y, x)
      ensures FollowsParent(d, at', x)
    {
      PlaceKeepsPair(d, old', bi, at, id, me, x, y);
    }
  }

  lemma PlaceKeepsClosed(d: Dag, at: map<EventId, nat>, id: EventId, me: nat)
    requires Closed(d, at.Keys) && id in d && (forall p | p in d[id].parents :: p in at)
    ensures Closed(d, at[id := me].Keys)
  {}

  lemma PlaceKeepsPair(d: Dag, old': BranchesInfo, bi: BranchesInfo, at: map<EventId, nat>, id: EventId, me: nat,
                       x: EventId, y: EventId)
    requires |old'.lastSeq| == |old'.creatorOf| && Placed(d, old', at)
    requires id in d && id !in at && (forall p | p in d[id].parents :: p in at)
    requires FreshPlace(d, bi, at, d[id], me)
    requires x in at[id := me] && y in at[id := me] && at[id := me][x] == at[id := me][y]
    ensures d[x].seqNo == d[y].seqNo ==> x == y
    ensures d[y].seqNo < d[x].seqNo ==> FollowsParent(d, at[id := me], x)
  {
    if x == id && y != id {
      assert y in at && at[y] == me;
    } else if x != id && y == id {
      assert x in at && at[x] == me;
    } else if x != id {
      assert SamePlace(d, at, x, y) <==> d[x].seqNo == d[y].seqNo;
      assert Below(d, at, y, x) <==> d[y].seqNo < d[x].seqNo;
    }
  }
}
