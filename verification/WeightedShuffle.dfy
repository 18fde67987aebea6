/**
 Weighted random permutations, drawn from a tree of weights, and the turns of validators to
 originate a transaction that they decide.
 */
module WeightedShuffle {
  import opened Common

  // ---------- the shape of the tree ----------

  function Left(i: nat): nat { 2 * i + 1 }

  function Right(i: nat): nat { 2 * i + 2 }

  /** Node `j` is below node `i` or is it. */
  predicate Below(i: nat, j: nat)
    decreases j
  {
    j == i || (j > i && j > 0 && Below(i, (j - 1) / 2))
  }

  lemma {:induction false} BelowUnfold(i: nat, j: nat)
    ensures Below(i, j) <==> j == i || Below(Left(i), j) || Below(Right(i), j)
    decreases j
  {
    if j > i {
      BelowUnfold(i, (j - 1) / 2);
      var p := (j - 1) / 2;
      assert p == i <==> j == Left(i) || j == Right(i);
    }
  }

  lemma {:induction false} SidesDisjoint(i: nat, j: nat)
    ensures !(Below(Left(i), j) && Below(Right(i), j))
    decreases j
  {
    if j > Right(i) {
      SidesDisjoint(i, (j - 1) / 2);
    }
  }

  lemma {:induction false} RootIsAbove(j: nat)
    ensures Below(0, j)
    decreases j
  {
    if j > 0 {
      RootIsAbove((j - 1) / 2);
    }
  }

  // ---------- the weights ----------

  /** The weight below a node that was not drawn yet. */
  ghost function Rest(weights: seq<nat>, gone: set<nat>, i: nat): (w: nat)
    decreases |weights| - i
  {
    if i >= |weights| then 0
    else (if i in gone then 0 else weights[i]) + Rest(weights, gone, Left(i)) + Rest(weights, gone, Right(i))
  }

  predicate Positive(weights: seq<nat>)
  {
    forall i | 0 <= i < |weights| :: weights[i] > 0
  }

  /** Drawing an index takes its weight from exactly the nodes above it. */
  lemma {:induction false} RestWithout(weights: seq<nat>, gone: set<nat>, i: nat, j: nat)
    requires j < |weights| && j !in gone
    ensures Rest(weights, gone + {j}, i) ==
            if Below(i, j) then Rest(weights, gone, i) - weights[j] else Rest(weights, gone, i)
    decreases |weights| - i
  {
    BelowUnfold(i, j);
    SidesDisjoint(i, j);
    if i < |weights| {
      RestWithout(weights, gone, Left(i), j);
      RestWithout(weights, gone, Right(i), j);
      NotBelowChild(i, j);
    } else {
      assert !Below(i, j) by {
        BelowIsLater(i, j);
      }
    }
  }

  lemma {:induction false} BelowIsLater(i: nat, j: nat)
    ensures Below(i, j) ==> i <= j
  {}

  lemma NotBelowChild(i: nat, j: nat)
    ensures j == i ==> !Below(Left(i), j) && !Below(Right(i), j)
  {
    BelowIsLater(Left(i), j);
    BelowIsLater(Right(i), j);
  }

  /** There is weight below a node as long as an index below it was not drawn. */
  lemma {:induction false} RestPositive(weights: seq<nat>, gone: set<nat>, i: nat, j: nat)
    requires Positive(weights) && j < |weights| && j !in gone && Below(i, j)
    ensures Rest(weights, gone, i) >= weights[j] > 0
    decreases |weights| - i
  {
    BelowIsLater(i, j);
    BelowUnfold(i, j);
    if j != i {
      if Below(Left(i), j) {
        RestPositive(weights, gone, Left(i), j);
      } else {
        RestPositive(weights, gone, Right(i), j);
      }
    }
  }

  // ---------- drawing ----------

  /** The index drawn below a node and the number of random numbers used up: at each node a new
      number chooses between the node and its two sides, in proportion to their weights. */
  ghost function Pick(weights: seq<nat>, gone: set<nat>, i: nat, draw: nat -> nat, k: nat): (r: (nat, nat))
    requires Rest(weights, gone, i) > 0
    ensures r.0 < |weights| && r.0 !in gone && Below(i, r.0)
    decreases |weights| - i
  {
    var own := if i in gone then 0 else weights[i];
    var left := Rest(weights, gone, Left(i));
    var r := draw(k) % Rest(weights, gone, i);
    if r < own then (i, k + 1)
    else if r < own + left then
      var res := Pick(weights, gone, Left(i), draw, k + 1);
      BelowUnfold(i, res.0);
      res
    else
      var res := Pick(weights, gone, Right(i), draw, k + 1);
      BelowUnfold(i, res.0);
      res
  }

  /** How a draw goes on from a node. */
  lemma PickStep(weights: seq<nat>, gone: set<nat>, i: nat, draw: nat -> nat, k: nat)
    requires Rest(weights, gone, i) > 0
    ensures i < |weights|
    ensures var own := if i in gone then 0 else weights[i];
            var left, right := Rest(weights, gone, Left(i)), Rest(weights, gone, Right(i));
            var r := draw(k) % (right + left + own);
            && Rest(weights, gone, i) == right + left + own
            && (r < own ==> Pick(weights, gone, i, draw, k) == (i, k + 1))
            && (own <= r < own + left ==>
                left > 0 && Pick(weights, gone, i, draw, k) == Pick(weights, gone, Left(i), draw, k + 1))
            && (own + left <= r ==>
                right > 0 && Pick(weights, gone, i, draw, k) == Pick(weights, gone, Right(i), draw, k + 1))
  {}

  lemma PickIsBelow(weights: seq<nat>, gone: set<nat>, i: nat, draw: nat -> nat, k: nat)
    requires Rest(weights, gone, i) > 0
    ensures var r := Pick(weights, gone, i, draw, k); r.0 < |weights| && r.0 !in gone && Below(i, r.0)
  {}

  /** The first indices of the permutation, and the random numbers used up. */
  ghost function Perm(weights: seq<nat>, draw: nat -> nat, size: nat): (r: (seq<nat>, nat))
    requires Positive(weights) && size <= |weights|
    ensures |r.0| == size
    ensures forall i | 0 <= i < size :: r.0[i] < |weights|
    ensures forall i, j | 0 <= i < j < size :: r.0[i] != r.0[j]
  {
    if size == 0 then ([], 0)
    else
      var before := Perm(weights, draw, size - 1);
      var gone := set i | 0 <= i < size - 1 :: before.0[i];
      SomeoneLeft(weights, before.0);
      var next := Pick(weights, gone, 0, draw, before.1);
      assert forall i | 0 <= i < size - 1 :: before.0[i] in gone;
      (before.0 + [next.0], next.1)
  }

  ghost function Drawn(list: seq<nat>): (gone: set<nat>)
  {
    set i | 0 <= i < |list| :: list[i]
  }

  /** Fewer draws than indices leave an index, so no modulus is ever zero. */
  lemma SomeoneLeft(weights: seq<nat>, list: seq<nat>)
    requires Positive(weights) && |list| < |weights|
    ensures Rest(weights, Drawn(list), 0) > 0
  {
    var j := Missing(list, |weights|);
    RootIsAbove(j);
    RestPositive(weights, Drawn(list), 0, j);
  }

  /** A shorter list than the range misses a number of it. */
  lemma {:induction false} Missing(list: seq<nat>, n: nat) returns (j: nat)
    requires |list| < n
    ensures j < n && j !in Drawn(list)
  {
    DrawnSize(list);
    if Range(n) <= Drawn(list) {
      SubsetSize(Range(n), Drawn(list));
    }
    j :| j in Range(n) && j !in Drawn(list);
  }

  ghost function Range(n: nat): (all: set<nat>)
    ensures forall i: nat :: i in all <==> i < n
    ensures |all| == n
  {
    if n == 0 then {} else Range(n - 1) + {n - 1}
  }

  lemma {:induction false} DrawnSize(list: seq<nat>)
    ensures |Drawn(list)| <= |list|
  {
    if list != [] {
      var init := list[..|list| - 1];
      DrawnSize(init);
      assert Drawn(list) == Drawn(init) + {list[|list| - 1]};
    }
  }

  lemma {:induction false} SubsetSize(a: set<nat>, b: set<nat>)
    requires a <= b
    ensures |a| <= |b|
    decreases a
  {
    if a != {} {
      var x :| x in a;
      SubsetSize(a - {x}, b - {x});
    }
  }

  // ---------- the random numbers ----------

  function Iterate(hash: nat -> nat, seed: nat, n: nat): (s: nat)
  {
    if n == 0 then seed else hash(Iterate(hash, seed, n - 1))
  }

  /** The k-th random number of a seed: each hash of the seed gives four of them. */
  function DrawAt(hash: nat -> nat, part: (nat, nat) -> nat, seed: nat): (draw: nat -> nat)
  {
    (k: nat) => part(Iterate(hash, seed, k / 4), 8 * (k % 4))
  }

  /** A seed gives the four numbers at its bytes 0, 8, 16 and 24; after them come those of its hash. */
  lemma DrawsFollow(hash: nat -> nat, part: (nat, nat) -> nat, seed: nat, k: nat)
    ensures DrawAt(hash, part, seed)(k) == if k < 4 then part(seed, 8 * k) else DrawAt(hash, part, hash(seed))(k - 4)
  {
    if k >= 4 {
      var n := k / 4 - 1;
      IterateFirst(hash, seed, n);
      assert k / 4 == n + 1 && (k - 4) / 4 == n && (k - 4) % 4 == k % 4;
    } else {
      assert Iterate(hash, seed, 0) == seed && k / 4 == 0 && k % 4 == k;
    }
  }

  lemma {:induction false} IterateFirst(hash: nat -> nat, seed: nat, n: nat)
    ensures Iterate(hash, seed, n + 1) == Iterate(hash, hash(seed), n)
  {
    if n > 0 {
      IterateFirst(hash, seed, n - 1);
    }
  }

  // ---------- the tree ----------

  datatype Node = Node(thisWeight: nat, leftWeight: nat, rightWeight: nat)

  /** What a node holds after some indices were drawn. */
  ghost function NodeOf(weights: seq<nat>, gone: set<nat>, i: nat): (n: Node)
    requires i < |weights|
  {
    Node(if i in gone then 0 else weights[i], Rest(weights, gone, Left(i)), Rest(weights, gone, Right(i)))
  }

  lemma NodeWithout(weights: seq<nat>, gone: set<nat>, i: nat, j: nat)
    requires i < |weights| && j < |weights| && j !in gone
    ensures !Below(i, j) ==> NodeOf(weights, gone + {j}, i) == NodeOf(weights, gone, i)
    ensures j == i ==> NodeOf(weights, gone + {j}, i) == NodeOf(weights, gone, i).(thisWeight := 0)
    ensures Below(Left(i), j) ==>
              Rest(weights, gone, Left(i)) >= weights[j]
              && NodeOf(weights, gone + {j}, i) ==
                   NodeOf(weights, gone, i).(leftWeight := Rest(weights, gone, Left(i)) - weights[j])
    ensures Below(Right(i), j) ==>
              Rest(weights, gone, Right(i)) >= weights[j]
              && NodeOf(weights, gone + {j}, i) ==
                   NodeOf(weights, gone, i).(rightWeight := Rest(weights, gone, Right(i)) - weights[j])
  {
    RestWithout(weights, gone, Left(i), j);
    RestWithout(weights, gone, Right(i), j);
    BelowUnfold(i, j);
    SidesDisjoint(i, j);
    NotBelowChild(i, j);
  }

  lemma {:induction false} BelowTransitive(i: nat, j: nat, k: nat)
    requires Below(i, j) && Below(j, k)
    ensures Below(i, k)
    decreases k
  {
    BelowIsLater(i, j);
    if k != j {
      BelowTransitive(i, j, (k - 1) / 2);
    }
  }

  /** Nodes on the side an index was not drawn from keep what they hold. */
  lemma NodeAside(weights: seq<nat>, gone: set<nat>, side: nat, j: nat, chosen: nat)
    requires j < |weights| && chosen < |weights| && chosen !in gone && Below(side, j) && !Below(side, chosen)
    ensures NodeOf(weights, gone + {chosen}, j) == NodeOf(weights, gone, j)
  {
    NodeWithout(weights, gone, j, chosen);
    if Below(j, chosen) {
      BelowTransitive(side, j, chosen);
    }
  }

  class Tree {
    const weights: seq<nat>
    const nodes: array<Node>
    const hash: nat -> nat
    const part: (nat, nat) -> nat
    ghost const first: nat
    var seed: nat
    var seedIndex: nat
    /** How many random numbers were used. */
    ghost var used: nat

    ghost predicate RandOk()
      reads this
    {
      && seedIndex <= 32 && seedIndex % 8 == 0 && used >= seedIndex / 8 && (used - seedIndex / 8) % 4 == 0
      && seed == Iterate(hash, first, (used - seedIndex / 8) / 4)
    }

    /** The nodes below `i` hold what is left when `gone` was drawn. */
    ghost predicate Holds(gone: set<nat>, i: nat)
      requires nodes.Length == |weights|
      reads nodes
    {
      forall j {:trigger nodes[j]} | 0 <= j < |weights| && Below(i, j) :: nodes[j] == NodeOf(weights, gone, j)
    }

    constructor (weights: seq<nat>, seed: nat, hash: nat -> nat, part: (nat, nat) -> nat)
      ensures this.weights == weights && this.hash == hash && this.part == part && this.first == seed
      ensures fresh(nodes) && nodes.Length == |weights| && RandOk() && used == 0
    {
      this.weights := weights;
      this.hash := hash;
      this.part := part;
      this.first := seed;
      this.seed := seed;
      seedIndex := 0;
      used := 0;
      nodes := new Node[|weights|](_ => Node(0, 0, 0));
    }

    /** The next random number. */
    method Rand64() returns (r: nat)
      requires RandOk()
      modifies this`seed, this`seedIndex, this`used
      ensures RandOk() && used == old(used) + 1
      ensures r == DrawAt(hash, part, first)(old(used))
    {
      if seedIndex == 32 {
        seed := hash(seed);
        seedIndex := 0;
      }
      r := part(seed, seedIndex);
      seedIndex := seedIndex + 8;
      used := used + 1;
    }

    /** Fills in the nodes below `i`; not ok if a weight is zero. */
    method Build(i: nat) returns (ok: bool, w: nat)
      requires nodes.Length == |weights|
      modifies nodes
      ensures ok <==> forall j | 0 <= j < |weights| && Below(i, j) :: weights[j] > 0
      ensures ok ==> w == Rest(weights, {}, i) && Holds({}, i)
      ensures forall j | 0 <= j < |weights| && !Below(i, j) :: nodes[j] == old(nodes[j])
      decreases |weights| - i
    {
      forall j | 0 <= j < |weights|
        ensures Below(i, j) <==> j == i || Below(Left(i), j) || Below(Right(i), j)
        ensures !(Below(Left(i), j) && Below(Right(i), j))
        ensures Below(i, j) ==> i <= j
        ensures j == i ==> !Below(Left(i), j) && !Below(Right(i), j)
      {
        BelowUnfold(i, j);
        SidesDisjoint(i, j);
        BelowIsLater(i, j);
        NotBelowChild(i, j);
      }
      if i >= |weights| {
        return true, 0;
      }
      var okLeft, left := Build(Left(i));
      if !okLeft {
        return false, 0;
      }
      var okRight, right := Build(Right(i));
      if !okRight || weights[i] == 0 {
        return false, 0;
      }
      nodes[i] := Node(weights[i], left, right);
      return true, weights[i] + left + right;
    }

    /** Draws an index below `i`. */
    method Retrieve(i: nat, ghost gone: set<nat>) returns (chosen: nat)
      requires nodes.Length == |weights| && RandOk() && Holds(gone, i) && Rest(weights, gone, i) > 0
      modifies nodes, this`seed, this`seedIndex, this`used
      ensures RandOk() && (chosen, used) == Pick(weights, gone, i, DrawAt(hash, part, first), old(used))
      ensures Holds(gone + {chosen}, i)
      ensures forall j | 0 <= j < |weights| && !Below(i, j) :: nodes[j] == old(nodes[j])
      decreases |weights| - i
    {
      hide DrawAt;
      hide RandOk;
      hide Pick;
      hide Rest;
      PickStep(weights, gone, i, DrawAt(hash, part, first), used);
      var node := nodes[i];
      assert node == NodeOf(weights, gone, i);
      SideHolds(gone, i, Left(i));
      SideHolds(gone, i, Right(i));
      NotBelowChild(i, i);
      Sides(i);
      var r := Rand64();
      r := r % (node.rightWeight + node.leftWeight + node.thisWeight);
      if r < node.thisWeight {
        NodeWithout(weights, gone, i, i);
        nodes[i] := node.(thisWeight := 0);
        chosen := i;
      } else if r < node.thisWeight + node.leftWeight {
        PickIsBelow(weights, gone, Left(i), DrawAt(hash, part, first), used);
        chosen := Retrieve(Left(i), gone);
        NodeWithout(weights, gone, i, chosen);
        nodes[i] := node.(leftWeight := node.leftWeight - weights[chosen]);
      } else {
        PickIsBelow(weights, gone, Right(i), DrawAt(hash, part, first), used);
        chosen := Retrieve(Right(i), gone);
        NodeWithout(weights, gone, i, chosen);
        nodes[i] := node.(rightWeight := node.rightWeight - weights[chosen]);
      }
      Assembled(gone, i, chosen);
    }

    lemma Sides(i: nat)
      ensures forall j: nat {:trigger Below(Left(i), j)} ::
                Below(Left(i), j) ==> Below(i, j) && j != i && !Below(Right(i), j)
      ensures forall j: nat {:trigger Below(Right(i), j)} ::
                Below(Right(i), j) ==> Below(i, j) && j != i && !Below(Left(i), j)
    {
      forall j: nat | Below(Left(i), j) || Below(Right(i), j)
        ensures Below(i, j) && j != i && !(Below(Left(i), j) && Below(Right(i), j))
      {
        BelowUnfold(i, j);
        SidesDisjoint(i, j);
        NotBelowChild(i, j);
      }
    }

    lemma Assembled(gone: set<nat>, i: nat, chosen: nat)
      requires nodes.Length == |weights| && i < |weights| && chosen < |weights| && chosen !in gone
      requires nodes[i] == NodeOf(weights, gone + {chosen}, i)
      requires Holds(if Below(Left(i), chosen) then gone + {chosen} else gone, Left(i))
      requires Holds(if Below(Right(i), chosen) then gone + {chosen} else gone, Right(i))
      ensures Holds(gone + {chosen}, i)
    {
      hide NodeOf;
      forall j | 0 <= j < |weights| && Below(i, j)
        ensures nodes[j] == NodeOf(weights, gone + {chosen}, j)
      {
        BelowUnfold(i, j);
        if Below(Left(i), j) && !Below(Left(i), chosen) {
          NodeAside(weights, gone, Left(i), j, chosen);
        } else if Below(Right(i), j) && !Below(Right(i), chosen) {
          NodeAside(weights, gone, Right(i), j, chosen);
        }
      }
    }

    lemma SideHolds(gone: set<nat>, i: nat, side: nat)
      requires nodes.Length == |weights| && Holds(gone, i) && (side == Left(i) || side == Right(i))
      ensures Holds(gone, side)
    {
      forall j | 0 <= j < |weights| && Below(side, j)
        ensures Below(i, j)
      {
        BelowUnfold(i, j);
      }
    }
  }

  /** The first entries of a weighted permutation; nothing if there are too few weights or one is zero. */
  method WeightedPermutation(size: nat, weights: seq<nat>, seed: nat, hash: nat -> nat, part: (nat, nat) -> nat)
    returns (perm: Option<seq<nat>>)
    ensures perm.Some? <==> size <= |weights| && Positive(weights)
    ensures perm.Some? ==> perm.value == Perm(weights, DrawAt(hash, part, seed), size).0
  {
    hide DrawAt;
    hide Pick;
    hide Rest;
    if |weights| < size {
      return None;
    }
    if |weights| == 0 {
      return Some([]);
    }
    var tree := new Tree(weights, seed, hash, part);
    var ok, _ := tree.Build(0);
    AllBelowRoot(|weights|);
    if !ok {
      return None;
    }
    var list := [];
    DrawnNone();
    for i := 0 to size
      invariant tree.RandOk() && tree.Holds(Drawn(list), 0) && |list| == i
      invariant (list, tree.used) == Perm(weights, DrawAt(hash, part, seed), i)
    {
      SomeoneLeft(weights, list);
      var next := tree.Retrieve(0, Drawn(list));
      DrawnSnoc(list, next);
      list := list + [next];
    }
    return Some(list);
  }

  lemma DrawnNone()
    ensures Drawn([]) == {}
  {}

  lemma DrawnSnoc(list: seq<nat>, next: nat)
    ensures Drawn(list + [next]) == Drawn(list) + {next}
  {
    var more := list + [next];
    assert forall i | 0 <= i < |list| :: more[i] == list[i];
    assert more[|list|] == next;
  }

  lemma AllBelowRoot(n: nat)
    ensures forall j: nat {:trigger Below(0, j)} :: Below(0, j)
  {
    forall j: nat
      ensures Below(0, j)
    {
      RootIsAbove(j);
    }
  }

  // ---------- what a permutation promises ----------

  /** A shorter permutation is the front of a longer one. */
  lemma {:induction false} PermPrefix(weights: seq<nat>, draw: nat -> nat, size: nat, more: nat)
    requires Positive(weights) && size <= more <= |weights|
    ensures Perm(weights, draw, size).0 == Perm(weights, draw, more).0[..size]
    decreases more
  {
    hide Pick;
    if size < more {
      PermPrefix(weights, draw, size, more - 1);
      assert Perm(weights, draw, more).0[..more - 1] == Perm(weights, draw, more - 1).0;
      TakeTake(Perm(weights, draw, more).0, size, more - 1);
    } else {
      assert Perm(weights, draw, more).0[..size] == Perm(weights, draw, more).0;
    }
  }

  lemma TakeTake(s: seq<nat>, m: nat, n: nat)
    requires m <= n <= |s|
    ensures s[..n][..m] == s[..m]
  {}

  /** The whole permutation holds every index. */
  lemma PermIsComplete(weights: seq<nat>, draw: nat -> nat, v: nat)
    requires Positive(weights) && v < |weights|
    ensures v in Perm(weights, draw, |weights|).0
  {
    hide Pick;
    var list := Perm(weights, draw, |weights|).0;
    if v !in list {
      DistinctSize(list);
      assert Drawn(list) <= Range(|weights|) - {v};
      SubsetSize(Drawn(list), Range(|weights|) - {v});
    }
  }

  lemma {:induction false} DistinctSize(list: seq<nat>)
    requires forall i, j | 0 <= i < j < |list| :: list[i] != list[j]
    ensures |Drawn(list)| == |list|
  {
    if list != [] {
      var init, last := list[..|list| - 1], list[|list| - 1];
      DistinctSize(init);
      DrawnSnoc(init, last);
      assert list == init + [last];
      assert last !in Drawn(init);
    } else {
      DrawnNone();
    }
  }

  // ---------- turns ----------

  /** Whose turn it is in a round, by the permutation of just enough entries. */
  ghost function TurnOf(weights: seq<nat>, draw: nat -> nat, round: nat): (v: nat)
    requires Positive(weights) && |weights| > 0
    ensures v < |weights|
  {
    var index := round % |weights|;
    Perm(weights, draw, index + 1).0[index]
  }

  /** A node's answer whether it is its turn. */
  method IsMyTurn(elapsed: nat, period: nat, weights: seq<nat>, seed: nat, hash: nat -> nat, part: (nat, nat) -> nat,
                  me: nat)
    returns (mine: bool)
    requires period > 0 && |weights| > 0 && Positive(weights)
    ensures mine == (TurnOf(weights, DrawAt(hash, part, seed), elapsed / period) == me)
    ensures mine == (Perm(weights, DrawAt(hash, part, seed), |weights|).0[elapsed / period % |weights|] == me)
  {
    hide DrawAt;
    hide Perm;
    TurnIsEntry(weights, DrawAt(hash, part, seed), elapsed / period);
    var index := (elapsed / period) % |weights|;
    var turns := WeightedPermutation(index + 1, weights, seed, hash, part);
    PermShape(weights, DrawAt(hash, part, seed), index + 1);
    return turns.value[index] == me;
  }

  lemma PermShape(weights: seq<nat>, draw: nat -> nat, size: nat)
    requires Positive(weights) && size <= |weights|
    ensures |Perm(weights, draw, size).0| == size
  {}

  lemma TurnIsEntry(weights: seq<nat>, draw: nat -> nat, round: nat)
    requires Positive(weights) && |weights| > 0
    ensures TurnOf(weights, draw, round) == Perm(weights, draw, |weights|).0[round % |weights|]
  {
    PermPrefix(weights, draw, round % |weights| + 1, |weights|);
  }

  /** In any n consecutive rounds each of the n validators has exactly one turn. */
  lemma OneTurnEach(weights: seq<nat>, draw: nat -> nat, start: nat, v: nat) returns (turn: nat)
    requires Positive(weights) && v < |weights|
    ensures start <= turn < start + |weights| && TurnOf(weights, draw, turn) == v
    ensures forall k | start <= k < start + |weights| && TurnOf(weights, draw, k) == v :: k == turn
  {
    hide Perm;
    hide TurnOf;
    var n := |weights|;
    var list := Perm(weights, draw, n).0;
    PermIsComplete(weights, draw, v);
    var i :| 0 <= i < |list| && list[i] == v;
    PermShape(weights, draw, n);
    turn := RoundOf(start, n, i);
    TurnIsEntry(weights, draw, turn);
    forall k | start <= k < start + n && TurnOf(weights, draw, k) == v
      ensures k == turn
    {
      TurnIsEntry(weights, draw, k);
      EntriesDiffer(weights, draw, k % n, i);
      SameRound(start, n, k, turn);
    }
  }

  lemma EntriesDiffer(weights: seq<nat>, draw: nat -> nat, i: nat, j: nat)
    requires Positive(weights) && i < |weights| && j < |weights|
    ensures Perm(weights, draw, |weights|).0[i] == Perm(weights, draw, |weights|).0[j] ==> i == j
  {
    hide Pick;
  }

  /** The round of a window with a given remainder. */
  lemma RoundOf(start: nat, n: nat, i: nat) returns (k: nat)
    requires i < n
    ensures start <= k < start + n && k % n == i
  {
    var q, r := start / n, start % n;
    Division(start, n);
    OneMore(q + 1, n);
    k := if i >= r then q * n + i else (q + 1) * n + i;
    Remainder(if i >= r then q else q + 1, n, i);
  }

  lemma Remainder(q: nat, n: nat, i: nat)
    requires i < n
    ensures (q * n + i) % n == i
  {
    var x := q * n + i;
    var p := x / n;
    Division(x, n);
    if p < q {
      Gap(p, q, n);
    } else if q < p {
      Gap(q, p, n);
    }
  }

  lemma Gap(a: nat, b: nat, n: nat)
    requires a < b
    ensures b * n >= a * n + n
  {
    if b > a + 1 {
      Gap(a, b - 1, n);
    }
    OneMore(b, n);
  }

  lemma OneMore(b: nat, n: nat)
    requires b > 0
    ensures b * n == (b - 1) * n + n
  {}

  lemma SameRound(start: nat, n: nat, k: nat, l: nat)
    requires n > 0 && start <= k < start + n && start <= l < start + n && k % n == l % n
    ensures k == l
  {
    Division(k, n);
    Division(l, n);
    if k / n < l / n {
      Gap(k / n, l / n, n);
    } else if l / n < k / n {
      Gap(l / n, k / n, n);
    }
  }
}
