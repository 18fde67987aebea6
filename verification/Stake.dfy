/**
 Validators' stakes, quorums and the counter that adds stake up, each validator once.

 A validator group is the sequence of its stakes; a validator is its index there. Sums
 are unbounded integers.
 */
module Stake {

  /** The stake the validators of `who` hold among the first `k`. */
  ghost function StakeUpTo(stakes: seq<nat>, who: set<nat>, k: nat): (sum: nat)
    requires k <= |stakes|
  {
    if k == 0 then 0
    else StakeUpTo(stakes, who, k - 1) + (if k - 1 in who then stakes[k - 1] else 0)
  }

  ghost function StakeOf(stakes: seq<nat>, who: set<nat>): (sum: nat)
  {
    StakeUpTo(stakes, who, |stakes|)
  }

  /** The validators with an index below `k`. */
  ghost function Indices(k: nat): (all: set<nat>)
    ensures forall i: nat :: i in all <==> i < k
  {
    if k == 0 then {} else Indices(k - 1) + {k - 1}
  }

  ghost function Everyone(stakes: seq<nat>): (all: set<nat>)
  {
    Indices(|stakes|)
  }

  ghost function Total(stakes: seq<nat>): (sum: nat)
  {
    StakeOf(stakes, Everyone(stakes))
  }

  /** More than two thirds of the stake. */
  ghost function Quorum(stakes: seq<nat>): (q: nat)
    ensures q >= 1
  {
    Total(stakes) * 2 / 3 + 1
  }

  lemma {:induction false} StakeUpToSplit(stakes: seq<nat>, a: set<nat>, b: set<nat>, k: nat)
    requires k <= |stakes|
    ensures StakeUpTo(stakes, a, k) + StakeUpTo(stakes, b, k)
         == StakeUpTo(stakes, a + b, k) + StakeUpTo(stakes, a * b, k)
  {
    if k > 0 {
      StakeUpToSplit(stakes, a, b, k - 1);
    }
  }

  lemma {:induction false} StakeUpToMonotone(stakes: seq<nat>, a: set<nat>, b: set<nat>, k: nat)
    requires k <= |stakes|
    requires forall i | i in a && i < k :: i in b
    ensures StakeUpTo(stakes, a, k) <= StakeUpTo(stakes, b, k)
  {
    if k > 0 {
      StakeUpToMonotone(stakes, a, b, k - 1);
    }
  }

  lemma StakeMonotone(stakes: seq<nat>, a: set<nat>, b: set<nat>)
    requires forall i | i in a && i < |stakes| :: i in b
    ensures StakeOf(stakes, a) <= StakeOf(stakes, b)
  {
    StakeUpToMonotone(stakes, a, b, |stakes|);
  }

  lemma StakeAtMostTotal(stakes: seq<nat>, a: set<nat>)
    ensures StakeOf(stakes, a) <= Total(stakes)
  {
    StakeMonotone(stakes, a, Everyone(stakes));
  }

  /** Inclusion and exclusion, with the union bounded by the whole group. */
  lemma StakeIntersection(stakes: seq<nat>, a: set<nat>, b: set<nat>)
    ensures StakeOf(stakes, a * b) + Total(stakes) >= StakeOf(stakes, a) + StakeOf(stakes, b)
  {
    StakeUpToSplit(stakes, a, b, |stakes|);
    StakeAtMostTotal(stakes, a + b);
  }

  lemma StakeDisjoint(stakes: seq<nat>, a: set<nat>, b: set<nat>)
    requires a !! b
    ensures StakeOf(stakes, a) + StakeOf(stakes, b) == StakeOf(stakes, a + b)
    ensures StakeOf(stakes, a) + StakeOf(stakes, b) <= Total(stakes)
  {
    StakeUpToSplit(stakes, a, b, |stakes|);
    assert a * b == {};
    StakeNone(stakes, |stakes|);
    StakeAtMostTotal(stakes, a + b);
  }

  lemma {:induction false} StakeNone(stakes: seq<nat>, k: nat)
    requires k <= |stakes|
    ensures StakeUpTo(stakes, {}, k) == 0
  {
    if k > 0 {
      StakeNone(stakes, k - 1);
    }
  }

  /** A quorum is more than two thirds of the stake, and nothing more than that is needed. */
  lemma QuorumIff(stakes: seq<nat>, who: set<nat>)
    ensures StakeOf(stakes, who) >= Quorum(stakes) <==> 3 * StakeOf(stakes, who) > 2 * Total(stakes)
  {
    TwoThirds(StakeOf(stakes, who), Total(stakes));
  }

  lemma TwoThirds(x: nat, total: nat)
    ensures x >= total * 2 / 3 + 1 <==> 3 * x > 2 * total
  {}

  /** So the others can always go on without validators that hold less than a third of the stake. */
  lemma RestIsQuorum(stakes: seq<nat>, missing: set<nat>)
    ensures StakeOf(stakes, Everyone(stakes) - missing) >= Quorum(stakes) <==>
            3 * StakeOf(stakes, missing) < Total(stakes)
  {
    var rest := Everyone(stakes) - missing;
    QuorumIff(stakes, rest);
    StakeUpToSplit(stakes, rest, missing, |stakes|);
    assert rest * missing == {};
    StakeNone(stakes, |stakes|);
    StakeMonotone(stakes, rest + missing, Everyone(stakes));
    StakeMonotone(stakes, Everyone(stakes), rest + missing);
  }

  /** Fewer faulty validators than the overlap of two quorums: less stake than `2 * quorum - total`. */
  ghost predicate FaultBound(stakes: seq<nat>, faulty: set<nat>)
  {
    StakeOf(stakes, faulty) + Total(stakes) < 2 * Quorum(stakes)
  }

  /** At most a third of the stake is within the bound. */
  lemma ThirdIsWithinBound(stakes: seq<nat>, faulty: set<nat>)
    requires 3 * StakeOf(stakes, faulty) <= Total(stakes)
    ensures FaultBound(stakes, faulty)
  {}

  /** Two quorums share a validator outside any set within the fault bound. */
  lemma QuorumsShareHonest(stakes: seq<nat>, a: set<nat>, b: set<nat>, faulty: set<nat>) returns (v: nat)
    requires StakeOf(stakes, a) >= Quorum(stakes) && StakeOf(stakes, b) >= Quorum(stakes)
    requires FaultBound(stakes, faulty)
    ensures v in a && v in b && v !in faulty && v < |stakes|
  {
    StakeIntersection(stakes, a, b);
    if forall i | i in a * b && i < |stakes| :: i in faulty {
      StakeMonotone(stakes, a * b, faulty);
      assert false;
    }
    v :| v in a * b && v < |stakes| && v !in faulty;
  }

  lemma {:induction false} StakeUpToAdd(stakes: seq<nat>, who: set<nat>, v: nat, k: nat)
    requires k <= |stakes| && v !in who
    ensures StakeUpTo(stakes, who + {v}, k) == StakeUpTo(stakes, who, k) + if v < k then stakes[v] else 0
  {
    if k > 0 {
      StakeUpToAdd(stakes, who, v, k - 1);
    }
  }

  /** Adds up the stake of the validators counted so far, each of them once. */
  class StakeCounter {
    const stakes: seq<nat>
    const quorum: nat
    const already: array<bool>
    var sum: nat

    ghost predicate Valid()
      reads this, already
    {
      && already.Length == |stakes|
      && quorum == Quorum(stakes)
      && sum == StakeOf(stakes, Counted())
    }

    ghost function Counted(): (who: set<nat>)
      reads already
      ensures forall i :: i in who <==> 0 <= i < already.Length && already[i]
    {
      set i: nat | i < already.Length && already[i]
    }

    constructor (stakes: seq<nat>, total: nat)
      requires total == Total(stakes)
      ensures Valid() && fresh(already) && this.stakes == stakes
      ensures Counted() == {}
    {
      this.stakes := stakes;
      quorum := total * 2 / 3 + 1;
      already := new bool[|stakes|](_ => false);
      sum := 0;
      new;
      assert Counted() == {};
      StakeNone(stakes, |stakes|);
    }

    method CountByIdx(v: nat) returns (counted: bool)
      requires Valid() && v < |stakes|
      modifies this, already
      ensures Valid()
      ensures counted == (v !in old(Counted()))
      ensures Counted() == old(Counted()) + {v}
    {
      if already[v] {
        assert Counted() == Counted() + {v};
        return false;
      }
      already[v] := true;
      sum := sum + stakes[v];
      StakeUpToAdd(stakes, old(Counted()), v, |stakes|);
      assert Counted() == old(Counted()) + {v};
      return true;
    }

    method HasQuorum() returns (yes: bool)
      requires Valid()
      ensures yes <==> StakeOf(stakes, Counted()) >= Quorum(stakes)
      ensures yes <==> 3 * StakeOf(stakes, Counted()) > 2 * Total(stakes)
    {
      QuorumIff(stakes, Counted());
      return sum >= quorum;
    }
  }
}
