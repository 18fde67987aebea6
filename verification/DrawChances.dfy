/**
 Why the permutations are weighted: how likely each index is to be drawn next.
 */
module DrawChances {
  import opened WeightedShuffle

  /** How many of the numbers below `n` are such. */
  ghost function Count(n: nat, such: nat -> bool): (c: nat)
  {
    if n == 0 then 0 else Count(n - 1, such) + if such(n - 1) then 1 else 0
  }

  /** If exactly the numbers from `lo` up to `hi` are such, they are counted. */
  lemma {:induction false} CountRange(n: nat, such: nat -> bool, lo: nat, hi: nat)
    requires lo <= hi && forall r: nat | r < n :: such(r) <==> lo <= r < hi
    ensures Count(n, such) == (if n < lo then 0 else if n < hi then n - lo else hi - lo)
  {
    if n > 0 {
      CountRange(n - 1, such, lo, hi);
      assert such(n - 1) <==> lo <= n - 1 < hi;
    }
  }

  /** The random numbers with the k-th replaced. */
  function With(draw: nat -> nat, k: nat, r: nat): (other: nat -> nat)
  {
    (i: nat) => if i == k then r else draw(i)
  }

  /** What is drawn below a node if the number there is `r`. */
  ghost function DrawnIf(weights: seq<nat>, gone: set<nat>, i: nat, draw: nat -> nat, k: nat, r: nat): (j: nat)
    requires Rest(weights, gone, i) > 0
  {
    Pick(weights, gone, i, With(draw, k, r), k).0
  }

  ghost function StopsIf(weights: seq<nat>, gone: set<nat>, i: nat, draw: nat -> nat, k: nat): (such: nat -> bool)
    requires Rest(weights, gone, i) > 0
  {
    (r: nat) => DrawnIf(weights, gone, i, draw, k, r) == i
  }

  ghost function GoesIf(weights: seq<nat>, gone: set<nat>, i: nat, side: nat, draw: nat -> nat, k: nat)
    : (such: nat -> bool)
    requires Rest(weights, gone, i) > 0
  {
    (r: nat) => Below(side, DrawnIf(weights, gone, i, draw, k, r))
  }

  /** How many numbers below the total weight draw the node itself. */
  ghost function Stops(weights: seq<nat>, gone: set<nat>, i: nat, draw: nat -> nat, k: nat): (n: nat)
    requires Rest(weights, gone, i) > 0
  {
    Count(Rest(weights, gone, i), StopsIf(weights, gone, i, draw, k))
  }

  /** How many of them draw something below a side. */
  ghost function GoesTo(weights: seq<nat>, gone: set<nat>, i: nat, side: nat, draw: nat -> nat, k: nat): (n: nat)
    requires Rest(weights, gone, i) > 0
  {
    Count(Rest(weights, gone, i), GoesIf(weights, gone, i, side, draw, k))
  }

  /** At each node, of all numbers below the total weight, as many lead to the node itself, to its left and to
      its right as they weigh, whatever the other numbers are. */
  lemma NumbersByWeight(weights: seq<nat>, gone: set<nat>, i: nat, draw: nat -> nat, k: nat)
    requires Rest(weights, gone, i) > 0
    ensures i < |weights|
    ensures Stops(weights, gone, i, draw, k) == if i in gone then 0 else weights[i]
    ensures GoesTo(weights, gone, i, Left(i), draw, k) == Rest(weights, gone, Left(i))
    ensures GoesTo(weights, gone, i, Right(i), draw, k) == Rest(weights, gone, Right(i))
  {
    hide Pick;
    hide DrawnIf;
    hide Below;
    hide Count;
    PickStep(weights, gone, i, draw, k);
    var n := Rest(weights, gone, i);
    var own := if i in gone then 0 else weights[i];
    var left := Rest(weights, gone, Left(i));
    forall r: nat | r < n
      ensures StopsIf(weights, gone, i, draw, k)(r) <==> 0 <= r < own
      ensures GoesIf(weights, gone, i, Left(i), draw, k)(r) <==> own <= r < own + left
      ensures GoesIf(weights, gone, i, Right(i), draw, k)(r) <==> own + left <= r < n
    {
      WhereItGoes(weights, gone, i, draw, k, r);
    }
    CountRange(n, StopsIf(weights, gone, i, draw, k), 0, own);
    CountRange(n, GoesIf(weights, gone, i, Left(i), draw, k), own, own + left);
    CountRange(n, GoesIf(weights, gone, i, Right(i), draw, k), own + left, n);
  }

  lemma WhereItGoes(weights: seq<nat>, gone: set<nat>, i: nat, draw: nat -> nat, k: nat, r: nat)
    requires r < Rest(weights, gone, i) && i < |weights|
    ensures var own, left := if i in gone then 0 else weights[i], Rest(weights, gone, Left(i));
            var j := DrawnIf(weights, gone, i, draw, k, r);
            && (j == i <==> r < own)
            && (Below(Left(i), j) <==> own <= r < own + left)
            && (Below(Right(i), j) <==> own + left <= r)
  {
    hide Pick;
    var other := With(draw, k, r);
    PickStep(weights, gone, i, other, k);
    Modulo(r, Rest(weights, gone, i));
    assert other(k) == r;
    var j := Pick(weights, gone, i, other, k).0;
    SidesDisjoint(i, j);
    NotOnSides(i);
    var own := if i in gone then 0 else weights[i];
    if r >= own {
      var side := if r < own + Rest(weights, gone, Left(i)) then Left(i) else Right(i);
      PickIsBelow(weights, gone, side, other, k + 1);
      BelowIsLater(side, j);
    }
  }

  lemma Modulo(r: nat, n: nat)
    requires r < n
    ensures r % n == r
  {}

  lemma NotOnSides(i: nat)
    ensures !Below(Left(i), i) && !Below(Right(i), i)
  {}

  function Share(part: nat, total: nat): (p: real)
    requires total > 0
  {
    part as real / total as real
  }

  function Times(p: real, q: real): (r: real)
  {
    p * q
  }

  lemma Cancel(w: nat, part: nat, total: nat)
    requires part > 0 && total > 0
    ensures Times(Share(part, total), Share(w, part)) == Share(w, total)
  {
    var w', p, t := w as real, part as real, total as real;
    assert p / t * (w' / p) == w' / t;
  }

  /** The chance that `j` is drawn below a node, if at each node the number is equally likely to be any below
      the total weight: the shares of the numbers that lead towards it, multiplied. */
  ghost function Chance(weights: seq<nat>, gone: set<nat>, i: nat, j: nat, draw: nat -> nat, k: nat): (p: real)
    requires Rest(weights, gone, i) > 0 && j < |weights|
    decreases |weights| - i
  {
    var total := Rest(weights, gone, i);
    if j == i then Share(Stops(weights, gone, i, draw, k), total)
    else if Below(Left(i), j) && Rest(weights, gone, Left(i)) > 0 then
      Times(Share(GoesTo(weights, gone, i, Left(i), draw, k), total), Chance(weights, gone, Left(i), j, draw, k + 1))
    else if Below(Right(i), j) && Rest(weights, gone, Right(i)) > 0 then
      Times(Share(GoesTo(weights, gone, i, Right(i), draw, k), total), Chance(weights, gone, Right(i), j, draw, k + 1))
    else 0.0
  }

  lemma ChanceStep(weights: seq<nat>, gone: set<nat>, i: nat, side: nat, j: nat, draw: nat -> nat, k: nat)
    requires Rest(weights, gone, i) > 0 && j < |weights| && j != i && Below(side, j) && Rest(weights, gone, side) > 0
    requires side == Left(i) || (side == Right(i) && !Below(Left(i), j))
    ensures Chance(weights, gone, i, j, draw, k) ==
            Times(Share(GoesTo(weights, gone, i, side, draw, k), Rest(weights, gone, i)),
                  Chance(weights, gone, side, j, draw, k + 1))
  {
    hide GoesTo;
    hide Below;
    hide Rest;
    hide Share;
    hide Times;
  }

  /** Draws are weighted: the chance of an index that was not drawn yet is its share of the weight left. */
  lemma {:induction false} ChanceIsShare(weights: seq<nat>, gone: set<nat>, i: nat, j: nat, draw: nat -> nat, k: nat)
    requires Positive(weights) && j < |weights| && j !in gone && Below(i, j) && Rest(weights, gone, i) > 0
    ensures Chance(weights, gone, i, j, draw, k) == Share(weights[j], Rest(weights, gone, i))
    decreases |weights| - i
  {
    hide Share;
    hide Times;
    NumbersByWeight(weights, gone, i, draw, k);
    if j != i {
      hide Chance;
      hide GoesTo;
      hide Rest;
      BelowUnfold(i, j);
      SidesDisjoint(i, j);
      var side := if Below(Left(i), j) then Left(i) else Right(i);
      RestPositive(weights, gone, side, j);
      ChanceIsShare(weights, gone, side, j, draw, k + 1);
      ChanceStep(weights, gone, i, side, j, draw, k);
      Cancel(weights[j], Rest(weights, gone, side), Rest(weights, gone, i));
    }
  }
}
