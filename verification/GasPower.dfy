/**
 Gas power: how much gas a validator's events may use. Along a validator's own events it is a
 token bucket that fills with median time.
 */
module GasPower {
  import opened Common
  import opened Stake
  import opened Wrapping

  const SECOND: nat := 1_000_000_000

  /** One of the two limits, short-term and long-term. */
  datatype Config = Config(idx: nat, allocPerSec: nat, maxAllocPeriod: nat, startupAllocPeriod: nat, minStartupGas: nat)

  /** The fields of a header that gas power depends on. */
  datatype Header = Header(creator: nat, medianTime: nat, gasLeft: seq<nat>, gasUsed: nat)

  /** The state at the start of the epoch. */
  datatype Context = Context(stakes: seq<nat>, totalStake: nat, lastHeaders: map<nat, Header>, endTime: nat,
                             refunds: map<nat, nat>)

  function StakeAt(stakes: seq<nat>, v: nat): (s: nat)
  {
    if v < |stakes| then stakes[v] else 0
  }

  /** The rate a validator's gas power grows with, in gas per second. */
  function PerSec(stakes: seq<nat>, totalStake: nat, v: nat, config: Config): (r: nat)
  {
    if StakeAt(stakes, v) == 0 || totalStake == 0 then 0
    else U64(config.allocPerSec * StakeAt(stakes, v) / totalStake)
  }

  /** The most a validator can collect. */
  function MaxGasPower(stakes: seq<nat>, totalStake: nat, v: nat, config: Config): (g: nat)
  {
    U64(PerSec(stakes, totalStake, v, config) * (config.maxAllocPeriod / SECOND))
  }

  /** What a validator starts with. */
  function Startup(stakes: seq<nat>, totalStake: nat, v: nat, config: Config): (g: nat)
  {
    if StakeAt(stakes, v) == 0 then 0
    else
      var g := U64(PerSec(stakes, totalStake, v, config) * (config.startupAllocPeriod / SECOND));
      if g < config.minStartupGas then config.minStartupGas else g
  }

  function Refund(ctx: Context, v: nat): (g: nat)
  {
    if v in ctx.refunds then ctx.refunds[v] else 0
  }

  /** What is left from before an event, and when it was left. */
  function Before(e: Header, selfParent: Option<Header>, ctx: Context, config: Config): (r: (nat, nat))
    requires selfParent.Some? ==> config.idx < |selfParent.value.gasLeft|
    requires e.creator in ctx.lastHeaders ==> config.idx < |ctx.lastHeaders[e.creator].gasLeft|
  {
    var startup := Startup(ctx.stakes, ctx.totalStake, e.creator, config);
    if selfParent.Some? then (selfParent.value.gasLeft[config.idx], selfParent.value.medianTime)
    else if e.creator in ctx.lastHeaders then
      var h := ctx.lastHeaders[e.creator];
      var left := U64(h.gasLeft[config.idx] + Refund(ctx, e.creator));
      (if left < startup then startup else left, h.medianTime)
    else (U64(startup + Refund(ctx, e.creator)), ctx.endTime)
  }

  /** The gas power an event has available. */
  function CalcGasPower(e: Header, selfParent: Option<Header>, ctx: Context, config: Config): (g: nat)
    requires selfParent.Some? ==> config.idx < |selfParent.value.gasLeft|
    requires e.creator in ctx.lastHeaders ==> config.idx < |ctx.lastHeaders[e.creator].gasLeft|
    ensures g <= MaxGasPower(ctx.stakes, ctx.totalStake, e.creator, config)
  {
    var (left, time) := Before(e, selfParent, ctx, config);
    var perSec := PerSec(ctx.stakes, ctx.totalStake, e.creator, config);
    var most := MaxGasPower(ctx.stakes, ctx.totalStake, e.creator, config);
    var since := if time > e.medianTime then 0 else e.medianTime - time;
    var g := U64(U64(since * perSec / SECOND) + left);
    if g > most then most else g
  }

  /** What the check accepts for one limit. */
  predicate Accepts(e: Header, selfParent: Option<Header>, ctx: Context, config: Config)
    requires config.idx < |e.gasLeft| && (selfParent.Some? ==> config.idx < |selfParent.value.gasLeft|)
    requires e.creator in ctx.lastHeaders ==> config.idx < |ctx.lastHeaders[e.creator].gasLeft|
  {
    U64(e.gasLeft[config.idx] + e.gasUsed) == CalcGasPower(e, selfParent, ctx, config)
  }

  /** The numeric limits of the basic check. */
  predicate InLimits(e: Header)
  {
    e.gasUsed < MAX_INT64 / 2 && (forall i | 0 <= i < |e.gasLeft| :: e.gasLeft[i] < MAX_INT64 / 2)
  }

  lemma WrapShrinks(x: nat)
    ensures U64(x) <= x
  {}

  // ---------- rates, maxima and starts ----------

  /** A validator's rate is its share of the allocation by stake, rounded down. */
  lemma RateIsShare(stakes: seq<nat>, total: nat, v: nat, config: Config)
    requires v < |stakes| && 0 < stakes[v] <= total && config.allocPerSec < TWO_64
    ensures var r := PerSec(stakes, total, v, config);
            r * total <= config.allocPerSec * stakes[v] < r * total + total
  {
    var share := config.allocPerSec * stakes[v];
    Division(share, total);
    MulMonotone(config.allocPerSec, stakes[v], total);
    QuotientAtMost(share, config.allocPerSec, total);
    U64Fits(share / total);
  }

  lemma QuotientAtMost(x: nat, q: nat, t: nat)
    requires t > 0 && x <= q * t
    ensures x / t <= q
  {
    Division(x, t);
    if x / t > q {
      MulMonotone(t, q + 1, x / t);
    }
  }

  /** The maximum is what accrues in the longest period, up to the part of its last second. */
  lemma MaxIsPeriodsWorth(stakes: seq<nat>, total: nat, v: nat, config: Config)
    requires PerSec(stakes, total, v, config) * (config.maxAllocPeriod / SECOND) < TWO_64
    ensures var r, most := PerSec(stakes, total, v, config), MaxGasPower(stakes, total, v, config);
            most <= config.maxAllocPeriod * r / SECOND <= most + r
  {
    hide PerSec;
    var r, p := PerSec(stakes, total, v, config), config.maxAllocPeriod;
    U64Fits(r * (p / SECOND));
    PeriodSplit(p, r);
  }

  lemma PeriodSplit(p: nat, r: nat)
    ensures r * (p / SECOND) <= p * r / SECOND <= r * (p / SECOND) + r
  {
    var q, rest := p / SECOND, p % SECOND;
    assert p * r == SECOND * (q * r) + rest * r;
    assert rest * r <= SECOND * r;
  }

  /** Times are in nanoseconds: in whole seconds exactly the rate accrues for each. */
  lemma SecondsWorth(seconds: nat, r: nat)
    ensures seconds * 1_000_000_000 * r / SECOND == seconds * r
  {
    assert seconds * 1_000_000_000 * r == seconds * r * SECOND;
    QuotientOfMultiple(seconds * r, SECOND);
  }

  /** Without a self-parent an event starts from at least the startup amount, itself at least the
      configured minimum, and from no more than that, or what its creator left, plus its refund. */
  lemma EpochStart(e: Header, ctx: Context, config: Config)
    requires e.creator in ctx.lastHeaders ==> config.idx < |ctx.lastHeaders[e.creator].gasLeft|
    requires StakeAt(ctx.stakes, e.creator) > 0
    requires var left := if e.creator in ctx.lastHeaders then ctx.lastHeaders[e.creator].gasLeft[config.idx]
                         else Startup(ctx.stakes, ctx.totalStake, e.creator, config);
             left + Refund(ctx, e.creator) < TWO_64
    ensures var start := Startup(ctx.stakes, ctx.totalStake, e.creator, config);
            var (have, _) := Before(e, None, ctx, config);
            && config.minStartupGas <= start <= have
            && (have > start + Refund(ctx, e.creator) ==>
                  e.creator in ctx.lastHeaders
                  && have == ctx.lastHeaders[e.creator].gasLeft[config.idx] + Refund(ctx, e.creator))
  {
    hide PerSec;
    var left := if e.creator in ctx.lastHeaders then ctx.lastHeaders[e.creator].gasLeft[config.idx]
                else Startup(ctx.stakes, ctx.totalStake, e.creator, config);
    U64Fits(left + Refund(ctx, e.creator));
  }

  /** The startup amount is what accrues in the startup period, up to the part of its last second, or
      the configured minimum if that is more. */
  lemma StartupIsPeriodsWorth(stakes: seq<nat>, total: nat, v: nat, config: Config)
    requires PerSec(stakes, total, v, config) * (config.startupAllocPeriod / SECOND) < TWO_64
    requires StakeAt(stakes, v) > 0
    ensures var r, start := PerSec(stakes, total, v, config), Startup(stakes, total, v, config);
            var worth := config.startupAllocPeriod * r / SECOND;
            && config.minStartupGas <= start
            && (start > config.minStartupGas ==> start <= worth <= start + r)
            && (worth > config.minStartupGas + r ==> start > config.minStartupGas)
  {
    hide PerSec;
    var r, p := PerSec(stakes, total, v, config), config.startupAllocPeriod;
    U64Fits(r * (p / SECOND));
    PeriodSplit(p, r);
  }

  // ---------- the bucket ----------

  /** One step: what an event uses and leaves comes from what its self-parent left and what
      accrued since; equality holds while the bucket is not full and nothing overflows. */
  lemma BucketStep(e: Header, parent: Header, ctx: Context, config: Config)
    requires config.idx < |e.gasLeft| && config.idx < |parent.gasLeft| && InLimits(e)
    requires e.creator in ctx.lastHeaders ==> config.idx < |ctx.lastHeaders[e.creator].gasLeft|
    requires Accepts(e, Some(parent), ctx, config)
    ensures var accrued := Since(parent, e) * PerSec(ctx.stakes, ctx.totalStake, e.creator, config) / SECOND;
            var most := MaxGasPower(ctx.stakes, ctx.totalStake, e.creator, config);
            var have := parent.gasLeft[config.idx] + accrued;
            && e.gasLeft[config.idx] + e.gasUsed <= have
            && e.gasLeft[config.idx] + e.gasUsed <= most
            && (have < TWO_64 ==> e.gasLeft[config.idx] + e.gasUsed == if have > most then most else have)
  {
    var accrued := Since(parent, e) * PerSec(ctx.stakes, ctx.totalStake, e.creator, config) / SECOND;
    var left := parent.gasLeft[config.idx];
    WrapShrinks(accrued);
    WrapShrinks(U64(accrued) + left);
    U64Fits(e.gasLeft[config.idx] + e.gasUsed);
    if left + accrued < TWO_64 {
      U64Fits(accrued);
      U64Fits(left + accrued);
    }
  }

  /** The median time that passed, if any. */
  function Since(p: Header, e: Header): (t: nat)
  {
    if p.medianTime > e.medianTime then 0 else e.medianTime - p.medianTime
  }

  /** What a creator brings into an epoch: what its last confirmed event left and its refund, but at least
      the startup amount; or, without such an event, the startup amount and its refund. */
  ghost function CarriedOver(ctx: Context, v: nat, config: Config): (g: nat)
    requires v in ctx.lastHeaders ==> config.idx < |ctx.lastHeaders[v].gasLeft|
  {
    var startup := Startup(ctx.stakes, ctx.totalStake, v, config);
    if v in ctx.lastHeaders then
      var kept := ctx.lastHeaders[v].gasLeft[config.idx] + Refund(ctx, v);
      if kept >= startup then kept else startup
    else startup + Refund(ctx, v)
  }

  /** The median time since a creator's last confirmed event, or since the last epoch's end. */
  ghost function SinceCarried(ctx: Context, e: Header): (t: nat)
  {
    var from := if e.creator in ctx.lastHeaders then ctx.lastHeaders[e.creator].medianTime else ctx.endTime;
    if e.medianTime >= from then e.medianTime - from else 0
  }

  /** The step into an epoch: what a creator's first event uses and leaves comes from what was carried over
      and what accrued since; equality holds while the bucket is not full and nothing overflows. */
  lemma FirstStep(e: Header, ctx: Context, config: Config)
    requires config.idx < |e.gasLeft| && InLimits(e)
    requires e.creator in ctx.lastHeaders ==> config.idx < |ctx.lastHeaders[e.creator].gasLeft|
    requires Accepts(e, None, ctx, config)
    ensures var accrued := SinceCarried(ctx, e) * PerSec(ctx.stakes, ctx.totalStake, e.creator, config) / SECOND;
            var most := MaxGasPower(ctx.stakes, ctx.totalStake, e.creator, config);
            var have := CarriedOver(ctx, e.creator, config) + accrued;
            && e.gasLeft[config.idx] + e.gasUsed <= have
            && e.gasLeft[config.idx] + e.gasUsed <= most
            && (have < TWO_64 ==> e.gasLeft[config.idx] + e.gasUsed == if have > most then most else have)
  {
    hide PerSec;
    hide MaxGasPower;
    hide Startup;
    var accrued := SinceCarried(ctx, e) * PerSec(ctx.stakes, ctx.totalStake, e.creator, config) / SECOND;
    var carried := CarriedOver(ctx, e.creator, config);
    var (left, time) := Before(e, None, ctx, config);
    CarriedIs(e, ctx, config);
    WrapShrinks(accrued);
    WrapShrinks(U64(accrued) + left);
    U64Fits(e.gasLeft[config.idx] + e.gasUsed);
    if carried + accrued < TWO_64 {
      U64Fits(accrued);
      U64Fits(left + accrued);
    }
  }

  lemma CarriedIs(e: Header, ctx: Context, config: Config)
    requires e.creator in ctx.lastHeaders ==> config.idx < |ctx.lastHeaders[e.creator].gasLeft|
    ensures var (left, time) := Before(e, None, ctx, config);
            var carried := CarriedOver(ctx, e.creator, config);
            && left <= carried && (carried < TWO_64 ==> left == carried)
            && SinceCarried(ctx, e) == if time > e.medianTime then 0 else e.medianTime - time
  {
    hide PerSec;
    hide Startup;
    var startup := Startup(ctx.stakes, ctx.totalStake, e.creator, config);
    if e.creator in ctx.lastHeaders {
      var kept := ctx.lastHeaders[e.creator].gasLeft[config.idx] + Refund(ctx, e.creator);
      WrapShrinks(kept);
      if kept < TWO_64 {
        U64Fits(kept);
      }
    } else {
      WrapShrinks(startup + Refund(ctx, e.creator));
      if startup + Refund(ctx, e.creator) < TWO_64 {
        U64Fits(startup + Refund(ctx, e.creator));
      }
    }
  }

  /** A run of a validator's events, each the self-parent of the next and each accepted after it. */
  ghost predicate AcceptedChain(chain: seq<Header>, v: nat, ctx: Context, config: Config)
  {
    && (v in ctx.lastHeaders ==> config.idx < |ctx.lastHeaders[v].gasLeft|)
    && (forall i {:trigger chain[i]} | 0 <= i < |chain| ::
        chain[i].creator == v && config.idx < |chain[i].gasLeft| && InLimits(chain[i]))
    && (forall i {:trigger StepAccepted(chain, i, ctx, config)} | 0 <= i < |chain| - 1 ::
        StepAccepted(chain, i, ctx, config))
  }

  predicate StepAccepted(chain: seq<Header>, i: nat, ctx: Context, config: Config)
    requires i + 1 < |chain| && config.idx < |chain[i].gasLeft| && config.idx < |chain[i + 1].gasLeft|
    requires chain[i + 1].creator in ctx.lastHeaders ==> config.idx < |ctx.lastHeaders[chain[i + 1].creator].gasLeft|
  {
    Accepts(chain[i + 1], Some(chain[i]), ctx, config)
  }

  /** The gas used by the events after the first. */
  ghost function UsedAfterFirst(chain: seq<Header>): (g: nat)
  {
    if |chain| <= 1 then 0 else UsedAfterFirst(chain[..|chain| - 1]) + chain[|chain| - 1].gasUsed
  }

  /** The median time that passed along the chain, counting forward steps only. */
  ghost function TimeForward(chain: seq<Header>): (t: nat)
  {
    if |chain| <= 1 then 0 else TimeForward(chain[..|chain| - 1]) + Since(chain[|chain| - 2], chain[|chain| - 1])
  }

  /**
   The token bucket: whatever events a validator emits after another one of its events, they use
   no more gas than that event left plus what accrued at the validator's rate in the median time
   that passed.
   */
  lemma {:induction false} TokenBucket(chain: seq<Header>, v: nat, ctx: Context, config: Config)
    requires |chain| >= 1 && AcceptedChain(chain, v, ctx, config)
    ensures UsedAfterFirst(chain) + chain[|chain| - 1].gasLeft[config.idx] <=
            chain[0].gasLeft[config.idx] + TimeForward(chain) * PerSec(ctx.stakes, ctx.totalStake, v, config) / SECOND
  {
    hide PerSec;
    hide InLimits;
    if |chain| > 1 {
      var init := chain[..|chain| - 1];
      var p, e := chain[|chain| - 2], chain[|chain| - 1];
      var r := PerSec(ctx.stakes, ctx.totalStake, v, config);
      ChainInit(chain, v, ctx, config);
      TokenBucket(init, v, ctx, config);
      assert StepAccepted(chain, |chain| - 2, ctx, config);
      BucketStep(e, p, ctx, config);
      FloorsAdd(TimeForward(init), Since(p, e), r);
    }
  }

  /** A validator's events of one epoch, from its first. */
  ghost predicate EpochChain(chain: seq<Header>, v: nat, ctx: Context, config: Config)
  {
    |chain| >= 1 && AcceptedChain(chain, v, ctx, config) && Accepts(chain[0], None, ctx, config)
  }

  ghost function Used(chain: seq<Header>): (g: nat)
    requires |chain| >= 1
  {
    chain[0].gasUsed + UsedAfterFirst(chain)
  }

  /** The token bucket of an epoch: all events of a validator use no more than it brought into the epoch
      plus what accrued from where that was left. */
  lemma EpochBucket(chain: seq<Header>, v: nat, ctx: Context, config: Config)
    requires EpochChain(chain, v, ctx, config)
    ensures Used(chain) + chain[|chain| - 1].gasLeft[config.idx] <=
            var r := PerSec(ctx.stakes, ctx.totalStake, v, config);
            CarriedOver(ctx, v, config) + (SinceCarried(ctx, chain[0]) + TimeForward(chain)) * r / SECOND
  {
    hide PerSec;
    hide CarriedOver;
    hide SinceCarried;
    hide InLimits;
    hide Accepts;
    assert chain[0].creator == v;
    FirstStep(chain[0], ctx, config);
    TokenBucket(chain, v, ctx, config);
    FloorsAdd(SinceCarried(ctx, chain[0]), TimeForward(chain), PerSec(ctx.stakes, ctx.totalStake, v, config));
  }

  /**
   The token bucket across the end of an epoch: from one of a validator's events on, through the last one
   confirmed in that epoch, to the end of a run in the next, at most what that event left is used, plus
   what accrued in both epochs, plus the refund, plus what the startup amount adds.
   */
  lemma BucketAcrossEpochs(chain: seq<Header>, ctx: Context, next: seq<Header>, ctx': Context, v: nat, config: Config)
    requires |chain| >= 1 && AcceptedChain(chain, v, ctx, config) && EpochChain(next, v, ctx', config)
    requires v in ctx'.lastHeaders && ctx'.lastHeaders[v] == chain[|chain| - 1]
    ensures var r, r' := PerSec(ctx.stakes, ctx.totalStake, v, config), PerSec(ctx'.stakes, ctx'.totalStake, v, config);
            var accrued := TimeForward(chain) * r / SECOND;
            var accrued' := (Since(chain[|chain| - 1], next[0]) + TimeForward(next)) * r' / SECOND;
            var startup := Startup(ctx'.stakes, ctx'.totalStake, v, config);
            var kept := chain[|chain| - 1].gasLeft[config.idx] + Refund(ctx', v);
            UsedAfterFirst(chain) + Used(next) + next[|next| - 1].gasLeft[config.idx] <=
            chain[0].gasLeft[config.idx] + accrued + accrued' + Refund(ctx', v)
            + if startup > kept then startup - kept else 0
  {
    hide PerSec;
    hide Startup;
    hide InLimits;
    hide Accepts;
    assert next[0].creator == v;
    TokenBucket(chain, v, ctx, config);
    EpochBucket(next, v, ctx', config);
    assert SinceCarried(ctx', next[0]) == Since(chain[|chain| - 1], next[0]);
  }

  lemma ChainInit(chain: seq<Header>, v: nat, ctx: Context, config: Config)
    requires |chain| >= 1 && AcceptedChain(chain, v, ctx, config)
    ensures AcceptedChain(chain[..|chain| - 1], v, ctx, config)
  {
    hide Accepts;
    hide InLimits;
    var init := chain[..|chain| - 1];
    forall i | 0 <= i < |init| - 1
      ensures StepAccepted(init, i, ctx, config)
    {
      assert StepAccepted(chain, i, ctx, config);
    }
  }

  lemma FloorsAdd(s: nat, t: nat, r: nat)
    ensures s * r / SECOND + t * r / SECOND <= (s + t) * r / SECOND
  {
    assert (s + t) * r == s * r + t * r;
  }

  /** No event leaves more than the maximum, so a validator never uses more than the maximum plus
      what accrues, whatever it did before. */
  lemma NeverMoreThanFull(chain: seq<Header>, v: nat, ctx: Context, config: Config)
    requires |chain| >= 2 && AcceptedChain(chain, v, ctx, config)
    ensures var most := MaxGasPower(ctx.stakes, ctx.totalStake, v, config);
            && (forall i | 1 <= i < |chain| :: chain[i].gasLeft[config.idx] <= most)
            && UsedAfterFirst(chain[1..]) <=
                 most + TimeForward(chain[1..]) * PerSec(ctx.stakes, ctx.totalStake, v, config) / SECOND
  {
    hide PerSec;
    hide MaxGasPower;
    hide InLimits;
    forall i | 1 <= i < |chain|
      ensures chain[i].gasLeft[config.idx] <= MaxGasPower(ctx.stakes, ctx.totalStake, v, config)
    {
      assert StepAccepted(chain, i - 1, ctx, config);
      BucketStep(chain[i], chain[i - 1], ctx, config);
    }
    var rest := chain[1..];
    assert forall i | 0 <= i < |rest| :: rest[i] == chain[i + 1];
    forall i | 0 <= i < |rest| - 1
      ensures StepAccepted(rest, i, ctx, config)
    {
      assert StepAccepted(chain, i + 1, ctx, config);
      assert rest[i] == chain[i + 1] && rest[i + 1] == chain[i + 2];
    }
    TokenBucket(rest, v, ctx, config);
  }

  // ---------- all validators ----------

  ghost function SumOfRates(stakes: seq<nat>, totalStake: nat, config: Config, k: nat): (r: nat)
    requires k <= |stakes|
  {
    if k == 0 then 0 else SumOfRates(stakes, totalStake, config, k - 1) + PerSec(stakes, totalStake, k - 1, config)
  }

  /** Together the validators' gas power grows no faster than the configured rate. */
  lemma RatesWithinAllocation(stakes: seq<nat>, config: Config)
    ensures SumOfRates(stakes, Total(stakes), config, |stakes|) <= config.allocPerSec
  {
    if Total(stakes) == 0 {
      NoStakeNoRate(stakes, config, |stakes|);
    } else {
      RatesUpTo(stakes, Total(stakes), config, |stakes|);
      QuotientOfMultiple(config.allocPerSec, Total(stakes));
    }
  }

  lemma {:induction false} NoStakeNoRate(stakes: seq<nat>, config: Config, k: nat)
    requires k <= |stakes|
    ensures SumOfRates(stakes, 0, config, k) == 0
  {
    if k > 0 {
      NoStakeNoRate(stakes, config, k - 1);
    }
  }

  lemma {:induction false} RatesUpTo(stakes: seq<nat>, total: nat, config: Config, k: nat)
    requires k <= |stakes| && total > 0
    ensures SumOfRates(stakes, total, config, k) <= config.allocPerSec * StakeUpTo(stakes, Everyone(stakes), k) / total
  {
    hide PerSec;
    if k > 0 {
      RatesUpTo(stakes, total, config, k - 1);
      var before := StakeUpTo(stakes, Everyone(stakes), k - 1);
      RateAtMost(stakes, total, config, k - 1);
      QuotientsAdd(config.allocPerSec * before, config.allocPerSec * stakes[k - 1], total);
      Expand(config.allocPerSec, before, stakes[k - 1]);
    }
  }

  lemma RateAtMost(stakes: seq<nat>, total: nat, config: Config, v: nat)
    requires total > 0 && v < |stakes|
    ensures PerSec(stakes, total, v, config) <= config.allocPerSec * stakes[v] / total
  {
    Division(config.allocPerSec * stakes[v], total);
    WrapShrinks(config.allocPerSec * stakes[v] / total);
  }

  lemma QuotientsAdd(a: nat, b: nat, t: nat)
    requires t > 0
    ensures a / t + b / t <= (a + b) / t
  {
    var q, r := a / t, b / t;
    Division(a, t);
    Division(b, t);
    Collect(q, r, t, a, b);
    AtMostQuotient(a + b, q + r, t);
  }

  lemma Collect(q: nat, r: nat, t: nat, a: nat, b: nat)
    requires q * t <= a && r * t <= b
    ensures (q + r) * t <= a + b
  {}

  lemma AtMostQuotient(x: nat, q: nat, t: nat)
    requires t > 0 && q * t <= x
    ensures q <= x / t
  {
    Division(x, t);
    if q > x / t {
      MulMonotone(t, x / t + 1, q);
    }
  }

  lemma QuotientOfMultiple(a: nat, t: nat)
    requires t > 0
    ensures a * t / t == a
  {
    AtMostQuotient(a * t, a, t);
    Division(a * t, t);
  }
}
