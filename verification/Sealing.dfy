/**
 Sealing an epoch: consensus counts decided frames, the application counts blocks since its last
 voting, and the service keeps the statistics of the pending epoch. All three stay in step.
 */
module Sealing {
  import opened Common
  import opened Dag
  import opened Wrapping
  import opened Blocks
  import opened ConsensusTime
  import opened Application
  import opened RootStore
  import opened Election
  import opened Poset

  datatype Config = Config(maxEpochBlocks: nat, maxEpochDuration: nat)

  /** When an epoch is over: enough frames, enough time since its start, a cheater, or forced by the contract. */
  predicate SealRule(config: Config, start: nat, x: Delivery, forced: bool)
  {
    x.frame >= config.maxEpochBlocks || U64(x.block.time - start) >= config.maxEpochDuration || |x.cheaters| > 0
    || forced
  }

  /** What the application tests of a block since its last voting. */
  predicate VotingDue(config: Config, voting: (nat, nat), block: Block, cheaters: seq<nat>)
  {
    U64(block.index - voting.0) >= config.maxEpochBlocks || U64(block.time - voting.1) >= config.maxEpochDuration
    || |cheaters| > 0
  }

  class App {
    const config: Config
    var epoch: nat
    var votingBlock: nat
    var votingTime: nat
    /** Whether the block being processed seals the epoch; none between blocks. */
    var ctx: Option<bool>

    /** Genesis counts as the last voting. */
    constructor (config: Config, epoch: nat, genesisTime: nat)
      ensures this.config == config && this.epoch == epoch && votingBlock == 0 && votingTime == genesisTime
              && ctx == None
    {
      this.config := config;
      this.epoch := epoch;
      votingBlock, votingTime := 0, genesisTime;
      ctx := None;
    }

    predicate ShouldSealEpoch(block: Block, cheaters: seq<nat>)
      reads this
    {
      VotingDue(config, (votingBlock, votingTime), block, cheaters)
    }

    method BeginBlock(block: Block, cheaters: seq<nat>)
      requires ctx.None?
      modifies this`ctx
      ensures ctx == Some(ShouldSealEpoch(block, cheaters))
    {
      ctx := Some(ShouldSealEpoch(block, cheaters));
    }

    method DeliverTxs(forced: bool) returns (seal: bool)
      requires ctx.Some?
      modifies this`ctx
      ensures ctx == Some(seal) && seal == (old(ctx.value) || forced)
    {
      seal := ctx.value || forced;
      ctx := Some(seal);
    }

    method EndBlock(block: Block)
      requires ctx.Some?
      modifies this
      ensures ctx == None
      ensures if old(ctx.value) then votingBlock == block.index && votingTime == block.time && epoch == old(epoch) + 1
              else votingBlock == old(votingBlock) && votingTime == old(votingTime) && epoch == old(epoch)
    {
      if ctx.value {
        votingBlock, votingTime := block.index, block.time;
        epoch := epoch + 1;
      }
      ctx := None;
    }
  }

  datatype EpochStats = EpochStats(start: nat, end: nat)

  class Service {
    const config: Config
    const app: App
    /** The start of the pending epoch. */
    var pendingStart: nat
    /** The statistics of sealed epochs. */
    var stats: map<nat, EpochStats>

    constructor (config: Config, epoch: nat, genesisTime: nat)
      ensures this.config == config && fresh(app) && stats == map[]
      ensures forall ep: Epoch | ep.firstBlock == 0 && ep.start == genesisTime && ep.number == epoch :: InStep(ep)
    {
      this.config := config;
      app := new App(config, epoch, genesisTime);
      pendingStart := genesisTime;
      stats := map[];
    }

    /** Between blocks of an epoch: the last voting, the pending statistics and the epoch number
        are those of the consensus epoch, and the sealed epochs cover the time before it without gaps. */
    ghost predicate InStep(ep: Epoch)
      reads this, app
    {
      && app.config == config && app.ctx.None? && app.epoch == ep.number
      && app.votingBlock == ep.firstBlock
      && app.votingTime == ep.start && pendingStart == ep.start
      && NoGaps(ep.number, stats, pendingStart)
    }

    predicate LegacyShouldSealEpoch(block: Block, decidedFrame: nat, cheaters: seq<nat>)
      reads this
    {
      decidedFrame >= config.maxEpochBlocks || U64(block.time - pendingStart) >= config.maxEpochDuration
      || |cheaters| > 0
    }

    method UpdateEpochStats(epoch: nat, block: Block, seal: bool)
      modifies this`pendingStart, this`stats
      ensures if seal then
                stats == old(stats)[epoch := EpochStats(old(pendingStart), block.time)] && pendingStart == block.time
              else stats == old(stats) && pendingStart == old(pendingStart)
    {
      if seal {
        stats := stats[epoch := EpochStats(pendingStart, block.time)];
        pendingStart := block.time;
      }
    }

    /** Applies a block. The two answers about sealing are compared, and a difference
        would stop the node: it never occurs. */
    method ApplyBlock(x: Delivery, forced: bool, epoch: nat, ghost ep: Epoch) returns (compatible: bool, seal: bool)
      requires InStep(ep) && epoch == ep.number && x.block.index == ep.firstBlock + x.frame && x.frame < TWO_64
      modifies this, app
      ensures compatible
      ensures seal == SealRule(config, ep.start, x, forced)
      ensures !seal ==> InStep(ep)
      ensures seal ==> forall next: Epoch | Follows(ep, x, next) :: InStep(next)
      ensures stats == if seal then old(stats)[ep.number := EpochStats(ep.start, x.block.time)] else old(stats)
    {
      hide U64;
      hide NoGaps;
      U64Fits(x.frame);
      NoGapsNext(ep.number, stats, pendingStart, x.block.time);
      var legacy := LegacyShouldSealEpoch(x.block, x.frame, x.cheaters);
      app.BeginBlock(x.block, x.cheaters);
      seal := app.DeliverTxs(forced);
      UpdateEpochStats(epoch, x.block, seal);
      app.EndBlock(x.block);
      legacy := legacy || forced;
      compatible := legacy == seal;
    }
  }

  /** The statistics of consecutive sealed epochs join, the last one ending where the pending one starts. */
  predicate NoGaps(n: nat, stats: map<nat, EpochStats>, start: nat)
  {
    && (forall e | e in stats :: e < n)
    && (forall e {:trigger stats[e]} | e in stats ::
        if e + 1 < n then e + 1 in stats && stats[e].end == stats[e + 1].start else stats[e].end == start)
  }

  lemma NoGapsNext(n: nat, stats: map<nat, EpochStats>, start: nat, end: nat)
    requires NoGaps(n, stats, start)
    ensures NoGaps(n + 1, stats[n := EpochStats(start, end)], end)
  {
  }

  /** The next epoch starts after the block that sealed the last one. */
  predicate Follows(ep: Epoch, x: Delivery, next: Epoch)
  {
    next.number == ep.number + 1 && next.firstBlock == x.block.index && next.start == x.block.time
  }

  /** The block deliveries of an epoch, applied in order up to the one that seals it: the service
      never panics, seals at the first delivery the rule names and is then in step with the next epoch. */
  method ApplyEpoch(service: Service, deliveries: seq<Delivery>, forced: seq<bool>, epoch: nat,
                    ghost d: Dag, ghost ep: Epoch, ghost atropoi: seq<EventId>)
    returns (compatible: bool, sealedAt: Option<nat>)
    requires service.InStep(ep) && epoch == ep.number && AllIn(d, atropoi) && Delivered(d, ep, atropoi, deliveries)
    requires |forced| == |deliveries| < TWO_64
    modifies service, service.app
    ensures compatible
    ensures sealedAt.None? ==> service.InStep(ep)
    ensures sealedAt.None? ==> forall i | 0 <= i < |deliveries| ::
              !SealRule(service.config, ep.start, deliveries[i], forced[i])
    ensures sealedAt.Some? ==>
              var k := sealedAt.value;
              && k < |deliveries| && SealRule(service.config, ep.start, deliveries[k], forced[k])
              && (forall i | 0 <= i < k :: !SealRule(service.config, ep.start, deliveries[i], forced[i]))
              && (forall next: Epoch | Follows(ep, deliveries[k], next) :: service.InStep(next))
  {
    hide IsBlock;
    hide IsCheaterList;
    hide SealRule;
    for i := 0 to |deliveries|
      invariant service.InStep(ep)
      invariant forall j | 0 <= j < i :: !SealRule(service.config, ep.start, deliveries[j], forced[j])
    {
      DeliveryNumber(d, ep, atropoi, deliveries, i);
      var same, seal := service.ApplyBlock(deliveries[i], forced[i], epoch, ep);
      if !same {
        return false, None;
      }
      if seal {
        return true, Some(i);
      }
    }
    return true, None;
  }

  /** A delivery's block number is its frame counted from the epoch's first block. */
  lemma DeliveryNumber(d: Dag, ep: Epoch, atropoi: seq<EventId>, deliveries: seq<Delivery>, i: nat)
    requires AllIn(d, atropoi) && Delivered(d, ep, atropoi, deliveries) && i < |deliveries|
    ensures deliveries[i].frame == i + 1 && deliveries[i].block.index == ep.firstBlock + deliveries[i].frame
  {
    assert IsDelivery(d, ep, Upto(d, atropoi, i + 1), deliveries[i]);
  }

  /** The last block carries the last consensus time. */
  lemma LastDelivery(d: Dag, ep: Epoch, atropoi: seq<EventId>, deliveries: seq<Delivery>)
    requires AllIn(d, atropoi) && Delivered(d, ep, atropoi, deliveries) && deliveries != []
    ensures |Infos(d, ep.start, atropoi)| == |atropoi| == |deliveries|
    ensures var x := deliveries[|deliveries| - 1];
            && x.block.index == ep.firstBlock + |atropoi|
            && x.block.time == LastAt(ep.start, Infos(d, ep.start, atropoi), |atropoi|)
  {
    hide IsCheaterList;
    hide BlockEvents;
    var k := |deliveries|;
    assert IsDelivery(d, ep, Upto(d, atropoi, k), deliveries[k - 1]);
    assert atropoi[..k] == atropoi;
  }

  /** A sealed consensus epoch goes on exactly where the sealing block leaves the service. */
  lemma NextEpochFollows(p: Poset)
    requires p.Valid() && p.sealed && |p.frameInfos| == p.lastDecidedFrame
    ensures p.deliveries != [] && Follows(p.ep, p.deliveries[|p.deliveries| - 1], p.NextEpoch())
  {
    hide Poset.EventsOk;
    hide Poset.ElectionsOk;
    hide Store.Valid;
    hide Voting.Valid;
    hide OpenUntilLast;
    hide Delivered;
    hide Infos;
    assert p.deliveries != [];
    LastDelivery(p.d, p.ep, p.atropoi, p.deliveries);
  }

  // ---------- consensus and the service together ----------

  /** The application of the rules is the one the service asks: its state holds the last voting, it
      seals when a voting is due or forced, and only sealing counts as a voting. */
  ghost predicate Tracks(rules: Rules, config: Config, voting: nat -> (nat, nat), forced: (nat, Delivery) -> bool)
  {
    forall s: nat, x: Delivery {:trigger rules.app(s, x)} ::
      var answer := rules.app(s, x);
      && answer.seal == (VotingDue(config, voting(s), x.block, x.cheaters) || forced(s, x))
      && voting(answer.state) == if answer.seal then (x.block.index, x.block.time) else voting(s)
  }

  /** A number for a block number and a time. */
  function Packed(voting: (nat, nat)): (s: nat)
  {
    Triangle(voting.0 + voting.1) + voting.1
  }

  function Triangle(n: nat): (t: nat)
  {
    if n == 0 then 0 else Triangle(n - 1) + n
  }

  lemma {:induction false} TriangleGrows(m: nat, n: nat)
    requires m < n
    ensures Triangle(m) + m < Triangle(n)
  {
    if m + 1 < n {
      TriangleGrows(m, n - 1);
    }
  }

  lemma PackedInjective(x: (nat, nat), y: (nat, nat))
    requires Packed(x) == Packed(y)
    ensures x == y
  {
    if x.0 + x.1 < y.0 + y.1 {
      TriangleGrows(x.0 + x.1, y.0 + y.1);
    } else if y.0 + y.1 < x.0 + x.1 {
      TriangleGrows(y.0 + y.1, x.0 + x.1);
    }
  }

  ghost function Unpacked(s: nat): (voting: (nat, nat))
    ensures forall x: (nat, nat) | Packed(x) == s :: voting == x
  {
    if x: (nat, nat) :| Packed(x) == s then
      assert forall y: (nat, nat) | Packed(y) == s :: y == x by {
        forall y: (nat, nat) | Packed(y) == s
          ensures y == x
        {
          PackedInjective(x, y);
        }
      }
      x
    else (0, 0)
  }

  /** Whatever the configuration and the forced seals, there is such an application. */
  lemma TrackingExists(base: Rules, config: Config, forced: (nat, Delivery) -> bool) returns (rules: Rules)
    ensures Tracks(rules, config, Unpacked, forced)
  {
    hide Packed;
    rules := base.(app := (s: nat, x: Delivery) =>
      var seal := VotingDue(config, Unpacked(s), x.block, x.cheaters) || forced(s, x);
      Answer(if seal then Packed((x.block.index, x.block.time)) else s, 0, seal));
  }

  /** The forced seals of a run. */
  function Forced(ep: Epoch, forced: (nat, Delivery) -> bool, deliveries: seq<Delivery>): (flags: seq<bool>)
    ensures |flags| == |deliveries|
    ensures forall i | 0 <= i < |deliveries| :: flags[i] == forced(Run(ep, deliveries[..i]).state, deliveries[i])
  {
    seq(|deliveries|, i requires 0 <= i < |deliveries| => forced(Run(ep, deliveries[..i]).state, deliveries[i]))
  }

  /** While the epoch is open the application's last voting is the epoch's start. */
  lemma {:induction false} VotingIsStart(ep: Epoch, config: Config, voting: nat -> (nat, nat),
                                         forced: (nat, Delivery) -> bool, deliveries: seq<Delivery>, k: nat)
    requires Tracks(ep.rules, config, voting, forced) && voting(ep.firstState) == (ep.firstBlock, ep.start)
    requires OpenUntilLast(ep, deliveries) && k <= |deliveries|
    ensures voting(Run(ep, deliveries[..k]).state) ==
            if Run(ep, deliveries[..k]).sealed then (deliveries[k - 1].block.index, deliveries[k - 1].block.time)
            else (ep.firstBlock, ep.start)
  {
    if k > 0 {
      VotingIsStart(ep, config, voting, forced, deliveries, k - 1);
      RunStep(ep, deliveries, k);
      assert !Run(ep, deliveries[..k - 1]).sealed;
    }
  }

  lemma RunStep(ep: Epoch, deliveries: seq<Delivery>, k: nat)
    requires 0 < k <= |deliveries|
    ensures Run(ep, deliveries[..k]) == Step(ep.rules, Run(ep, deliveries[..k - 1]), deliveries[k - 1])
  {
    assert deliveries[..k][..k - 1] == deliveries[..k - 1];
  }

  /** So consensus is told to seal exactly when the rule says so. */
  lemma SealedIffRule(d: Dag, ep: Epoch, atropoi: seq<EventId>, deliveries: seq<Delivery>, config: Config,
                      voting: nat -> (nat, nat), forced: (nat, Delivery) -> bool, i: nat)
    requires Tracks(ep.rules, config, voting, forced) && voting(ep.firstState) == (ep.firstBlock, ep.start)
    requires AllIn(d, atropoi) && Delivered(d, ep, atropoi, deliveries) && OpenUntilLast(ep, deliveries)
    requires i < |deliveries| < TWO_64
    ensures Run(ep, deliveries[..i + 1]).sealed <==>
            SealRule(config, ep.start, deliveries[i], Forced(ep, forced, deliveries)[i])
  {
    hide Delivered;
    hide U64;
    hide Run;
    VotingIsStart(ep, config, voting, forced, deliveries, i);
    RunStep(ep, deliveries, i + 1);
    assert !Run(ep, deliveries[..i]).sealed;
    DeliveryNumber(d, ep, atropoi, deliveries, i);
    U64Fits(deliveries[i].frame);
  }

  /** An epoch stays open only while it is short: every delivery but one that sealed it has fewer frames than
      configured, comes before the configured duration is over, names no cheaters and was not forced. */
  lemma OpenEpochIsShort(p: Poset, config: Config, voting: nat -> (nat, nat), forced: (nat, Delivery) -> bool, i: nat)
    requires p.Valid() && i < |p.deliveries| < TWO_64
    requires Tracks(p.ep.rules, config, voting, forced)
    requires voting(p.ep.firstState) == (p.ep.firstBlock, p.ep.start)
    ensures var x := p.deliveries[i];
            var short := && i + 1 < config.maxEpochBlocks && x.cheaters == []
                         && U64(x.block.time - p.ep.start) < config.maxEpochDuration
                         && !forced(Run(p.ep, p.deliveries[..i]).state, x);
            short <==> !(p.sealed && i == |p.deliveries| - 1)
  {
    hide Poset.Valid;
    hide Tracks;
    hide Run;
    hide U64;
    hide Delivered;
    DeliveredOf(p);
    SealedIffRule(p.d, p.ep, p.atropoi, p.deliveries, config, voting, forced, i);
    DeliveryNumber(p.d, p.ep, p.atropoi, p.deliveries, i);
    if i + 1 < |p.deliveries| {
      assert !Run(p.ep, p.deliveries[..i + 1]).sealed;
    } else {
      assert p.deliveries[..i + 1] == p.deliveries;
    }
  }

  /** Driving the service with everything a node delivered in an epoch seals exactly when the node's
      epoch is sealed, by its last delivery; then both are in step with the next epoch. */
  method DriveEpoch(service: Service, deliveries: seq<Delivery>, flags: seq<bool>, epoch: nat,
                    ghost p: Poset, ghost voting: nat -> (nat, nat), ghost forced: (nat, Delivery) -> bool)
    returns (compatible: bool, sealedAt: Option<nat>)
    requires p.Valid() && service.InStep(p.ep) && epoch == p.ep.number
    requires deliveries == p.deliveries && |deliveries| < TWO_64 && flags == Forced(p.ep, forced, deliveries)
    requires Tracks(p.ep.rules, service.config, voting, forced)
             && voting(p.ep.firstState) == (p.ep.firstBlock, p.ep.start)
    modifies service, service.app
    ensures compatible
    ensures sealedAt == if p.sealed then Some(|deliveries| - 1) else None
    ensures !p.sealed ==> service.InStep(p.ep)
    ensures p.sealed ==>
              && |p.frameInfos| == p.lastDecidedFrame && service.InStep(p.NextEpoch())
              && voting(p.NextEpoch().firstState) == (p.NextEpoch().firstBlock, p.NextEpoch().start)
  {
    hide Poset.Valid;
    hide Service.InStep;
    hide SealRule;
    hide Tracks;
    hide Delivered;
    hide Run;
    hide OpenUntilLast;
    DeliveredOf(p);
    compatible, sealedAt := ApplyEpoch(service, deliveries, flags, epoch, p.d, p.ep, p.atropoi);
    SealedByLast(p.ep, service.config, p.d, p.atropoi, deliveries, voting, forced, sealedAt);
    if p.sealed {
      NextEpochFollows(p);
      VotingIsStart(p.ep, service.config, voting, forced, deliveries, |deliveries|);
      assert deliveries[..|deliveries|] == deliveries;
    }
  }

  lemma DeliveredOf(p: Poset)
    requires p.Valid()
    ensures AllIn(p.d, p.atropoi) && Delivered(p.d, p.ep, p.atropoi, p.deliveries) && OpenUntilLast(p.ep, p.deliveries)
    ensures Progress(p.appState, p.appHash, p.sealed) == Run(p.ep, p.deliveries) && |p.frameInfos| == p.lastDecidedFrame
  {
    hide Poset.EventsOk;
    hide Poset.ElectionsOk;
    hide Store.Valid;
    hide Voting.Valid;
    hide Run;
  }

  /** The first delivery the rule names, if any, is the one that sealed. */
  lemma SealedByLast(ep: Epoch, config: Config, d: Dag, atropoi: seq<EventId>, deliveries: seq<Delivery>,
                     voting: nat -> (nat, nat), forced: (nat, Delivery) -> bool, sealedAt: Option<nat>)
    requires Tracks(ep.rules, config, voting, forced) && voting(ep.firstState) == (ep.firstBlock, ep.start)
    requires AllIn(d, atropoi) && Delivered(d, ep, atropoi, deliveries) && OpenUntilLast(ep, deliveries)
             && |deliveries| < TWO_64
    requires sealedAt.None? ==>
               forall i | 0 <= i < |deliveries| ::
                 !SealRule(config, ep.start, deliveries[i], Forced(ep, forced, deliveries)[i])
    requires sealedAt.Some? ==>
               sealedAt.value < |deliveries|
               && SealRule(config, ep.start, deliveries[sealedAt.value], Forced(ep, forced, deliveries)[sealedAt.value])
    ensures sealedAt == if Run(ep, deliveries).sealed then Some(|deliveries| - 1) else None
    ensures Run(ep, deliveries).sealed ==> deliveries != []
  {
    hide SealRule;
    hide Tracks;
    hide Delivered;
    var n := |deliveries|;
    if n > 0 {
      SealedIffRule(d, ep, atropoi, deliveries, config, voting, forced, n - 1);
      assert deliveries[..n] == deliveries;
    }
    if sealedAt.Some? {
      var k := sealedAt.value;
      SealedIffRule(d, ep, atropoi, deliveries, config, voting, forced, k);
      if k + 1 < n {
        assert false;
      }
    }
  }

  /** One node's epochs, each sealed one followed by the next. */
  ghost predicate Joined(ps: seq<Poset>)
    reads ps, set i | 0 <= i < |ps| :: ps[i].index
    reads set i | 0 <= i < |ps| :: ps[i].voting
    reads set i | 0 <= i < |ps| :: ps[i].roots
  {
    && (forall i | 0 <= i < |ps| :: ps[i].Valid())
    && (forall i {:trigger ps[i].sealed} | 0 <= i < |ps| - 1 ::
          ps[i].sealed && |ps[i].frameInfos| == ps[i].lastDecidedFrame && ps[i + 1].ep == ps[i].NextEpoch())
  }

  /** Over any number of epochs the service never panics, and is in step with consensus at the end. */
  method DriveEpochs(service: Service, runs: seq<seq<Delivery>>, flags: seq<seq<bool>>, epoch: nat,
                     ghost ps: seq<Poset>, ghost voting: nat -> (nat, nat), ghost forced: (nat, Delivery) -> bool)
    returns (compatible: bool)
    requires |ps| == |runs| == |flags| > 0 && Joined(ps) && service.InStep(ps[0].ep) && epoch == ps[0].ep.number
    requires forall i | 0 <= i < |ps| ::
               runs[i] == ps[i].deliveries && |runs[i]| < TWO_64 && flags[i] == Forced(ps[i].ep, forced, runs[i])
    requires Tracks(ps[0].ep.rules, service.config, voting, forced)
             && voting(ps[0].ep.firstState) == (ps[0].ep.firstBlock, ps[0].ep.start)
    modifies service, service.app
    ensures compatible
    ensures var p := ps[|ps| - 1];
            if p.sealed then |p.frameInfos| == p.lastDecidedFrame && service.InStep(p.NextEpoch())
            else service.InStep(p.ep)
  {
    hide Poset.Valid;
    hide Service.InStep;
    hide Tracks;
    ghost var rules := ps[0].ep.rules;
    for i := 0 to |runs| - 1
      invariant Joined(ps) && service.InStep(ps[i].ep) && ps[i].ep.rules == rules && ps[i].ep.number == epoch + i
      invariant voting(ps[i].ep.firstState) == (ps[i].ep.firstBlock, ps[i].ep.start)
    {
      var same, _ := DriveEpoch(service, runs[i], flags[i], epoch + i, ps[i], voting, forced);
      if !same {
        return false;
      }
    }
    var last := |runs| - 1;
    var same, _ := DriveEpoch(service, runs[last], flags[last], epoch + last, ps[last], voting, forced);
    return same;
  }
}
