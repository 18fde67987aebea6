/**
 What consensus hands to the application: one block per decided frame, until the application
 seals the epoch.
 */
module Application {
  import opened Dag
  import opened ForklessCause
  import opened Confirmation
  import opened ConsensusTime
  import opened Blocks

  datatype Delivery = Delivery(block: Block, frame: nat, cheaters: seq<nat>)

  /** What the application makes of a delivery: its next state, a hash of the result, and whether the epoch is over. */
  datatype Answer = Answer(state: nat, appHash: nat, seal: bool)

  /** The state a sealed epoch leaves behind. First events of the next epoch commit to its hash. */
  datatype GenesisState = GenesisState(epoch: nat, time: nat, lastAtropos: EventId, appHash: nat)

  /** What all nodes share: the application, which events it allows into blocks, how it selects the
      validators of an epoch, and the hash functions. */
  datatype Rules = Rules(
    allowed: (EventId, nat) -> bool,
    app: (nat, Delivery) -> Answer,
    select: (nat, nat) -> seq<nat>,
    chainHash: (nat, nat) -> nat,
    stateHash: GenesisState -> nat)

  /** One epoch: its validators, what the previous one left behind, its last block, and the application's state. */
  datatype Epoch = Epoch(rules: Rules, stakes: seq<nat>, prev: GenesisState, firstBlock: nat, firstState: nat)
  {
    const number: nat := prev.epoch + 1
    const start: nat := prev.time
    const firstAtropos: EventId := prev.lastAtropos
    const allowed: (EventId, nat) -> bool := rules.allowed
    const prevHash: nat := rules.stateHash(prev)
  }

  /** How far the application is: its state, the chained hash of its results, and whether it sealed the epoch. */
  datatype Progress = Progress(state: nat, appHash: nat, sealed: bool)

  function Step(rules: Rules, before: Progress, x: Delivery): (after: Progress)
  {
    var answer := rules.app(before.state, x);
    Progress(answer.state, rules.chainHash(before.appHash, answer.appHash), answer.seal)
  }

  function Run(ep: Epoch, deliveries: seq<Delivery>): (r: Progress)
  {
    if deliveries == [] then Progress(ep.firstState, ep.prev.appHash, false)
    else Step(ep.rules, Run(ep, deliveries[..|deliveries| - 1]), deliveries[|deliveries| - 1])
  }

  /** Every delivery but the last left the epoch open. */
  ghost predicate OpenUntilLast(ep: Epoch, deliveries: seq<Delivery>)
  {
    forall k {:trigger deliveries[..k]} | 0 <= k < |deliveries| :: !Run(ep, deliveries[..k]).sealed
  }

  lemma RunNext(ep: Epoch, deliveries: seq<Delivery>, x: Delivery)
    requires OpenUntilLast(ep, deliveries) && !Run(ep, deliveries).sealed
    ensures Run(ep, deliveries + [x]) == Step(ep.rules, Run(ep, deliveries), x)
    ensures OpenUntilLast(ep, deliveries + [x])
  {
    var more := deliveries + [x];
    assert more[..|deliveries|] == deliveries;
    forall k | 0 <= k < |more|
      ensures !Run(ep, more[..k]).sealed
    {
      assert more[..k] == deliveries[..k];
      if k == |deliveries| {
        assert deliveries[..k] == deliveries;
      }
    }
  }

  function Upto(d: map<EventId, Event>, atropoi: seq<EventId>, k: nat): (some: seq<EventId>)
    requires AllIn(d, atropoi) && k <= |atropoi|
    ensures AllIn(d, some) && some == atropoi[..k]
  {
    assert forall x | x in atropoi[..k] :: x in atropoi;
    atropoi[..k]
  }

  /** The delivery for the last of the given Atropoi. */
  ghost predicate IsDelivery(d: Dag, ep: Epoch, atropoi: seq<EventId>, x: Delivery)
    requires AllIn(d, atropoi) && atropoi != []
  {
    && x.frame == |atropoi|
    && IsBlock(d, ep.allowed, ep.start, ep.firstBlock, ep.firstAtropos, atropoi, x.block)
    && atropoi[|atropoi| - 1] in d && IsCheaterList(d, |ep.stakes|, atropoi[|atropoi| - 1], x.cheaters)
  }

  ghost predicate Delivered(d: Dag, ep: Epoch, atropoi: seq<EventId>, deliveries: seq<Delivery>)
    requires AllIn(d, atropoi)
  {
    && |deliveries| == |atropoi|
    && forall i {:trigger deliveries[i]} | 0 <= i < |deliveries| ::
         IsDelivery(d, ep, Upto(d, atropoi, i + 1), deliveries[i])
  }

  lemma DeliveredNext(d: Dag, ep: Epoch, atropoi: seq<EventId>, deliveries: seq<Delivery>, a: EventId, x: Delivery)
    requires AllIn(d, atropoi) && Delivered(d, ep, atropoi, deliveries)
    requires a in d && AllIn(d, atropoi + [a]) && IsDelivery(d, ep, atropoi + [a], x)
    ensures Delivered(d, ep, atropoi + [a], deliveries + [x])
  {
    hide IsDelivery;
    var more := atropoi + [a];
    forall i | 0 <= i < |deliveries| + 1
      ensures IsDelivery(d, ep, Upto(d, more, i + 1), (deliveries + [x])[i])
    {
      if i < |deliveries| {
        assert more[..i + 1] == atropoi[..i + 1];
        assert IsDelivery(d, ep, Upto(d, atropoi, i + 1), deliveries[i]);
      } else {
        assert more[..i + 1] == more;
      }
    }
  }

  /** Blocks form a chain: each carries its Atropos, the one of the block before, and the next number. */
  lemma BlocksChain(d: Dag, ep: Epoch, atropoi: seq<EventId>, deliveries: seq<Delivery>, i: nat)
    requires AllIn(d, atropoi) && Delivered(d, ep, atropoi, deliveries) && i < |deliveries|
    ensures var b := deliveries[i].block;
            && b.atropos == atropoi[i] && b.index == ep.firstBlock + i + 1
            && b.prevHash == (if i == 0 then ep.firstAtropos else deliveries[i - 1].block.atropos)
  {
    hide BlockEvents;
    hide IsCheaterList;
    assert IsDelivery(d, ep, Upto(d, atropoi, i + 1), deliveries[i]);
    if i > 0 {
      assert IsDelivery(d, ep, Upto(d, atropoi, i), deliveries[i - 1]);
    }
  }

  /** What a delivery says of an event its frame confirms: a block holds nothing by the cheaters delivered with
      it, and of the other validators everything that is allowed at any depth. */
  lemma BlockWithoutCheaters(d: Dag, ep: Epoch, atropoi: seq<EventId>, x: Delivery, e: EventId)
    requires AllIn(d, atropoi) && atropoi != [] && IsDelivery(d, ep, atropoi, x)
    requires e in NewlyConfirmed(d, atropoi) && e in d && d[e].creator < |ep.stakes|
    ensures d[e].creator in x.cheaters ==> e !in x.block.events
    ensures d[e].creator !in x.cheaters && (forall depth: nat :: ep.allowed(e, depth)) ==> e in x.block.events
    ensures (forall depth: nat :: !ep.allowed(e, depth)) ==> e !in x.block.events
  {
    hide SeesFork;
    var a := AllInLast(d, atropoi);
    assert InBlock(d, ep.allowed, a, e) <==> e in x.block.events;
    if !SeesFork(d, a, d[e].creator) {
      DepthExists(d, a, e);
    }
  }

  lemma DeliveryUnique(d: Dag, ep: Epoch, atropoi: seq<EventId>, x: Delivery, y: Delivery)
    requires AllIn(d, atropoi) && atropoi != [] && IsDelivery(d, ep, atropoi, x) && IsDelivery(d, ep, atropoi, y)
    ensures x == y
  {
    hide IsBlock;
    hide IsCheaterList;
    BlockUnique(d, ep.allowed, ep.start, ep.firstBlock, ep.firstAtropos, atropoi, x.block, y.block);
    CheatersUnique(d, |ep.stakes|, atropoi[|atropoi| - 1], x.cheaters, y.cheaters);
  }

  /** Nodes whose decided Atropoi agree delivered the same blocks. */
  lemma DeliveriesAgree(d: Dag, ep: Epoch, atropoi: seq<EventId>, xs: seq<Delivery>, atropoi': seq<EventId>,
                        ys: seq<Delivery>)
    requires AllIn(d, atropoi) && AllIn(d, atropoi') && atropoi <= atropoi'
    requires Delivered(d, ep, atropoi, xs) && Delivered(d, ep, atropoi', ys)
    ensures xs <= ys
  {
    hide IsDelivery;
    forall i | 0 <= i < |xs|
      ensures xs[i] == ys[i]
    {
      assert atropoi[..i + 1] == atropoi'[..i + 1];
      assert IsDelivery(d, ep, Upto(d, atropoi, i + 1), xs[i]) && IsDelivery(d, ep, Upto(d, atropoi', i + 1), ys[i]);
      DeliveryUnique(d, ep, Upto(d, atropoi, i + 1), xs[i], ys[i]);
    }
  }

  /** An application that sealed the epoch for one node leaves nothing more to decide for another. */
  lemma SealingAgrees(ep: Epoch, xs: seq<Delivery>, ys: seq<Delivery>)
    requires xs <= ys && OpenUntilLast(ep, ys) && Run(ep, xs).sealed
    ensures xs == ys
  {
    assert ys[..|xs|] == xs;
  }
}
