/**
 Building the block of a decided frame from the events it confirms.
 */
module Blocks {
  import opened Common
  import opened Dag
  import opened Branches
  import opened HighestBefore
  import opened ForklessCause
  import opened MergedClock
  import opened Confirmation
  import opened ConsensusTime
  import opened BlockOrder

  datatype Block = Block(index: nat, time: nat, atropos: EventId, prevHash: EventId, events: seq<EventId>)

  /** The last event of the creator that `a` observes. */
  ghost predicate LastSeen(d: Dag, a: EventId, c: nat, h: EventId)
    requires a in d
  {
    && h in Past(d, a) && h in d && d[h].creator == c
    && forall y | y in Past(d, a) && d[y].creator == c :: d[y].seqNo <= d[h].seqNo
  }

  /** How many events of its creator the Atropos observes after `x`; a cheater's events count as infinitely deep. */
  ghost predicate IsDepth(d: Dag, a: EventId, x: EventId, depth: nat)
    requires a in d && x in d
  {
    if SeesFork(d, a, d[x].creator) then depth == MAX_INT32
    else exists h :: LastSeen(d, a, d[x].creator, h) && depth == d[h].seqNo - d[x].seqNo
  }

  lemma DepthUnique(d: Dag, a: EventId, x: EventId, depth: nat, depth': nat)
    requires a in d && x in d && IsDepth(d, a, x, depth) && IsDepth(d, a, x, depth')
    ensures depth == depth'
  {}

  lemma DepthExists(d: Dag, a: EventId, x: EventId)
    requires a in d && x in Past(d, a) && !SeesFork(d, a, d[x].creator)
    ensures exists depth: nat :: IsDepth(d, a, x, depth)
  {
    hide SeesFork;
    var mine := ByCreator(d, Past(d, a), d[x].creator);
    var h, _ := Extremes(d, mine);
    assert LastSeen(d, a, d[x].creator, h);
    assert IsDepth(d, a, x, d[h].seqNo - d[x].seqNo);
  }

  /** Depths count up from a creator's last event along its self-parents, unless it was seen forking. */
  lemma DepthSteps(d: Dag, a: EventId, x: EventId, depth: nat)
    requires a in d && x in Past(d, a) && IsDepth(d, a, x, depth) && !SeesFork(d, a, d[x].creator)
    ensures depth == 0 <==> LastSeen(d, a, d[x].creator, x)
    ensures d[x].SelfParent().Some? ==>
              var p := d[x].parents[0]; p in Past(d, a) && p in d && IsDepth(d, a, p, depth + 1)
  {
    var h :| LastSeen(d, a, d[x].creator, h) && depth == d[h].seqNo - d[x].seqNo;
    if d[h].seqNo == d[x].seqNo {
      assert h != x ==> ForkPair(d, h, x);
    }
    if d[x].SelfParent().Some? {
      var p := d[x].parents[0];
      assert p in d[x].parents && d[x].IsSelfParent(p);
      PastUnfold(d, x);
      assert p in Past(d, p);
      PastTransitive(d, a, x);
    }
  }

  /** A block takes the allowed events of creators its Atropos did not see forking. */
  ghost predicate InBlock(d: Dag, allowed: (EventId, nat) -> bool, a: EventId, x: EventId)
    requires a in d && x in d
  {
    !SeesFork(d, a, d[x].creator) && exists depth: nat :: IsDepth(d, a, x, depth) && allowed(x, depth)
  }

  /** The block of the last of the given Atropoi. */
  ghost predicate IsBlock(d: Dag, allowed: (EventId, nat) -> bool, start: nat, firstBlock: nat, firstAtropos: EventId,
                          atropoi: seq<EventId>, b: Block)
    requires AllIn(d, atropoi) && atropoi != []
  {
    && b.index == firstBlock + |atropoi|
    && b.time == LastAt(start, Infos(d, start, atropoi), |atropoi|)
    && b.atropos == AllInLast(d, atropoi)
    && b.prevHash == PrevAtropos(firstAtropos, atropoi)
    && Ordered(d, b.events)
    && BlockEvents(d, allowed, atropoi, b.events)
  }

  function PrevAtropos(firstAtropos: EventId, atropoi: seq<EventId>): (a: EventId)
    requires atropoi != []
  {
    if |atropoi| == 1 then firstAtropos else atropoi[|atropoi| - 2]
  }

  lemma PrevAtroposNext(firstAtropos: EventId, atropoi: seq<EventId>, a: EventId)
    ensures PrevAtropos(firstAtropos, atropoi + [a] + [0]) == a
  {}

  ghost predicate BlockEvents(d: Dag, allowed: (EventId, nat) -> bool, atropoi: seq<EventId>, events: seq<EventId>)
    requires AllIn(d, atropoi) && atropoi != []
  {
    forall x :: x in events <==> x in NewlyConfirmed(d, atropoi) && InBlock(d, allowed, AllInLast(d, atropoi), x)
  }

  /** A run of decided Atropoi leaves no choice about the block. */
  lemma BlockUnique(d: Dag, allowed: (EventId, nat) -> bool, start: nat, firstBlock: nat, firstAtropos: EventId,
                    atropoi: seq<EventId>, b: Block, b': Block)
    requires AllIn(d, atropoi) && atropoi != []
    requires IsBlock(d, allowed, start, firstBlock, firstAtropos, atropoi, b)
    requires IsBlock(d, allowed, start, firstBlock, firstAtropos, atropoi, b')
    ensures b == b'
  {
    hide InBlock;
    hide NewlyConfirmed;
    OrderUnique(d, b.events, b'.events);
  }

  /** The validators the Atropos saw forking, in the order of the group. */
  ghost predicate IsCheaterList(d: Dag, n: nat, a: EventId, cheaters: seq<nat>)
    requires a in d
  {
    && (forall c: nat :: c in cheaters <==> c < n && SeesFork(d, a, c))
    && (forall i, j | 0 <= i < j < |cheaters| :: cheaters[i] < cheaters[j])
  }

  lemma {:induction false} CheatersUnique(d: Dag, n: nat, a: EventId, s: seq<nat>, t: seq<nat>)
    requires a in d && IsCheaterList(d, n, a, s) && IsCheaterList(d, n, a, t)
    ensures s == t
  {
    hide SeesFork;
    SortedUnique(s, t);
  }

  lemma {:induction false} SortedUnique(s: seq<nat>, t: seq<nat>)
    requires forall i, j | 0 <= i < j < |s| :: s[i] < s[j]
    requires forall i, j | 0 <= i < j < |t| :: t[i] < t[j]
    requires forall c: nat :: c in s <==> c in t
    ensures s == t
  {
    if s == [] || t == [] {
      if s != t {
        HasMember(s + t);
      }
    } else {
      LargestSame(s, t);
      var s', t' := s[..|s| - 1], t[..|t| - 1];
      forall c: nat
        ensures c in s' <==> c in t'
      {
        ButLast(s, c);
        ButLast(t, c);
      }
      SortedUnique(s', t');
      assert s == s' + [s[|s| - 1]] && t == t' + [t[|t| - 1]];
    }
  }

  lemma LargestSame(s: seq<nat>, t: seq<nat>)
    requires s != [] && t != []
    requires forall i, j | 0 <= i < j < |s| :: s[i] < s[j]
    requires forall i, j | 0 <= i < j < |t| :: t[i] < t[j]
    requires forall c: nat :: c in s <==> c in t
    ensures s[|s| - 1] == t[|t| - 1]
  {
    var x, y := s[|s| - 1], t[|t| - 1];
    assert x in s && y in t;
    var i :| 0 <= i < |t| && t[i] == x;
    var j :| 0 <= j < |s| && s[j] == y;
  }

  lemma ButLast(s: seq<nat>, c: nat)
    requires s != [] && forall i, j | 0 <= i < j < |s| :: s[i] < s[j]
    ensures c in s[..|s| - 1] <==> c in s && c != s[|s| - 1]
  {
    if c in s && c != s[|s| - 1] {
      var i :| 0 <= i < |s| && s[i] == c;
      assert s[..|s| - 1][i] == c;
    }
    if c in s[..|s| - 1] {
      var i :| 0 <= i < |s| - 1 && s[i] == c;
    }
  }

  method Cheaters(ms: seq<BranchSeq>, ghost mt: seq<nat>, ghost d: Dag, ghost a: EventId) returns (cheaters: seq<nat>)
    requires a in d && MergedExact(d, |ms|, Past(d, a), ms, mt)
    ensures IsCheaterList(d, |ms|, a, cheaters)
  {
    hide ForkIn;
    hide RangeOf;
    cheaters := [];
    for c := 0 to |ms|
      invariant IsCheaterList(d, c, a, cheaters)
    {
      ForkMark(d, Past(d, a), c, ms[c], mt[c]);
      if ms[c] == FORK_DETECTED {
        assert forall i | 0 <= i < |cheaters| :: cheaters[i] in cheaters;
        cheaters := cheaters + [c];
      }
    }
  }

  lemma ForkMark(d: Dag, ids: set<EventId>, c: nat, r: BranchSeq, t: nat)
    requires ids <= d.Keys && CreatorRange(d, ids, c, r, t)
    ensures r == FORK_DETECTED <==> ForkIn(d, ids, c)
  {}

  // ---------- the events of a block ----------

  /** The depth as confirming computes it from the merged clock. */
  function SeqDepth(top: BranchSeq, seqNo: nat): (depth: nat)
  {
    if top.high < seqNo then MAX_INT32 else top.high - seqNo
  }

  /** The merged clock gives the depth, and never contradicts the graph. */
  lemma DepthIsRight(d: Dag, n: nat, a: EventId, x: EventId, ms: seq<BranchSeq>, mt: seq<nat>)
    requires a in d && MergedExact(d, n, Past(d, a), ms, mt) && x in Past(d, a) && d[x].creator < n
    ensures ms[d[x].creator] == FORK_DETECTED <==> SeesFork(d, a, d[x].creator)
    ensures ms[d[x].creator] != FORK_DETECTED ==> d[x].seqNo <= ms[d[x].creator].high
    ensures IsDepth(d, a, x, SeqDepth(ms[d[x].creator], d[x].seqNo))
  {
    var c := d[x].creator;
    assert CreatorRange(d, Past(d, a), c, ms[c], mt[c]);
    assert WellFormedEvent(d, d[x]);
    if !SeesFork(d, a, c) {
      assert x in ByCreator(d, Past(d, a), c);
      var h :| h in ByCreator(d, Past(d, a), c) && d[h].seqNo == ms[c].high;
      assert forall y | y in Past(d, a) && d[y].creator == c :: y in ByCreator(d, Past(d, a), c);
      assert LastSeen(d, a, c, h);
    }
  }

  ghost predicate IsHighest(d: Dag, ids: seq<EventId>, h: nat)
    requires AllIn(d, ids)
  {
    && (ids == [] ==> h == 0)
    && (forall x | x in ids :: d[x].lamport <= h)
    && (ids != [] ==> exists x | x in ids :: d[x].lamport == h)
  }

  ghost predicate IsLowest(d: Dag, ids: seq<EventId>, l: nat)
    requires AllIn(d, ids)
  {
    && (ids == [] ==> l == 0)
    && (forall x | x in ids :: l <= d[x].lamport)
    && (ids != [] ==> exists x | x in ids :: d[x].lamport == l)
  }

  lemma ExtremesAre(d: Dag, ids: set<EventId>, list: seq<EventId>, h: nat, l: nat)
    requires ids <= d.Keys && ListOf(list, ids) && AllIn(d, list) && IsHighest(d, list, h) && IsLowest(d, list, l)
    ensures h == Highest(d, ids) && l == Lowest(d, ids)
  {
    if list == [] {
      assert ids == {};
    } else {
      var x :| x in list && d[x].lamport == h;
      var y :| y in list && d[y].lamport == l;
      assert x in ids && y in ids;
      var x' :| x' in ids && d[x'].lamport == Highest(d, ids);
      var y' :| y' in ids && d[y'].lamport == Lowest(d, ids);
      assert x' in list && y' in list;
    }
  }

  lemma ExtremesNext(d: Dag, list: seq<EventId>, x: EventId, h: nat, l: nat)
    requires AllIn(d, list) && x in d && IsHighest(d, list, h) && IsLowest(d, list, l)
    ensures AllIn(d, list + [x])
    ensures IsHighest(d, list + [x], if h == 0 || h < d[x].lamport then d[x].lamport else h)
    ensures IsLowest(d, list + [x], if l == 0 || l > d[x].lamport then d[x].lamport else l)
  {
    var more := list + [x];
    assert more[|list|] == x && x in more;
    assert WellFormedEvent(d, d[x]);
    if list != [] {
      var y :| y in list && d[y].lamport == l;
      assert y in more && WellFormedEvent(d, d[y]);
      var z :| z in list && d[z].lamport == h;
      assert z in more;
    }
  }

  /** Which of the walked events enter the block. */
  ghost predicate Picked(d: Dag, allowed: (EventId, nat) -> bool, a: EventId, walked: seq<EventId>,
                         picked: seq<EventId>)
    requires a in d && AllIn(d, walked)
  {
    && (forall x :: x in picked <==> x in walked && InBlock(d, allowed, a, x))
    && (forall i, j | 0 <= i < j < |picked| :: picked[i] != picked[j])
  }

  lemma PickedNext(d: Dag, allowed: (EventId, nat) -> bool, a: EventId, walked: seq<EventId>, picked: seq<EventId>,
                   x: EventId)
    requires a in d && AllIn(d, walked) && Picked(d, allowed, a, walked, picked) && x in d && x !in walked
    requires AllIn(d, walked + [x])
    ensures InBlock(d, allowed, a, x) ==> Picked(d, allowed, a, walked + [x], picked + [x])
    ensures !InBlock(d, allowed, a, x) ==> Picked(d, allowed, a, walked + [x], picked)
  {
    hide InBlock;
    assert forall i | 0 <= i < |picked| :: picked[i] in picked;
  }

  lemma InBlockIff(d: Dag, allowed: (EventId, nat) -> bool, a: EventId, x: EventId, depth: nat)
    requires a in d && x in d && IsDepth(d, a, x, depth)
    ensures InBlock(d, allowed, a, x) <==> !SeesFork(d, a, d[x].creator) && allowed(x, depth)
  {
    hide SeesFork;
    hide IsDepth;
    if k: nat :| IsDepth(d, a, x, k) && allowed(x, k) {
      DepthUnique(d, a, x, depth, k);
    }
  }

  /** What confirming reports of each event, in the order of the walk: the event and its depth. */
  ghost predicate Reported(d: Dag, a: EventId, walked: seq<EventId>, depths: seq<nat>)
    requires a in d && AllIn(d, walked)
  {
    |depths| == |walked| && forall i {:trigger depths[i]} | 0 <= i < |walked| ::
      walked[i] in d && IsDepth(d, a, walked[i], depths[i])
  }

  lemma ReportedNext(d: Dag, a: EventId, walked: seq<EventId>, depths: seq<nat>, x: EventId, depth: nat)
    requires a in d && AllIn(d, walked) && Reported(d, a, walked, depths) && x in d && IsDepth(d, a, x, depth)
    ensures AllIn(d, walked + [x]) && Reported(d, a, walked + [x], depths + [depth])
  {
    hide IsDepth;
  }

  lemma NotBefore(walked: seq<EventId>, i: nat)
    requires i < |walked| && forall i, j | 0 <= i < j < |walked| :: walked[i] != walked[j]
    ensures walked[i] in walked && walked[i] !in walked[..i]
  {}

  /** One confirmed event after the other: tracks the Lamport range, reports depths and picks the block's events. */
  method CollectEvents(walked: seq<EventId>, headers: map<EventId, Event>, ms: seq<BranchSeq>,
                       allowed: (EventId, nat) -> bool, ghost mt: seq<nat>, ghost d: Dag, ghost a: EventId)
    returns (picked: seq<EventId>, depths: seq<nat>, highest: nat, lowest: nat)
    requires a in d && AllIn(d, walked) && MergedExact(d, |ms|, Past(d, a), ms, mt)
    requires forall x | x in walked :: x in Past(d, a) && x in headers && headers[x] == d[x] && d[x].creator < |ms|
    requires forall i, j | 0 <= i < j < |walked| :: walked[i] != walked[j]
    ensures Picked(d, allowed, a, walked, picked)
    ensures Reported(d, a, walked, depths)
    ensures IsHighest(d, walked, highest) && IsLowest(d, walked, lowest)
  {
    hide MergedExact;
    hide InBlock;
    hide IsDepth;
    hide SeesFork;
    hide IsHighest;
    hide IsLowest;
    hide Picked;
    hide Reported;
    picked, depths, highest, lowest := [], [], 0, 0;
    NothingWalked(d, allowed, a);
    for i := 0 to |walked|
      invariant AllIn(d, walked[..i])
      invariant Picked(d, allowed, a, walked[..i], picked)
      invariant Reported(d, a, walked[..i], depths)
      invariant IsHighest(d, walked[..i], highest) && IsLowest(d, walked[..i], lowest)
    {
      var x := walked[i];
      NotBefore(walked, i);
      var h := headers[x];
      ExtremesNext(d, walked[..i], x, highest, lowest);
      TakeSnoc(walked, i);
      if highest == 0 || highest < h.lamport {
        highest := h.lamport;
      }
      if lowest == 0 || lowest > h.lamport {
        lowest := h.lamport;
      }
      var top := ms[h.creator];
      var fromCheater := top == FORK_DETECTED;
      var depth := SeqDepth(top, h.seqNo);
      DepthIsRight(d, |ms|, a, x, ms, mt);
      InBlockIff(d, allowed, a, x, depth);
      PickedNext(d, allowed, a, walked[..i], picked, x);
      if !fromCheater && allowed(x, depth) {
        picked := picked + [x];
      }
      // the graph is never inconsistent with the vector clock
      assert fromCheater || h.seqNo <= top.high;
      ReportedNext(d, a, walked[..i], depths, x, depth);
      depths := depths + [depth];
    }
    TakeAll(walked);
  }

  lemma NothingWalked(d: Dag, allowed: (EventId, nat) -> bool, a: EventId)
    requires a in d
    ensures AllIn(d, []) && Picked(d, allowed, a, [], []) && Reported(d, a, [], []) && IsHighest(d, [], 0)
            && IsLowest(d, [], 0)
  {}
}
