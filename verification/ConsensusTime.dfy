/**
 Consensus time: every decided frame spreads the time since the previous frame evenly over
 the Lamport times of the events it confirms.
 */
module ConsensusTime {
  import opened Common
  import opened Dag
  import opened Confirmation
  import opened Wrapping

  /** The stored line of a frame: time = lamport * ratio + offset, in 64-bit arithmetic. */
  datatype FrameInfo = FrameInfo(timeOffset: int, timeRatio: nat, lastConsensusTime: nat)
  {
    /** The consensus time of an event with the given Lamport time. */
    function CalcConsensusTime(lamport: nat): (t: nat)
    {
      U64(I64(I64(lamport * I64(timeRatio)) + timeOffset))
    }
  }

  // ---------- storing a frame's line ----------

  /** The offset may be negative; it is shifted before it is stored as unsigned. */
  function EncodeOffset(offset: int): (stored: nat)
  {
    U64(I64(offset + MAX_INT64 / 2))
  }

  function DecodeOffset(stored: nat): (offset: int)
  {
    I64(I64(stored) - MAX_INT64 / 2)
  }

  /** Storing and loading any 64-bit offset gives it back, wrapped or not. */
  lemma OffsetRoundTrip(offset: int)
    requires -TWO_63 <= offset < TWO_63
    ensures DecodeOffset(EncodeOffset(offset)) == offset
  {
    var half := MAX_INT64 / 2;
    var m := EncodeOffset(offset);
    WrapSigned(offset + half);
    WrapUnsigned(I64(offset + half));
    SameBitsTrans(m, I64(offset + half), offset + half);
    WrapSigned(m);
    SameBitsTrans(I64(m), m, offset + half);
    assert Apart(half, half, 0);
    SameBitsAdd(I64(m), offset + half, half, half);
    WrapSigned(I64(m) - half);
    SameBitsTrans(DecodeOffset(m), I64(m) - half, offset);
    SameBitsEqualSigned(DecodeOffset(m), offset);
  }

  /** What is stored is the offset plus half of the largest integer, as long as that does not wrap. */
  lemma OffsetStored(offset: int)
    requires -(MAX_INT64 / 2) <= offset < TWO_63 - MAX_INT64 / 2
    ensures EncodeOffset(offset) == offset + MAX_INT64 / 2
  {}

  // ---------- the line of a new frame ----------

  function Max(a: nat, b: nat): (m: nat)
  {
    if a > b then a else b
  }

  /** The number of Lamport steps of a frame, in 32-bit arithmetic and at least 1. */
  function LamportPeriod(highest: nat, lowest: nat): (p: nat)
    ensures p >= 1
  {
    Max((highest - lowest + 1) % TWO_32, 1)
  }

  /** The time between Lamport steps: the time since the last frame spread over them, at least 1. */
  function TimeRatio(last: nat, median: nat, period: nat): (ratio: nat)
    requires period >= 1
    ensures ratio >= 1
  {
    var framePeriod := if last > median then 1 else Max(median - last, 1);
    Max(framePeriod / period, 1)
  }

  function FareTimestamps(last: nat, median: nat, highest: nat, lowest: nat): (info: FrameInfo)
  {
    var ratio := TimeRatio(last, median, LamportPeriod(highest, lowest));
    var lowestTime := U64(last + ratio);
    var offset := I64(I64(lowestTime) - I64(lowest * I64(ratio)));
    FrameInfo(offset, ratio, U64(I64(I64(highest * I64(ratio)) + offset)))
  }

  /** What the line means without wrap-around. */
  function TrueTime(last: nat, ratio: nat, lowest: nat, lamport: nat): (t: int)
  {
    last + ratio + (lamport - lowest) * ratio
  }

  /** The stored line gives the true time modulo 2^64, even if the offset itself wrapped. */
  lemma LineIsTrue(last: nat, median: nat, highest: nat, lowest: nat, lamport: nat)
    ensures var info := FareTimestamps(last, median, highest, lowest);
            && info.CalcConsensusTime(lamport) == U64(TrueTime(last, info.timeRatio, lowest, lamport))
            && info.lastConsensusTime == info.CalcConsensusTime(highest)
  {
    var info := FareTimestamps(last, median, highest, lowest);
    var r := info.timeRatio;
    WrappedProduct(lowest, r);
    WrappedProduct(lamport, r);
    var low := U64(last + r);
    WrapUnsigned(last + r);
    WrapSigned(low);
    SameBitsTrans(I64(low), low, last + r);
    var diff := I64(low) - I64(lowest * I64(r));
    SameBitsAdd(I64(low), last + r, I64(lowest * I64(r)), lowest * r);
    WrapSigned(diff);
    SameBitsTrans(info.timeOffset, diff, last + r - lowest * r);
    SameBitsAdd(I64(lamport * I64(r)), lamport * r, info.timeOffset, last + r - lowest * r);
    assert lamport * r + (last + r - lowest * r) == TrueTime(last, r, lowest, lamport) by {
      Distribute(lamport, lowest, r);
    }
    SameBitsUnsigned(I64(lamport * I64(r)) + info.timeOffset, TrueTime(last, r, lowest, lamport));
  }

  lemma WrappedProduct(a: int, r: int)
    ensures SameBits(I64(a * I64(r)), a * r)
  {
    WrapSigned(r);
    SameBitsScale(a, I64(r), r);
    WrapSigned(a * I64(r));
    SameBitsTrans(I64(a * I64(r)), a * I64(r), a * r);
  }

  /** The Lamport times a frame can have: 32 bits wide, none below 1 unless the frame confirms nothing. */
  predicate LamportRange(highest: nat, lowest: nat)
  {
    highest < TWO_32 && ((highest == 0 && lowest == 0) || 1 <= lowest <= highest)
  }

  lemma PeriodIsExact(highest: nat, lowest: nat)
    requires LamportRange(highest, lowest)
    ensures LamportPeriod(highest, lowest) == highest - lowest + 1
  {}

  /** A frame never lasts longer than to the Atropos' median time, or one unit per Lamport step. */
  lemma FrameLength(last: nat, median: nat, period: nat)
    requires period >= 1
    ensures var ratio := TimeRatio(last, median, period);
            && last + ratio * period <= Max(median, last + period)
            && ratio * period >= period
  {
    var framePeriod := if last > median then 1 else Max(median - last, 1);
    var ratio := TimeRatio(last, median, period);
    Division(framePeriod, period);
    if framePeriod / period >= 1 {
      assert ratio * period <= framePeriod;
    } else {
      assert ratio == 1;
    }
    MulAtLeast(ratio, period);
  }

  /** While it has room for its Lamport steps a frame ends less than those before the median time, and
      otherwise it takes one unit per step. */
  lemma FrameFillsTime(last: nat, median: nat, period: nat)
    requires period >= 1
    ensures var end := last + TimeRatio(last, median, period) * period;
            && (last + period <= median ==> median - period < end <= median)
            && (last + period > median ==> end == last + period)
  {
    if last + period <= median {
      var q := (median - last) / period;
      Division(median - last, period);
      AtLeastOnce(median - last, period);
      assert TimeRatio(last, median, period) == q;
    } else if last < median {
      SmallerQuotient(median - last, period);
      assert TimeRatio(last, median, period) == 1;
    } else {
      SmallerQuotient(1, period);
      assert TimeRatio(last, median, period) == 1;
    }
  }

  lemma AtLeastOnce(x: nat, n: nat)
    requires 1 <= n <= x
    ensures x / n >= 1
  {}

  lemma SmallerQuotient(x: nat, n: nat)
    requires n >= 1 && (x < n || x == 1)
    ensures x / n <= 1
  {}

  lemma MulAtLeast(a: nat, b: nat)
    requires a >= 1
    ensures a * b >= b
  {}

  /** The last time of a frame without wrap-around, and its bound. */
  lemma LastTime(last: nat, median: nat, highest: nat, lowest: nat)
    requires LamportRange(highest, lowest)
    ensures var p := LamportPeriod(highest, lowest);
            var info := FareTimestamps(last, median, highest, lowest);
            && info.lastConsensusTime == U64(last + info.timeRatio * p)
            && last + info.timeRatio * p <= Max(median, last + p)
            && last + p <= last + info.timeRatio * p
  {
    hide U64;
    hide I64;
    hide LamportPeriod;
    hide TimeRatio;
    var p := LamportPeriod(highest, lowest);
    var r := FareTimestamps(last, median, highest, lowest).timeRatio;
    PeriodIsExact(highest, lowest);
    LineIsTrue(last, median, highest, lowest, highest);
    FrameLength(last, median, p);
    StepsAreTrue(last, r, lowest, highest, p);
  }

  lemma StepsAreTrue(last: nat, r: nat, lowest: nat, lamport: nat, p: int)
    requires p == lamport - lowest + 1
    ensures TrueTime(last, r, lowest, lamport) == last + r * p
  {
    Distribute(p, 1, r);
  }

  lemma WrapOnce(t: nat)
    requires TWO_64 <= t < 2 * TWO_64
    ensures U64(t) == t - TWO_64
  {}

  /** Block times strictly increase at a frame exactly when the previous time plus the frame's
      Lamport steps still fits 64 bits. If that sum is not past the median, the new time is less than
      the steps before the median, and otherwise it is the sum. */
  lemma TimeIncreasesIff(last: nat, median: nat, highest: nat, lowest: nat)
    requires LamportRange(highest, lowest) && last < TWO_64 && median < TWO_64
    ensures var info := FareTimestamps(last, median, highest, lowest);
            var p := LamportPeriod(highest, lowest);
            && (info.lastConsensusTime > last <==> last + p < TWO_64)
            && (last + p < TWO_64 ==> info.lastConsensusTime <= Max(median, last + p))
            && (last + p <= median ==> median - p < info.lastConsensusTime <= median)
            && (median < last + p < TWO_64 ==> info.lastConsensusTime == last + p)
  {
    var p := LamportPeriod(highest, lowest);
    var r := FareTimestamps(last, median, highest, lowest).timeRatio;
    LastTime(last, median, highest, lowest);
    FrameFillsTime(last, median, p);
    PeriodIsExact(highest, lowest);
    var t := last + r * p;
    if last + p < TWO_64 {
      U64Fits(t);
    } else {
      assert t == last + p;
      WrapOnce(t);
    }
  }

  // ---------- whole runs ----------

  /** The highest Lamport time of the events, 0 for none. */
  ghost function Highest(d: Dag, ids: set<EventId>): (h: nat)
    requires ids <= d.Keys
    ensures forall x | x in ids :: d[x].lamport <= h
    ensures ids == {} ==> h == 0
    ensures ids != {} ==> exists x | x in ids :: d[x].lamport == h
  {
    if ids == {} then 0
    else
      var x :| x in ids;
      var rest := Highest(d, ids - {x});
      assert ids == ids - {x} + {x};
      Max(d[x].lamport, rest)
  }

  /** The lowest Lamport time of the events, 0 for none. */
  ghost function Lowest(d: Dag, ids: set<EventId>): (l: nat)
    requires ids <= d.Keys
    ensures forall x | x in ids :: l <= d[x].lamport
    ensures ids == {} ==> l == 0
    ensures ids != {} ==> exists x | x in ids :: d[x].lamport == l
  {
    if ids == {} then 0
    else
      var x :| x in ids;
      var rest := Lowest(d, ids - {x});
      assert ids == ids - {x} + {x};
      if ids - {x} == {} then d[x].lamport else if d[x].lamport < rest then d[x].lamport else rest
  }

  /** The last time after the first `k` frames; `start` is the time of the previous epoch. */
  function LastAt(start: nat, infos: seq<FrameInfo>, k: nat): (t: nat)
    requires k <= |infos|
  {
    if k == 0 then start else infos[k - 1].lastConsensusTime
  }

  /** The lines of frames 1, 2, ... for a run of decided Atropoi. */
  ghost function Infos(d: Dag, start: nat, atropoi: seq<EventId>): (infos: seq<FrameInfo>)
    requires AllIn(d, atropoi)
    ensures |infos| == |atropoi|
  {
    if atropoi == [] then []
    else
      var before := Infos(d, start, Earlier(d, atropoi));
      before + [NextInfo(d, LastAt(start, before, |before|), atropoi)]
  }

  /** The line of the last Atropos, from the time of the frame before. */
  ghost function NextInfo(d: Dag, last: nat, atropoi: seq<EventId>): (info: FrameInfo)
    requires AllIn(d, atropoi) && atropoi != []
  {
    var ids := NewlyConfirmed(d, atropoi);
    FareTimestamps(last, d[AllInLast(d, atropoi)].medianTime, Highest(d, ids), Lowest(d, ids))
  }

  function AllInLast(d: map<EventId, Event>, atropoi: seq<EventId>): (a: EventId)
    requires AllIn(d, atropoi) && atropoi != []
    ensures a in d && a == atropoi[|atropoi| - 1]
  {
    assert atropoi[|atropoi| - 1] in atropoi;
    atropoi[|atropoi| - 1]
  }

  /** Header fields have their widths. */
  ghost predicate FieldsFit(d: Dag)
  {
    forall x {:trigger d[x]} | x in d :: d[x].lamport < TWO_32 && d[x].medianTime < TWO_64
  }

  /** No frame of the run starts so late that its Lamport steps do not fit. */
  ghost predicate NoOverflow(d: Dag, start: nat, atropoi: seq<EventId>)
    requires AllIn(d, atropoi)
  {
    if atropoi == [] then start < TWO_64
    else
      var before := Infos(d, start, Earlier(d, atropoi));
      var ids := NewlyConfirmed(d, atropoi);
      && NoOverflow(d, start, Earlier(d, atropoi))
      && LastAt(start, before, |before|) + LamportPeriod(Highest(d, ids), Lowest(d, ids)) < TWO_64
  }

  lemma RangeOfConfirmed(d: Dag, ids: set<EventId>)
    requires ids <= d.Keys && FieldsFit(d)
    ensures LamportRange(Highest(d, ids), Lowest(d, ids))
  {
    if ids != {} {
      var x :| x in ids && d[x].lamport == Highest(d, ids);
      var y :| y in ids && d[y].lamport == Lowest(d, ids);
      assert WellFormedEvent(d, d[y]);
    }
  }

  lemma LastFits(d: Dag, start: nat, atropoi: seq<EventId>)
    requires AllIn(d, atropoi) && NoOverflow(d, start, atropoi)
    ensures LastAt(start, Infos(d, start, atropoi), |atropoi|) < TWO_64
  {}

  /** The times the last frame of a run gives: within the frame, and rising with Lamport time. */
  lemma LastFrameTimes(d: Dag, start: nat, atropoi: seq<EventId>, x: EventId)
    requires AllIn(d, atropoi) && atropoi != [] && FieldsFit(d) && NoOverflow(d, start, atropoi)
    requires x in NewlyConfirmed(d, atropoi)
    ensures var infos := Infos(d, start, atropoi);
            var k := |atropoi| - 1;
            var lo := Lowest(d, NewlyConfirmed(d, atropoi));
            && infos[k].CalcConsensusTime(d[x].lamport) ==
                 TrueTime(LastAt(start, infos, k), infos[k].timeRatio, lo, d[x].lamport)
            && LastAt(start, infos, k) < infos[k].CalcConsensusTime(d[x].lamport) <= LastAt(start, infos, k + 1)
  {
    hide U64;
    hide I64;
    hide FareTimestamps;
    hide LamportPeriod;
    var init := Earlier(d, atropoi);
    var before := Infos(d, start, init);
    var last := LastAt(start, before, |before|);
    var ids := NewlyConfirmed(d, atropoi);
    RangeOfConfirmed(d, ids);
    LastFits(d, start, init);
    FrameTimes(last, d[AllInLast(d, atropoi)].medianTime, Highest(d, ids), Lowest(d, ids), d[x].lamport);
  }

  lemma FrameTimes(last: nat, median: nat, highest: nat, lowest: nat, lamport: nat)
    requires LamportRange(highest, lowest) && last < TWO_64 && median < TWO_64
    requires 1 <= lowest <= lamport <= highest && last + LamportPeriod(highest, lowest) < TWO_64
    ensures var info := FareTimestamps(last, median, highest, lowest);
            && info.CalcConsensusTime(lamport) == TrueTime(last, info.timeRatio, lowest, lamport)
            && last < info.CalcConsensusTime(lamport) <= info.lastConsensusTime
  {
    hide U64;
    hide I64;
    hide LamportPeriod;
    var info := FareTimestamps(last, median, highest, lowest);
    var r, p := info.timeRatio, LamportPeriod(highest, lowest);
    PeriodIsExact(highest, lowest);
    LineIsTrue(last, median, highest, lowest, lamport);
    LastTime(last, median, highest, lowest);
    StepsAreTrue(last, r, lowest, lamport, lamport - lowest + 1);
    MulMonotone(r, lamport - lowest + 1, p);
    MulMonotone(r, 1, lamport - lowest + 1);
    U64Fits(last + r * p);
    U64Fits(TrueTime(last, r, lowest, lamport));
  }

  /** The consensus time of a confirmed event, read off the tables. */
  function EventTime(d: map<EventId, Event>, on: map<EventId, nat>, infos: seq<FrameInfo>, x: EventId): (t: nat)
    requires x in d && x in on && 1 <= on[x] <= |infos|
  {
    infos[on[x] - 1].CalcConsensusTime(d[x].lamport)
  }

  /** The time of an event as a run of decisions fixes it. */
  ghost function TimeOf(d: Dag, start: nat, atropoi: seq<EventId>, x: EventId): (t: nat)
    requires AllIn(d, atropoi) && x in ConfirmedBy(d, atropoi)
  {
    ConfirmedInRange(d, atropoi, x);
    EventTime(d, ConfirmedBy(d, atropoi), Infos(d, start, atropoi), x)
  }

  /** An event confirmed before the last decision keeps its frame and its time. */
  lemma TimeIsKept(d: Dag, start: nat, atropoi: seq<EventId>, x: EventId)
    requires AllIn(d, atropoi) && atropoi != [] && x in ConfirmedBy(d, Earlier(d, atropoi))
    ensures x in ConfirmedBy(d, atropoi)
    ensures ConfirmedBy(d, atropoi)[x] == ConfirmedBy(d, Earlier(d, atropoi))[x]
    ensures TimeOf(d, start, atropoi, x) == TimeOf(d, start, Earlier(d, atropoi), x)
  {
    hide ConfirmedBy;
    hide Infos;
    hide FrameInfo.CalcConsensusTime;
    hide Past;
    hide NewlyConfirmed;
    hide AllIn;
    hide Earlier;
    ConfirmedInRange(d, Earlier(d, atropoi), x);
    ConfirmedInRange(d, atropoi, x);
    ConfirmedStep(d, atropoi, x);
    InfosStep(d, start, atropoi, ConfirmedBy(d, atropoi)[x]);
  }

  lemma ConfirmedStep(d: Dag, atropoi: seq<EventId>, x: EventId)
    requires AllIn(d, atropoi) && atropoi != []
    ensures var before, on := ConfirmedBy(d, Earlier(d, atropoi)), ConfirmedBy(d, atropoi);
            && (x in on <==> x in before || x in NewlyConfirmed(d, atropoi))
            && (x in on ==> on[x] == if x in before then before[x] else |atropoi|)
  {
    hide Past;
  }

  lemma InfosStep(d: Dag, start: nat, atropoi: seq<EventId>, f: nat)
    requires AllIn(d, atropoi) && atropoi != [] && f <= |atropoi|
    ensures f < |atropoi| ==>
              var before, infos := Infos(d, start, Earlier(d, atropoi)), Infos(d, start, atropoi);
              && (f >= 1 ==> infos[f - 1] == before[f - 1])
              && LastAt(start, infos, f) == LastAt(start, before, f)
              && (f >= 1 ==> LastAt(start, infos, f - 1) == LastAt(start, before, f - 1))
  {
    hide NextInfo;
  }

  /** Block times strictly increase from frame to frame. */
  lemma {:induction false} BlockTimesIncrease(d: Dag, start: nat, atropoi: seq<EventId>, j: nat, k: nat)
    requires AllIn(d, atropoi) && FieldsFit(d) && NoOverflow(d, start, atropoi)
    requires j < k <= |atropoi|
    ensures LastAt(start, Infos(d, start, atropoi), j) < LastAt(start, Infos(d, start, atropoi), k)
  {
    hide Infos;
    hide NoOverflow;
    hide FieldsFit;
    var init := Earlier(d, atropoi);
    OverflowEarlier(d, start, atropoi);
    InfosStep(d, start, atropoi, j);
    if k < |atropoi| {
      BlockTimesIncrease(d, start, init, j, k);
      InfosStep(d, start, atropoi, k);
    } else {
      LastBlockIncreases(d, start, atropoi);
      if j < k - 1 {
        BlockTimesIncrease(d, start, init, j, k - 1);
      }
      InfosStep(d, start, atropoi, k - 1);
    }
  }

  lemma OverflowEarlier(d: Dag, start: nat, atropoi: seq<EventId>)
    requires AllIn(d, atropoi) && atropoi != [] && NoOverflow(d, start, atropoi)
    ensures NoOverflow(d, start, Earlier(d, atropoi))
  {
    hide LamportPeriod;
    hide NewlyConfirmed;
  }

  lemma LastBlockIncreases(d: Dag, start: nat, atropoi: seq<EventId>)
    requires AllIn(d, atropoi) && atropoi != [] && FieldsFit(d) && NoOverflow(d, start, atropoi)
    ensures LastAt(start, Infos(d, start, atropoi), |atropoi| - 1) < LastAt(start, Infos(d, start, atropoi), |atropoi|)
  {
    hide Past;
    hide FareTimestamps;
    hide LamportPeriod;
    var init := Earlier(d, atropoi);
    var before := Infos(d, start, init);
    var ids := NewlyConfirmed(d, atropoi);
    RangeOfConfirmed(d, ids);
    LastFits(d, start, init);
    TimeIncreasesIff(LastAt(start, before, |before|), d[AllInLast(d, atropoi)].medianTime, Highest(d, ids),
                     Lowest(d, ids));
  }

  /** The time of a block follows the median time of its Atropos: it is less than the frame's Lamport
      steps behind it if there is room for them since the last block, and else as close as it can be. */
  lemma BlockTimeFollowsMedian(d: Dag, start: nat, atropoi: seq<EventId>)
    requires AllIn(d, atropoi) && atropoi != [] && FieldsFit(d) && NoOverflow(d, start, atropoi)
    ensures var infos, ids := Infos(d, start, atropoi), NewlyConfirmed(d, atropoi);
            var last, time := LastAt(start, infos, |atropoi| - 1), LastAt(start, infos, |atropoi|);
            var median, steps := d[AllInLast(d, atropoi)].medianTime, Highest(d, ids) - Lowest(d, ids) + 1;
            && (last + steps <= median ==> median - steps < time <= median)
            && (last + steps > median ==> time == last + steps)
  {
    hide Past;
    hide FareTimestamps;
    hide LamportPeriod;
    var init := Earlier(d, atropoi);
    var before := Infos(d, start, init);
    var ids := NewlyConfirmed(d, atropoi);
    RangeOfConfirmed(d, ids);
    LastFits(d, start, init);
    PeriodIsExact(Highest(d, ids), Lowest(d, ids));
    TimeIncreasesIff(LastAt(start, before, |before|), d[AllInLast(d, atropoi)].medianTime, Highest(d, ids),
                     Lowest(d, ids));
  }

  /** A confirmed event's time lies after the block before its own and not after its own block. */
  lemma {:induction false} TimeWithinFrame(d: Dag, start: nat, atropoi: seq<EventId>, x: EventId)
    requires AllIn(d, atropoi) && FieldsFit(d) && NoOverflow(d, start, atropoi)
    requires x in ConfirmedBy(d, atropoi)
    ensures var f := ConfirmedBy(d, atropoi)[x];
            && 1 <= f <= |atropoi|
            && LastAt(start, Infos(d, start, atropoi), f - 1) < TimeOf(d, start, atropoi, x) <=
                 LastAt(start, Infos(d, start, atropoi), f)
  {
    hide Past;
    hide ConfirmedBy;
    hide Infos;
    hide NewlyConfirmed;
    hide FrameInfo.CalcConsensusTime;
    hide FieldsFit;
    hide NextInfo;
    hide LamportPeriod;
    hide Highest;
    hide Lowest;
    ConfirmedInRange(d, atropoi, x);
    if atropoi != [] {
      var init := Earlier(d, atropoi);
      ConfirmedStep(d, atropoi, x);
      if x in ConfirmedBy(d, init) {
        ConfirmedInRange(d, init, x);
        TimeWithinFrame(d, start, init, x);
        TimeIsKept(d, start, atropoi, x);
        InfosStep(d, start, atropoi, ConfirmedBy(d, init)[x]);
      } else {
        LastFrameTimes(d, start, atropoi, x);
      }
    }
  }

  /** Within one frame times rise with Lamport times. */
  lemma {:induction false} TimeRisesInFrame(d: Dag, start: nat, atropoi: seq<EventId>, x: EventId, y: EventId)
    requires AllIn(d, atropoi) && FieldsFit(d) && NoOverflow(d, start, atropoi)
    requires x in ConfirmedBy(d, atropoi) && y in ConfirmedBy(d, atropoi)
    requires ConfirmedBy(d, atropoi)[x] == ConfirmedBy(d, atropoi)[y]
    requires x in d && y in d && d[x].lamport < d[y].lamport
    ensures TimeOf(d, start, atropoi, x) < TimeOf(d, start, atropoi, y)
  {
    hide Past;
    hide ConfirmedBy;
    hide Infos;
    hide NewlyConfirmed;
    hide FrameInfo.CalcConsensusTime;
    ConfirmedInRange(d, atropoi, x);
    if atropoi != [] {
      var init := Earlier(d, atropoi);
      ConfirmedInRange(d, init, x);
      ConfirmedInRange(d, init, y);
      ConfirmedStep(d, atropoi, x);
      ConfirmedStep(d, atropoi, y);
      if x in ConfirmedBy(d, init) {
        TimeRisesInFrame(d, start, init, x, y);
        TimeIsKept(d, start, atropoi, x);
        TimeIsKept(d, start, atropoi, y);
      } else {
        NewTimesRise(d, start, atropoi, x, y);
      }
    }
  }

  lemma NewTimesRise(d: Dag, start: nat, atropoi: seq<EventId>, x: EventId, y: EventId)
    requires AllIn(d, atropoi) && atropoi != [] && FieldsFit(d) && NoOverflow(d, start, atropoi)
    requires x in NewlyConfirmed(d, atropoi) && y in NewlyConfirmed(d, atropoi)
    requires d[x].lamport < d[y].lamport
    ensures var info := Infos(d, start, atropoi)[|atropoi| - 1];
            info.CalcConsensusTime(d[x].lamport) < info.CalcConsensusTime(d[y].lamport)
  {
    hide ConfirmedBy;
    hide NoOverflow;
    hide NewlyConfirmed;
    hide FrameInfo.CalcConsensusTime;
    hide NextInfo;
    var ids := NewlyConfirmed(d, atropoi);
    var infos := Infos(d, start, atropoi);
    var k := |atropoi| - 1;
    LastFrameTimes(d, start, atropoi, x);
    LastFrameTimes(d, start, atropoi, y);
    RatioPositive(d, start, atropoi);
    LineRises(LastAt(start, infos, k), infos[k].timeRatio, Lowest(d, ids), d[x].lamport, d[y].lamport);
  }

  lemma RatioPositive(d: Dag, start: nat, atropoi: seq<EventId>)
    requires AllIn(d, atropoi) && atropoi != []
    ensures Infos(d, start, atropoi)[|atropoi| - 1].timeRatio >= 1
  {
    hide NewlyConfirmed;
    hide U64;
    hide I64;
  }

  lemma LineRises(last: nat, ratio: nat, lowest: nat, l: nat, m: nat)
    requires l < m && ratio >= 1
    ensures TrueTime(last, ratio, lowest, l) < TrueTime(last, ratio, lowest, m)
  {
    Distribute(m - lowest, l - lowest, ratio);
    MulAtLeast(m - l, ratio);
  }

  /** Ancestors are confirmed no later than their descendants. */
  lemma AncestorFirst(d: Dag, atropoi: seq<EventId>, p: EventId, e: EventId)
    requires AllIn(d, atropoi) && e in ConfirmedBy(d, atropoi) && e in d && p in Past(d, e)
    ensures p in ConfirmedBy(d, atropoi) && ConfirmedBy(d, atropoi)[p] <= ConfirmedBy(d, atropoi)[e]
  {
    hide ConfirmedBy;
    ConfirmedRun(d, atropoi);
    var f := ConfirmedBy(d, atropoi)[e];
    ClosedHoldsPast(d, ConfirmedBy(d, atropoi).Keys, e);
    ConfirmedOnFirst(d, atropoi, e, f);
    PastTransitive(d, atropoi[f - 1], e);
    var g := ConfirmedBy(d, atropoi)[p];
    ConfirmedOnFirst(d, atropoi, p, g);
    assert p in Past(d, atropoi[f - 1]);
  }

  /**
   Consensus time respects causality over whole runs: whatever Atropoi were decided, an event's
   proper ancestors are confirmed with it or before it, and at strictly earlier times.
   */
  lemma TimeRespectsCausality(d: Dag, start: nat, atropoi: seq<EventId>, p: EventId, e: EventId)
    requires AllIn(d, atropoi) && FieldsFit(d) && NoOverflow(d, start, atropoi)
    requires e in ConfirmedBy(d, atropoi) && e in d && p in Past(d, e) && p != e
    ensures p in ConfirmedBy(d, atropoi) && TimeOf(d, start, atropoi, p) < TimeOf(d, start, atropoi, e)
  {
    hide ConfirmedBy;
    hide Infos;
    hide TimeOf;
    hide NoOverflow;
    AncestorFirst(d, atropoi, p, e);
    PastLamport(d, e, p);
    var f, g := ConfirmedBy(d, atropoi)[p], ConfirmedBy(d, atropoi)[e];
    if f == g {
      TimeRisesInFrame(d, start, atropoi, p, e);
    } else {
      TimeWithinFrame(d, start, atropoi, p);
      TimeWithinFrame(d, start, atropoi, e);
      if f < g - 1 {
        BlockTimesIncrease(d, start, atropoi, f, g - 1);
      }
    }
  }

  /** The highest Lamport time of a frame is its Atropos' exactly if no earlier Atropos observed it.
      Otherwise the frame confirms nothing, and its times start from Lamport time zero. */
  lemma AtroposIsHighestIff(d: Dag, atropoi: seq<EventId>)
    requires AllIn(d, atropoi) && atropoi != []
    ensures var a, ids := AllInLast(d, atropoi), NewlyConfirmed(d, atropoi);
            && (Highest(d, ids) == d[a].lamport <==> a !in ConfirmedBy(d, Earlier(d, atropoi)))
            && (ids == {} <==> a in ConfirmedBy(d, Earlier(d, atropoi)))
  {
    hide ConfirmedBy;
    var a, init := AllInLast(d, atropoi), Earlier(d, atropoi);
    var ids := NewlyConfirmed(d, atropoi);
    ConfirmedRun(d, init);
    assert WellFormedEvent(d, d[a]);
    if a in ConfirmedBy(d, init) {
      ClosedHoldsPast(d, ConfirmedBy(d, init).Keys, a);
      assert ids == {};
    } else {
      assert a in ids;
      var x :| x in ids && d[x].lamport == Highest(d, ids);
      if x != a {
        PastLamport(d, a, x);
      }
    }
  }

  /** A caller's bound under which no frame of a run overflows: every time stays below the largest
      median or start plus 2^32 per block. */
  lemma {:induction false} NoOverflowBound(d: Dag, start: nat, atropoi: seq<EventId>, bound: nat)
    requires AllIn(d, atropoi) && FieldsFit(d)
    requires start <= bound && (forall x {:trigger d[x]} | x in d :: d[x].medianTime <= bound)
    requires bound + |atropoi| * TWO_32 < TWO_64
    ensures NoOverflow(d, start, atropoi)
    ensures LastAt(start, Infos(d, start, atropoi), |atropoi|) <= bound + |atropoi| * TWO_32
  {
    hide Past;
    hide FareTimestamps;
    if atropoi != [] {
      var init := Earlier(d, atropoi);
      NoOverflowBound(d, start, init, bound);
      var before := Infos(d, start, init);
      var ids := NewlyConfirmed(d, atropoi);
      RangeOfConfirmed(d, ids);
      PeriodIsExact(Highest(d, ids), Lowest(d, ids));
      TimeIncreasesIff(LastAt(start, before, |before|), d[AllInLast(d, atropoi)].medianTime, Highest(d, ids),
                       Lowest(d, ids));
    }
  }
}
