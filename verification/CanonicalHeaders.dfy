/**
 Which byte strings are encodings: what the reader's checks for canonical form achieve, and what they leave open.
 */
module CanonicalHeaders {
  import opened Wrapping
  import opened ByteStrings
  import opened CompactCoding
  import opened HeaderCodec

  // ---------- numbers ----------

  lemma {:induction false} LittleEndianBound(b: Bytes)
    requires AreBytes(b)
    ensures FromLittleEndian(b) < Pow256(|b|)
  {
    if b != [] {
      LittleEndianBound(b[1..]);
    }
  }

  lemma {:induction false} LastMatters(b: Bytes)
    requires AreBytes(b) && b != [] && b[|b| - 1] != 0
    ensures FromLittleEndian(b) > 0
  {
    if |b| > 1 {
      LastMatters(b[1..]);
    } else {
      assert FromLittleEndian(b) == b[0] + 256 * FromLittleEndian(b[1..]);
    }
  }

  /** Bytes without a superfluous zero at the end are the only ones of their number. */
  lemma {:induction false} CompactInverse(b: Bytes)
    requires AreBytes(b) && b != [] && (|b| > 1 ==> b[|b| - 1] != 0)
    ensures CompactBytes(FromLittleEndian(b)) == b
  {
    var rest := b[1..];
    if rest == [] {
      assert FromLittleEndian(b) == b[0] + 256 * FromLittleEndian(rest);
    } else {
      LastMatters(rest);
      CompactInverse(rest);
      assert FromLittleEndian(b) == b[0] + 256 * FromLittleEndian(rest);
      assert b == [b[0]] + rest;
    }
  }

  lemma {:induction false} Pow256Monotone(j: nat, k: nat)
    requires j <= k
    ensures Pow256(j) <= Pow256(k)
  {
    if j < k {
      Pow256Monotone(j, k - 1);
    }
  }

  /** One number read is the number written there, if it fits. */
  lemma ReadIsCompact(body: Bytes, before: Numbers, n: nat, k: nat)
    requires AreBytes(body) && 1 <= n <= k && before.Numbers?
    requires ReadUintCompact(body, before, n, Pow256(k)).Numbers?
    ensures before.off + n <= |body|
    ensures var v := FromLittleEndian(body[before.off..before.off + n]);
            && ReadUintCompact(body, before, n, Pow256(k)) == Numbers(before.vals + [v], before.off + n)
            && body[before.off..before.off + n] == CompactBytes(v)
  {
    hide Pow256;
    hide CompactBytes;
    hide FromLittleEndian;
    var b := body[before.off..before.off + n];
    CompactInverse(b);
    LittleEndianBound(b);
    Pow256Monotone(n, k);
    SmallMod(FromLittleEndian(b), Pow256(k));
  }

  /** What is read as numbers of sizes that fit is how those numbers are written. */
  lemma {:induction false} NumbersInverse(body: Bytes, off: nat, sizes: seq<nat>, k: nat)
    requires AreBytes(body) && off <= |body| && (forall i | 0 <= i < |sizes| :: sizes[i] < k)
    requires ReadNumbers(body, off, sizes, Pow256(k)).Numbers?
    ensures var r := ReadNumbers(body, off, sizes, Pow256(k));
            && off <= r.off <= |body| && body[off..r.off] == Flat(r.vals) && Sizes(r.vals) == sizes
    decreases |sizes|
  {
    hide Pow256;
    hide ReadUintCompact;
    hide CompactBytes;
    hide Flat;
    hide FromLittleEndian;
    if sizes != [] {
      var init, last := sizes[..|sizes| - 1], sizes[|sizes| - 1];
      var before := ReadNumbers(body, off, init, Pow256(k));
      FailureStays(body, before, last + 1, Pow256(k));
      NumbersInverse(body, off, init, k);
      NextInverse(body, off, before, last, k);
      assert sizes == init + [last];
    } else {
      NothingFlat();
    }
  }

  lemma NextInverse(body: Bytes, off: nat, before: Numbers, size: nat, k: nat)
    requires AreBytes(body) && size < k && before.Numbers? && off <= before.off <= |body|
    requires body[off..before.off] == Flat(before.vals)
    requires ReadUintCompact(body, before, size + 1, Pow256(k)).Numbers?
    ensures var r := ReadUintCompact(body, before, size + 1, Pow256(k));
            && off <= r.off <= |body| && body[off..r.off] == Flat(r.vals)
            && Sizes(r.vals) == Sizes(before.vals) + [size]
  {
    hide Pow256;
    hide ReadUintCompact;
    hide CompactBytes;
    hide Flat;
    hide FromLittleEndian;
    ReadIsCompact(body, before, size + 1, k);
    var v := FromLittleEndian(body[before.off..before.off + size + 1]);
    FlatNext(before.vals, v);
    JoinSlices(body, off, before.off, before.off + size + 1);
    SizesNext(before.vals, v);
  }

  lemma NothingFlat()
    ensures Flat([]) == [] && Sizes([]) == []
  {}

  lemma FailureStays(body: Bytes, before: Numbers, n: nat, m: nat)
    requires n >= 1 && m > 0 && ReadUintCompact(body, before, n, m).Numbers?
    ensures before.Numbers?
  {}

  lemma FlatNext(ns: seq<nat>, n: nat)
    ensures Flat(ns + [n]) == Flat(ns) + CompactBytes(n)
  {
    assert (ns + [n])[..|ns|] == ns;
  }

  lemma SizesNext(ns: seq<nat>, n: nat)
    ensures Sizes(ns + [n]) == Sizes(ns) + [|CompactBytes(n)| - 1]
  {}

  lemma JoinSlices(b: Bytes, i: nat, j: nat, k: nat)
    requires i <= j <= k <= |b|
    ensures b[i..j] + b[j..k] == b[i..k]
  {}

  // ---------- the front ----------

  /** No size is out of range, flags are 0 or 1, and bits that are not used are zero. */
  predicate CanonicalFront(raw: Bytes)
  {
    && |raw| >= 6
    && raw[0] % 16 < 8 && raw[0] / 16 < 8 && raw[1] % 16 < 8 && raw[1] / 16 < 8 && raw[2] < 8
    && raw[4] / 64 <= 1 && (raw[5] == 0 || raw[5] == 1 || raw[5] == 4 || raw[5] == 5)
  }

  lemma {:induction false} SlotsAt(bits: nat, b: Bytes, from: nat, count: nat, i: nat)
    requires i < count && ByteOffset(bits, from + count - 1) < |b|
    ensures ByteOffset(bits, from + i) < |b| && Slots(bits, b, from, count)[i] == Slot(bits, b, from + i)
  {
    hide Slot;
    hide ByteOffset;
    OffsetUpTo(bits, from + i, from + count - 1);
    if i < count - 1 {
      OffsetMonotone(bits, from + count - 1);
      SlotsAt(bits, b, from, count - 1, i);
    }
  }

  /** Four bits each: the lower and the upper half of a byte. */
  lemma Halves(b: Bytes, i: nat)
    requires i < |b|
    ensures ByteOffset(4, 2 * i) == i && ByteOffset(4, 2 * i + 1) == i
    ensures Slot(4, b, 2 * i) == b[i] % 16 && Slot(4, b, 2 * i + 1) == b[i] / 16 % 16
  {
    Place(4, 2 * i);
    Place(4, 2 * i + 1);
  }

  /** Two bits each. */
  lemma QuartersOf(b: Bytes, i: nat)
    requires i < |b|
    ensures ByteOffset(2, 4 * i) == i && ByteOffset(2, 4 * i + 1) == i && ByteOffset(2, 4 * i + 2) == i
    ensures ByteOffset(2, 4 * i + 3) == i
    ensures Slot(2, b, 4 * i) == b[i] % 4 && Slot(2, b, 4 * i + 1) == b[i] / 4 % 4
    ensures Slot(2, b, 4 * i + 2) == b[i] / 16 % 4 && Slot(2, b, 4 * i + 3) == b[i] / 64 % 4
  {
    Place(2, 4 * i);
    Place(2, 4 * i + 1);
    Place(2, 4 * i + 2);
    Place(2, 4 * i + 3);
  }

  lemma WideSlots(b: Bytes)
    requires |b| == 3
    ensures ByteOffset(4, 4) < 3
    ensures var s := Slots(4, b, 0, 5);
            && s[0] == b[0] % 16 && s[1] == b[0] / 16 % 16 && s[2] == b[1] % 16 && s[3] == b[1] / 16 % 16
            && s[4] == b[2] % 16
  {
    hide Slots;
    hide Slot;
    Offsets();
    hide ByteOffset;
    Halves(b, 0);
    Halves(b, 1);
    Halves(b, 2);
    SlotsAt(4, b, 0, 5, 0);
    SlotsAt(4, b, 0, 5, 1);
    SlotsAt(4, b, 0, 5, 2);
    SlotsAt(4, b, 0, 5, 3);
    SlotsAt(4, b, 0, 5, 4);
  }

  lemma NarrowSlots(b: Bytes)
    requires |b| == 3
    ensures ByteOffset(2, 6) < 3 && ByteOffset(2, 9) < 3
    ensures var s := Slots(2, b, 0, 7);
            && s[0] == b[0] % 4 && s[1] == b[0] / 4 % 4 && s[2] == b[0] / 16 % 4 && s[3] == b[0] / 64 % 4
            && s[4] == b[1] % 4 && s[5] == b[1] / 4 % 4 && s[6] == b[1] / 16 % 4
    ensures var t := Slots(2, b, 7, 3); t[0] == b[1] / 64 % 4 && t[1] == b[2] % 4 && t[2] == b[2] / 4 % 4
  {
    hide Slots;
    Offsets();
    hide ByteOffset;
    FirstSlots(b);
    MiddleSlots(b);
    LastSlots(b);
  }

  lemma FirstSlots(b: Bytes)
    requires |b| == 3 && ByteOffset(2, 6) < 3
    ensures var s := Slots(2, b, 0, 7);
            s[0] == b[0] % 4 && s[1] == b[0] / 4 % 4 && s[2] == b[0] / 16 % 4 && s[3] == b[0] / 64 % 4
  {
    hide Slots;
    hide Slot;
    hide ByteOffset;
    QuartersOf(b, 0);
    SlotsAt(2, b, 0, 7, 0);
    SlotsAt(2, b, 0, 7, 1);
    SlotsAt(2, b, 0, 7, 2);
    SlotsAt(2, b, 0, 7, 3);
  }

  lemma MiddleSlots(b: Bytes)
    requires |b| == 3 && ByteOffset(2, 6) < 3
    ensures var s := Slots(2, b, 0, 7); s[4] == b[1] % 4 && s[5] == b[1] / 4 % 4 && s[6] == b[1] / 16 % 4
  {
    hide Slots;
    hide Slot;
    hide ByteOffset;
    QuartersOf(b, 1);
    SlotsAt(2, b, 0, 7, 4);
    SlotsAt(2, b, 0, 7, 5);
    SlotsAt(2, b, 0, 7, 6);
  }

  lemma LastSlots(b: Bytes)
    requires |b| == 3 && ByteOffset(2, 9) < 3
    ensures var t := Slots(2, b, 7, 3); t[0] == b[1] / 64 % 4 && t[1] == b[2] % 4 && t[2] == b[2] / 4 % 4
  {
    FlagSlot(b);
    HashSlots(b);
  }

  lemma FlagSlot(b: Bytes)
    requires |b| == 3 && ByteOffset(2, 9) < 3
    ensures Slots(2, b, 7, 3)[0] == b[1] / 64 % 4
  {
    hide Slots;
    hide Slot;
    hide ByteOffset;
    SlotsAt(2, b, 7, 3, 0);
    QuartersOf(b, 1);
  }

  lemma HashSlots(b: Bytes)
    requires |b| == 3 && ByteOffset(2, 9) < 3
    ensures Slots(2, b, 7, 3)[1] == b[2] % 4 && Slots(2, b, 7, 3)[2] == b[2] / 4 % 4
  {
    hide Slots;
    hide Slot;
    hide ByteOffset;
    SlotsAt(2, b, 7, 3, 1);
    SlotsAt(2, b, 7, 3, 2);
    QuartersOf(b, 2);
  }

  /** Packing the slots of three bytes gives them back if the unused ones are zero. */
  lemma WidePacked(b: Bytes)
    requires |b| == 3 && AreBytes(b) && b[2] < 16
    ensures ByteOffset(4, 4) < 3 && Packed(4, Slots(4, b, 0, 5), 3) == b
  {
    hide Slots;
    hide Slot;
    hide ByteOffset;
    WideSlots(b);
    TwoHalves(b[0]);
    TwoHalves(b[1]);
    FiveHalves(Slots(4, b, 0, 5));
    Small(b[2]);
  }

  lemma FiveHalves(s: seq<nat>)
    requires |s| == 5
    ensures Packed(4, s, 3) == [s[0] + 16 * s[1], s[2] + 16 * s[3], s[4]]
  {}

  lemma TwoHalves(x: nat)
    requires x < 256
    ensures x % 16 + 16 * (x / 16 % 16) == x
  {}

  lemma Small(x: nat)
    requires x < 16
    ensures x % 16 == x
  {}

  lemma NarrowPacked(b: Bytes)
    requires |b| == 3 && AreBytes(b) && b[2] < 16
    ensures ByteOffset(2, 6) < 3 && ByteOffset(2, 9) < 3
    ensures Packed(2, Slots(2, b, 0, 7) + Slots(2, b, 7, 3), 3) == b
  {
    hide Slots;
    hide Slot;
    hide ByteOffset;
    NarrowSlots(b);
    var s, t := Slots(2, b, 0, 7), Slots(2, b, 7, 3);
    TenQuarters(s, t);
    hide Packed;
    FourQuarters(b[0]);
    FourQuarters(b[1]);
    TwoQuarters(b[2]);
  }

  lemma FourQuarters(x: nat)
    requires x < 256
    ensures x % 4 + 4 * (x / 4 % 4) + 16 * (x / 16 % 4) + 64 * (x / 64 % 4) == x
  {}

  lemma TwoQuarters(x: nat)
    requires x < 16
    ensures x % 4 + 4 * (x / 4 % 4) == x
  {}

  // ---------- what follows the numbers ----------

  lemma {:induction false} TailsOfParents(body: Bytes, off: nat, epoch: nat, count: nat)
    requires off + TAIL_SIZE * count <= |body|
    ensures var ps := Parents(body, off, epoch, count);
            && (forall i | 0 <= i < |ps| :: |ps[i]| == HASH_SIZE)
            && Tails(ps) == body[off..off + TAIL_SIZE * count]
  {
    hide BigEndian;
    hide Tails;
    if count > 0 {
      var before, end := off + TAIL_SIZE * (count - 1), off + TAIL_SIZE * count;
      TailsOfParents(body, off, epoch, count - 1);
      TailsNext(Parents(body, off, epoch, count - 1), epoch, body[before..end]);
      JoinSlices(body, off, before, end);
    } else {
      NoTails(body, off);
    }
  }

  lemma TailsNext(parents: seq<Bytes>, epoch: nat, tail: Bytes)
    requires |tail| == TAIL_SIZE && forall i | 0 <= i < |parents| :: |parents[i]| == HASH_SIZE
    ensures var more := parents + [BigEndian(epoch, EPOCH_SIZE) + tail];
            && (forall i | 0 <= i < |more| :: |more[i]| == HASH_SIZE)
            && Tails(more) == Tails(parents) + tail
  {
    var last := BigEndian(epoch, EPOCH_SIZE) + tail;
    hide BigEndian;
    var more := parents + [last];
    assert more[..|more| - 1] == parents;
    assert last[EPOCH_SIZE..] == tail;
  }

  lemma NoTails(body: Bytes, off: nat)
    requires off <= |body|
    ensures Tails([]) == body[off..off]
  {}

  lemma HashInverse(body: Bytes, off: nat, leftOut: bool, absent: Bytes)
    requires off <= |body| && |absent| == HASH_SIZE && ReadHash(body, off, leftOut, absent).HashField?
    ensures var r := ReadHash(body, off, leftOut, absent);
            && off <= r.off <= |body| && |r.value| == HASH_SIZE
            && body[off..r.off] == Optional(r.value, absent) && (leftOut <==> r.value == absent)
  {}

  /** What the rest decodes to encodes to it. */
  lemma RestInverse(body: Bytes, off: nat, n64: seq<nat>, n32: seq<nat>, flags: seq<nat>, emptyTx: Bytes)
    requires |n64| == 5 && |n32| == 7 && |flags| == 3 && off <= |body| && |emptyTx| == HASH_SIZE
    requires (forall i | 0 <= i < 5 :: n64[i] < Pow256(8)) && (forall i | 0 <= i < 7 :: n32[i] < Pow256(4))
    requires DecodeRest(body, off, n64, n32, flags, emptyTx).Decoded?
    ensures var e := DecodeRest(body, off, n64, n32, flags, emptyTx).header;
            && WellSized(e) && Fields64(e) == n64 && Fields32(e) == n32 && Rest(e, emptyTx) == body[off..]
            && Flags(e, emptyTx) == [Flag(flags[0] != 0), Flag(flags[1] != 0), Flag(flags[2] != 0)]
  {
    hide Pow256;
    hide ReadHash;
    hide Parents;
    hide Tails;
    hide Optional;
    var o := off + TAIL_SIZE * n32[6];
    TailsOfParents(body, off, n32[1], n32[6]);
    var prev := ReadHash(body, o, flags[1] != 0, ZeroHash());
    HashInverse(body, o, flags[1] != 0, ZeroHash());
    HashInverse(body, prev.off, flags[2] != 0, emptyTx);
    var tx := ReadHash(body, prev.off, flags[2] != 0, emptyTx);
    FourSlices(body, off, o, prev.off, tx.off);
  }

  lemma FourSlices(b: Bytes, i: nat, j: nat, k: nat, l: nat)
    requires i <= j <= k <= l <= |b|
    ensures b[i..j] + b[j..k] + b[k..l] + b[l..] == b[i..]
  {}

  // ---------- all together ----------

  /** The parts a decoded string consists of. */
  lemma DecodedParts(raw: Bytes, emptyTx: Bytes) returns (n64: Numbers, n32: Numbers)
    requires AreBytes(raw) && |emptyTx| == HASH_SIZE && Decode(raw, emptyTx).Decoded?
    ensures |raw| >= HEAD_SIZE
    ensures var body := raw[HEAD_SIZE..];
            && n64 == ReadNumbers(body, 0, Slots(4, raw[..3], 0, 5), TWO_64) && n64.Numbers?
            && n32 == ReadNumbers(body, n64.off, Slots(2, raw[3..HEAD_SIZE], 0, 7), TWO_32) && n32.Numbers?
            && |n64.vals| == 5 && |n32.vals| == 7 && n64.off <= n32.off <= |body|
            && Decode(raw, emptyTx) ==
                 DecodeRest(body, n32.off, n64.vals, n32.vals, Slots(2, raw[3..HEAD_SIZE], 7, 3), emptyTx)
  {
    hide Slots;
    hide DecodeRest;
    hide ReadNumbers;
    SlotsShape(raw);
    var body := raw[HEAD_SIZE..];
    n64 := ReadNumbers(body, 0, Slots(4, raw[..3], 0, 5), TWO_64);
    NumbersShape(body, 0, Slots(4, raw[..3], 0, 5), TWO_64);
    n32 := ReadNumbers(body, n64.off, Slots(2, raw[3..HEAD_SIZE], 0, 7), TWO_32);
    NumbersShape(body, n64.off, Slots(2, raw[3..HEAD_SIZE], 0, 7), TWO_32);
    OffsetsRise(body, n64.off, Slots(2, raw[3..HEAD_SIZE], 0, 7), TWO_32);
  }

  lemma OffsetsRise(body: Bytes, off: nat, sizes: seq<nat>, m: nat)
    requires m > 0
    ensures var r := ReadNumbers(body, off, sizes, m); r.Numbers? ==> off <= r.off
  {}

  lemma {:induction false} ValuesFit(body: Bytes, off: nat, sizes: seq<nat>, m: nat)
    requires m > 0 && ReadNumbers(body, off, sizes, m).Numbers?
    ensures forall i | 0 <= i < |ReadNumbers(body, off, sizes, m).vals| :: ReadNumbers(body, off, sizes, m).vals[i] < m
    decreases |sizes|
  {
    if sizes != [] {
      var init := sizes[..|sizes| - 1];
      var before := ReadNumbers(body, off, init, m);
      FailureStays(body, before, sizes[|sizes| - 1] + 1, m);
      ValuesFit(body, off, init, m);
    }
  }

  /** Whatever is decoded has fields of the right widths. */
  lemma DecodedIsWellSized(raw: Bytes, emptyTx: Bytes)
    requires AreBytes(raw) && |emptyTx| == HASH_SIZE && Decode(raw, emptyTx).Decoded?
    ensures WellSized(Decode(raw, emptyTx).header)
  {
    hide Slots;
    hide DecodeRest;
    hide ReadNumbers;
    hide Decode;
    hide Pow256;
    hide WellSized;
    var n64, n32 := DecodedParts(raw, emptyTx);
    var body := raw[HEAD_SIZE..];
    SlotsShape(raw);
    ValuesFit(body, 0, Slots(4, raw[..3], 0, 5), TWO_64);
    ValuesFit(body, n64.off, Slots(2, raw[3..HEAD_SIZE], 0, 7), TWO_32);
    Widths();
    RestInverse(body, n32.off, n64.vals, n32.vals, Slots(2, raw[3..HEAD_SIZE], 7, 3), emptyTx);
  }

  lemma FrontBounds(raw: Bytes)
    requires AreBytes(raw) && CanonicalFront(raw)
    ensures ByteOffset(4, 4) < 3 && ByteOffset(2, 6) < 3 && ByteOffset(2, 9) < 3
    ensures forall i | 0 <= i < 5 :: Slots(4, raw[..3], 0, 5)[i] < 8
    ensures forall i | 0 <= i < 7 :: Slots(2, raw[3..6], 0, 7)[i] < 4
    ensures var flags := Slots(2, raw[3..6], 7, 3);
            flags == [Flag(flags[0] != 0), Flag(flags[1] != 0), Flag(flags[2] != 0)]
    ensures Packed(4, Slots(4, raw[..3], 0, 5), 3) == raw[..3]
    ensures Packed(2, Slots(2, raw[3..6], 0, 7) + Slots(2, raw[3..6], 7, 3), 3) == raw[3..6]
  {
    hide Slots;
    hide Slot;
    hide ByteOffset;
    hide Packed;
    WideSlots(raw[..3]);
    NarrowSlots(raw[3..6]);
    WidePacked(raw[..3]);
    NarrowPacked(raw[3..6]);
    SlotsShape(raw);
    FlagsAreSlots(raw, Slots(2, raw[3..6], 7, 3));
  }

  /** A string with a canonical front that is decoded is the encoding of what it decodes to. */
  lemma CanonicalIsEncoding(raw: Bytes, emptyTx: Bytes)
    requires AreBytes(raw) && |emptyTx| == HASH_SIZE && Decode(raw, emptyTx).Decoded? && CanonicalFront(raw)
    ensures WellSized(Decode(raw, emptyTx).header) && Encoded(Decode(raw, emptyTx).header, emptyTx) == raw
  {
    hide Slots;
    hide DecodeRest;
    hide ReadNumbers;
    hide Decode;
    hide Pow256;
    hide Packed;
    hide Flat;
    hide WellSized;
    hide Rest;
    hide Sizes;
    hide Fields64;
    hide Fields32;
    hide Flags;
    FrontBounds(raw);
    hide CanonicalFront;
    hide ByteOffset;
    var head3, head2, body := raw[..3], raw[3..HEAD_SIZE], raw[HEAD_SIZE..];
    var n64, n32 := DecodedParts(raw, emptyTx);
    Widths();
    ValuesFit(body, 0, Slots(4, head3, 0, 5), TWO_64);
    ValuesFit(body, n64.off, Slots(2, head2, 0, 7), TWO_32);
    NumbersInverse(body, 0, Slots(4, head3, 0, 5), 8);
    NumbersInverse(body, n64.off, Slots(2, head2, 0, 7), 4);
    RestInverse(body, n32.off, n64.vals, n32.vals, Slots(2, head2, 7, 3), emptyTx);
    ThreeSlices(body, n64.off, n32.off);
    Whole(raw);
  }

  lemma Whole(raw: Bytes)
    requires |raw| >= 6
    ensures raw[..3] + raw[3..6] + raw[6..] == raw
  {}

  lemma FlagsAreSlots(raw: Bytes, flags: seq<nat>)
    requires AreBytes(raw) && CanonicalFront(raw) && |flags| == 3
    requires flags[0] == raw[4] / 64 % 4 && flags[1] == raw[5] % 4 && flags[2] == raw[5] / 4 % 4
    ensures flags == [Flag(flags[0] != 0), Flag(flags[1] != 0), Flag(flags[2] != 0)]
  {}

  lemma ThreeSlices(b: Bytes, i: nat, j: nat)
    requires i <= j <= |b|
    ensures b[0..i] + b[i..j] + b[j..] == b
  {}

  /** Every encoding has a canonical front. */
  lemma EncodingIsCanonical(e: Header, emptyTx: Bytes)
    requires WellSized(e)
    ensures CanonicalFront(Encoded(e, emptyTx))
  {
    hide Encoded;
    hide Tails;
    hide Pow256;
    hide CompactBytes;
    hide CanonicalFront;
    Layout(e, emptyTx);
    var raw := Encoded(e, emptyTx);
    SizesAre(e);
    assert raw[0] == Size(e.gasLeft0) + 16 * Size(e.gasLeft1);
    assert raw[1] == Size(e.gasUsed) + 16 * Size(e.claimedTime);
    assert raw[2] == Size(e.medianTime);
    assert raw[4] == Size(e.creator) + 4 * Size(e.lamport) + 16 * Size(|e.parents|) + 64 * Flag(e.isRoot);
    assert raw[5] == Flag(e.prevEpochHash == ZeroHash()) + 4 * Flag(e.txHash == emptyTx);
    FrontOf(raw, Size(e.gasLeft0), Size(e.gasLeft1), Size(e.gasUsed), Size(e.claimedTime),
            Size(e.creator) + 4 * Size(e.lamport) + 16 * Size(|e.parents|), Flag(e.isRoot));
  }

  lemma SizesAre(e: Header)
    requires WellSized(e)
    ensures Size(e.gasLeft0) < 8 && Size(e.gasLeft1) < 8 && Size(e.gasUsed) < 8 && Size(e.claimedTime) < 8
    ensures Size(e.medianTime) < 8 && Size(e.creator) < 4 && Size(e.lamport) < 4 && Size(|e.parents|) < 4
  {
    hide Pow256;
    hide CompactBytes;
    SizesFit(Fields64(e), 8);
    SizesFit(Fields32(e), 4);
    var s, t := Sizes(Fields64(e)), Sizes(Fields32(e));
    assert s[0] == Size(e.gasLeft0) && s[1] == Size(e.gasLeft1) && s[2] == Size(e.gasUsed);
    assert s[3] == Size(e.claimedTime) && s[4] == Size(e.medianTime);
    assert t[4] == Size(e.creator) && t[5] == Size(e.lamport) && t[6] == Size(|e.parents|);
  }

  lemma FrontOf(raw: Bytes, a: nat, b: nat, c: nat, d: nat, x: nat, f: nat)
    requires |raw| >= 6 && a < 8 && b < 8 && c < 8 && d < 8 && x < 64 && f <= 1
    requires raw[0] == a + 16 * b && raw[1] == c + 16 * d && raw[2] < 8 && raw[4] == x + 64 * f
    requires raw[5] == 0 || raw[5] == 1 || raw[5] == 4 || raw[5] == 5
    ensures CanonicalFront(raw)
  {}

  /**
   What the reader accepts beyond encodings: a string it decodes is the encoding of the result if and only if
   its six bytes of sizes and flags are canonical, which the reader does not check.
   */
  lemma AcceptedIsEncodingIff(raw: Bytes, emptyTx: Bytes)
    requires AreBytes(raw) && |emptyTx| == HASH_SIZE && Decode(raw, emptyTx).Decoded?
    ensures WellSized(Decode(raw, emptyTx).header)
    ensures Encoded(Decode(raw, emptyTx).header, emptyTx) == raw <==> CanonicalFront(raw)
  {
    hide Decode;
    hide Encoded;
    hide CanonicalFront;
    DecodedIsWellSized(raw, emptyTx);
    EncodingIsCanonical(Decode(raw, emptyTx).header, emptyTx);
    if CanonicalFront(raw) {
      CanonicalIsEncoding(raw, emptyTx);
    }
  }

  /** It does accept such strings: bits that are not used do not change what is decoded. */
  lemma UnusedBitsIgnored(raw: Bytes, emptyTx: Bytes)
    requires |raw| >= 6 && raw[5] < 16
    ensures var other := raw[5 := raw[5] + 16];
            Decode(other, emptyTx) == Decode(raw, emptyTx) && other != raw && !CanonicalFront(other)
  {
    hide Slots;
    hide ReadNumbers;
    hide DecodeRest;
    hide ByteOffset;
    var other := raw[5 := raw[5] + 16];
    assert other[..3] == raw[..3] && other[6..] == raw[6..];
    NarrowSlots(raw[3..6]);
    NarrowSlots(other[3..6]);
    Sixteen(raw[5]);
    SlotsShape(raw);
    SlotsShape(other);
    assert Slots(2, other[3..6], 0, 7) == Slots(2, raw[3..6], 0, 7);
    assert Slots(2, other[3..6], 7, 3) == Slots(2, raw[3..6], 7, 3);
  }

  lemma Sixteen(x: nat)
    requires x < 16
    ensures (x + 16) % 4 == x % 4 && (x + 16) / 4 % 4 == x / 4 % 4
  {}
}
