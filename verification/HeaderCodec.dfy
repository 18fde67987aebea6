/**
 The binary form of event headers: sizes and flags packed in front, then numbers without their
 leading zeros, parents without the epoch they share, and optional hashes.
 */
module HeaderCodec {
  import opened Wrapping
  import opened ByteStrings
  import opened CompactCoding

  datatype Header = Header(
    version: nat, epoch: nat, seqNo: nat, frame: nat, isRoot: bool, creator: nat, prevEpochHash: Bytes,
    parents: seq<Bytes>,
    gasLeft0: nat, gasLeft1: nat, gasUsed: nat, lamport: nat, claimedTime: nat, medianTime: nat, txHash: Bytes,
    extra: Bytes)

  datatype Result = Decoded(header: Header) | ErrNonCanonicalEncoding | ErrInvalidEncoding

  const EPOCH_SIZE: nat := 4
  const TAIL_SIZE: nat := HASH_SIZE - EPOCH_SIZE
  const HEAD_SIZE: nat := 6

  function Fields64(e: Header): (ns: seq<nat>)
    ensures |ns| == 5
  {
    [e.gasLeft0, e.gasLeft1, e.gasUsed, e.claimedTime, e.medianTime]
  }

  function Fields32(e: Header): (ns: seq<nat>)
    ensures |ns| == 7
  {
    [e.version, e.epoch, e.seqNo, e.frame, e.creator, e.lamport, |e.parents|]
  }

  function Flag(b: bool): (n: nat)
  {
    if b then 1 else 0
  }

  function Flags(e: Header, emptyTx: Bytes): (ns: seq<nat>)
    ensures |ns| == 3 && Fit(2, ns)
  {
    [Flag(e.isRoot), Flag(e.prevEpochHash == ZeroHash()), Flag(e.txHash == emptyTx)]
  }

  /** The widths of the fields. */
  ghost predicate WellSized(e: Header)
  {
    && (forall i | 0 <= i < 5 :: Fields64(e)[i] < Pow256(8))
    && (forall i | 0 <= i < 7 :: Fields32(e)[i] < Pow256(4))
    && |e.prevEpochHash| == HASH_SIZE && |e.txHash| == HASH_SIZE
    && (forall i | 0 <= i < |e.parents| :: |e.parents[i]| == HASH_SIZE)
  }

  /** Every parent's hash starts with the epoch of the event. */
  ghost predicate ParentsShareEpoch(e: Header)
  {
    forall i {:trigger e.parents[i]} | 0 <= i < |e.parents| ::
      |e.parents[i]| >= EPOCH_SIZE && e.parents[i][..EPOCH_SIZE] == BigEndian(e.epoch, EPOCH_SIZE)
  }

  // ---------- the encoding ----------

  /** One less than the number of bytes each number takes. */
  function Sizes(ns: seq<nat>): (sizes: seq<nat>)
    ensures |sizes| == |ns| && forall i | 0 <= i < |ns| :: sizes[i] == |CompactBytes(ns[i])| - 1
  {
    seq(|ns|, i requires 0 <= i < |ns| => |CompactBytes(ns[i])| - 1)
  }

  /** The numbers one after the other. */
  function Flat(ns: seq<nat>): (b: Bytes)
  {
    if ns == [] then [] else Flat(ns[..|ns| - 1]) + CompactBytes(ns[|ns| - 1])
  }

  /** The parents without the epoch. */
  function Tails(parents: seq<Bytes>): (b: Bytes)
    requires forall i | 0 <= i < |parents| :: |parents[i]| == HASH_SIZE
  {
    if parents == [] then [] else Tails(parents[..|parents| - 1]) + parents[|parents| - 1][EPOCH_SIZE..]
  }

  /** What follows the packed sizes and flags. */
  ghost function Body(e: Header, emptyTx: Bytes): (b: Bytes)
    requires WellSized(e)
  {
    Flat(Fields64(e)) + Flat(Fields32(e)) + Rest(e, emptyTx)
  }

  ghost function Rest(e: Header, emptyTx: Bytes): (b: Bytes)
    requires WellSized(e)
  {
    Tails(e.parents) + Optional(e.prevEpochHash, ZeroHash()) + Optional(e.txHash, emptyTx) + e.extra
  }

  /** A hash is left out if it has its default value. */
  function Optional(h: Bytes, absent: Bytes): (b: Bytes)
  {
    if h == absent then [] else h
  }

  ghost function Encoded(e: Header, emptyTx: Bytes): (b: Bytes)
    requires WellSized(e)
  {
    Packed(4, Sizes(Fields64(e)), 3) + Packed(2, Sizes(Fields32(e)) + Flags(e, emptyTx), 3) + Body(e, emptyTx)
  }

  function Size(v: nat): (n: nat)
  {
    |CompactBytes(v)| - 1
  }

  /** Where everything is in an encoding: six bytes of sizes and flags, twelve numbers, the parents, the hashes
      that are not left out, and the extra data. */
  lemma Layout(e: Header, emptyTx: Bytes)
    requires WellSized(e)
    ensures Encoded(e, emptyTx) ==
            [Size(e.gasLeft0) + 16 * Size(e.gasLeft1), Size(e.gasUsed) + 16 * Size(e.claimedTime), Size(e.medianTime)]
            + [Size(e.version) + 4 * Size(e.epoch) + 16 * Size(e.seqNo) + 64 * Size(e.frame),
               Size(e.creator) + 4 * Size(e.lamport) + 16 * Size(|e.parents|) + 64 * Flag(e.isRoot),
               Flag(e.prevEpochHash == ZeroHash()) + 4 * Flag(e.txHash == emptyTx)]
            + (CompactBytes(e.gasLeft0) + CompactBytes(e.gasLeft1) + CompactBytes(e.gasUsed)
               + CompactBytes(e.claimedTime) + CompactBytes(e.medianTime))
            + (CompactBytes(e.version) + CompactBytes(e.epoch) + CompactBytes(e.seqNo) + CompactBytes(e.frame)
               + CompactBytes(e.creator) + CompactBytes(e.lamport) + CompactBytes(|e.parents|))
            + (Tails(e.parents) + (if e.prevEpochHash == ZeroHash() then [] else e.prevEpochHash)
               + (if e.txHash == emptyTx then [] else e.txHash) + e.extra)
  {
    hide CompactBytes;
    hide Tails;
    hide Flat;
    hide Packed;
    hide Size;
    hide Sizes;
    WideSizes(e);
    NarrowSizes(e, emptyTx);
    WideNumbers(e);
    NarrowNumbers(e);
    Regroup(Packed(4, Sizes(Fields64(e)), 3), Packed(2, Sizes(Fields32(e)) + Flags(e, emptyTx), 3),
            Flat(Fields64(e)), Flat(Fields32(e)), Rest(e, emptyTx));
  }

  lemma Regroup(a: Bytes, b: Bytes, c: Bytes, d: Bytes, e: Bytes)
    ensures a + b + (c + d + e) == a + b + c + d + e
  {}

  lemma WideSizes(e: Header)
    ensures Packed(4, Sizes(Fields64(e)), 3) ==
            [Size(e.gasLeft0) + 16 * Size(e.gasLeft1), Size(e.gasUsed) + 16 * Size(e.claimedTime), Size(e.medianTime)]
  {
    hide CompactBytes;
    var s := Sizes(Fields64(e));
    assert s[0] == Size(e.gasLeft0) && s[1] == Size(e.gasLeft1) && s[2] == Size(e.gasUsed);
    assert s[3] == Size(e.claimedTime) && s[4] == Size(e.medianTime);
  }

  lemma NarrowSizes(e: Header, emptyTx: Bytes)
    ensures Packed(2, Sizes(Fields32(e)) + Flags(e, emptyTx), 3) ==
            [Size(e.version) + 4 * Size(e.epoch) + 16 * Size(e.seqNo) + 64 * Size(e.frame),
             Size(e.creator) + 4 * Size(e.lamport) + 16 * Size(|e.parents|) + 64 * Flag(e.isRoot),
             Flag(e.prevEpochHash == ZeroHash()) + 4 * Flag(e.txHash == emptyTx)]
  {
    hide CompactBytes;
    hide Flag;
    var s, t := Sizes(Fields32(e)), Flags(e, emptyTx);
    assert s[0] == Size(e.version) && s[1] == Size(e.epoch) && s[2] == Size(e.seqNo) && s[3] == Size(e.frame);
    assert s[4] == Size(e.creator) && s[5] == Size(e.lamport) && s[6] == Size(|e.parents|);
    TenQuarters(s, t);
  }

  lemma TenQuarters(s: seq<nat>, t: seq<nat>)
    requires |s| == 7 && |t| == 3
    ensures Packed(2, s + t, 3) ==
            [s[0] + 4 * s[1] + 16 * s[2] + 64 * s[3], s[4] + 4 * s[5] + 16 * s[6] + 64 * t[0], t[1] + 4 * t[2]]
  {}

  lemma WideNumbers(e: Header)
    ensures Flat(Fields64(e)) ==
            CompactBytes(e.gasLeft0) + CompactBytes(e.gasLeft1) + CompactBytes(e.gasUsed)
            + CompactBytes(e.claimedTime) + CompactBytes(e.medianTime)
  {
    hide CompactBytes;
    hide Flat;
    hide Sizes;
    var ns := Fields64(e);
    FlatNone(ns);
    FlatSnoc(ns, 0);
    FlatSnoc(ns, 1);
    FlatSnoc(ns, 2);
    FlatSnoc(ns, 3);
    FlatSnoc(ns, 4);
    assert ns[..5] == ns;
    NoneBefore(CompactBytes(e.gasLeft0));
  }

  lemma NarrowNumbers(e: Header)
    ensures Flat(Fields32(e)) ==
            CompactBytes(e.version) + CompactBytes(e.epoch) + CompactBytes(e.seqNo) + CompactBytes(e.frame)
            + CompactBytes(e.creator) + CompactBytes(e.lamport) + CompactBytes(|e.parents|)
  {
    hide CompactBytes;
    hide Flat;
    hide Sizes;
    var ns := Fields32(e);
    FlatNone(ns);
    FlatSnoc(ns, 0);
    FlatSnoc(ns, 1);
    FlatSnoc(ns, 2);
    FlatSnoc(ns, 3);
    FlatSnoc(ns, 4);
    FlatSnoc(ns, 5);
    FlatSnoc(ns, 6);
    assert ns[..7] == ns;
    NoneBefore(CompactBytes(e.version));
  }

  lemma NoneBefore(b: Bytes)
    ensures [] + b == b
  {}

  // ---------- writing ----------

  /** A buffer of fixed size: two packed arrays of three bytes, then what is written in order. */
  class Encoder {
    const raw: array<nat>
    var pos: nat
    var count4: nat
    var count2: nat
    ghost var packed4: seq<nat>
    ghost var packed2: seq<nat>
    ghost var body: Bytes

    ghost predicate Valid()
      reads this, raw
    {
      && HEAD_SIZE + pos <= raw.Length
      && |packed4| == count4 && |packed2| == count2 && |body| == pos
      && raw[..3] == Packed(4, packed4, 3) && raw[3..HEAD_SIZE] == Packed(2, packed2, 3)
      && raw[HEAD_SIZE..HEAD_SIZE + pos] == body
      && Fit(4, packed4) && Fit(2, packed2)
    }

    constructor (maxBytes: nat)
      requires maxBytes >= HEAD_SIZE
      ensures Valid() && fresh(raw) && raw.Length == maxBytes && packed4 == [] && packed2 == [] && body == []
    {
      raw := new nat[maxBytes](_ => 0);
      pos, count4, count2 := 0, 0, 0;
      packed4, packed2, body := [], [], [];
      new;
      assert raw[..3] == Packed(4, [], 3);
      assert raw[3..HEAD_SIZE] == Packed(2, [], 3);
    }

    /** Pushes a number into the first packed array, which takes numbers of four bits and panics otherwise. */
    method Push4(v: nat)
      requires Valid() && count4 < 6 && v < Limit(4)
      modifies this`count4, this`packed4, raw
      ensures Valid() && packed4 == old(packed4) + [v]
    {
      var i := ByteOffset(4, count4);
      Place(4, count4);
      PushPacks(4, packed4, v, 3);
      ghost var was := raw[..];
      raw[i] := raw[i] + v * Shift(4, count4);
      assert raw[..3] == was[..3][i := was[i] + v * Shift(4, count4)];
      assert raw[3..HEAD_SIZE] == was[3..HEAD_SIZE];
      assert raw[HEAD_SIZE..HEAD_SIZE + pos] == was[HEAD_SIZE..HEAD_SIZE + pos];
      count4 := count4 + 1;
      packed4 := packed4 + [v];
    }

    /** Pushes a number into the second packed array, which takes numbers of two bits. */
    method Push2(v: nat)
      requires Valid() && count2 < 12 && v < Limit(2)
      modifies this`count2, this`packed2, raw
      ensures Valid() && packed2 == old(packed2) + [v]
    {
      var i := ByteOffset(2, count2);
      Place(2, count2);
      PushPacks(2, packed2, v, 3);
      ghost var was := raw[..];
      raw[3 + i] := raw[3 + i] + v * Shift(2, count2);
      assert raw[3..HEAD_SIZE] == was[3..HEAD_SIZE][i := was[3 + i] + v * Shift(2, count2)];
      assert raw[..3] == was[..3];
      assert raw[HEAD_SIZE..HEAD_SIZE + pos] == was[HEAD_SIZE..HEAD_SIZE + pos];
      count2 := count2 + 1;
      packed2 := packed2 + [v];
    }

    method WriteByte(b: nat)
      requires Valid() && HEAD_SIZE + pos < raw.Length
      modifies this`pos, this`body, raw
      ensures Valid() && body == old(body) + [b]
    {
      ghost var was := raw[..];
      raw[HEAD_SIZE + pos] := b;
      assert raw[..3] == was[..3];
      assert raw[3..HEAD_SIZE] == was[3..HEAD_SIZE];
      assert raw[HEAD_SIZE..HEAD_SIZE + pos + 1] == was[HEAD_SIZE..HEAD_SIZE + pos] + [b];
      pos := pos + 1;
      body := body + [b];
    }

    method Write(bytes: Bytes)
      requires Valid() && HEAD_SIZE + pos + |bytes| <= raw.Length
      modifies this`pos, this`body, raw
      ensures Valid() && body == old(body) + bytes && pos == old(pos) + |bytes|
    {
      hide Valid;
      Written();
      for i := 0 to |bytes|
        invariant Valid() && body == old(body) + bytes[..i] && pos == old(pos) + i
        invariant packed4 == old(packed4) && packed2 == old(packed2)
      {
        Written();
        WriteByte(bytes[i]);
        Written();
        assert bytes[..i + 1] == bytes[..i] + [bytes[i]];
      }
      assert bytes[..|bytes|] == bytes;
    }

    lemma Written()
      requires Valid()
      ensures |body| == pos && |packed4| == count4 && |packed2| == count2
    {}

    /** Writes a number that fits `size` bytes; returns how many it took. */
    method WriteUintCompact(v: nat, size: nat) returns (n: nat)
      requires Valid() && size >= 1 && v < Pow256(size) && HEAD_SIZE + pos + size <= raw.Length
      modifies this`pos, this`body, raw
      ensures Valid() && body == old(body) + CompactBytes(v) && n == |CompactBytes(v)| && n <= size
              && pos == old(pos) + n
    {
      hide Valid;
      CompactLength(v, size);
      Written();
      var x := v;
      n := 0;
      ghost var done: Bytes := [];
      while true
        invariant Valid() && body == old(body) + done && pos == old(pos) + n && |done| == n
        invariant CompactBytes(v) == done + CompactBytes(x)
        decreases x
      {
        WriteByte(x % 256);
        Written();
        n := n + 1;
        done := done + [x % 256];
        if x / 256 == 0 {
          return;
        }
        x := x / 256;
      }
    }
  }

  lemma Joined(a: Bytes, b: Bytes, c: Bytes)
    ensures a + b + c == a + (b + c)
  {}

  lemma FlatSnoc(ns: seq<nat>, i: nat)
    requires i < |ns|
    ensures Flat(ns[..i + 1]) == Flat(ns[..i]) + CompactBytes(ns[i])
    ensures Sizes(ns[..i + 1]) == Sizes(ns[..i]) + [|CompactBytes(ns[i])| - 1]
  {
    assert ns[..i + 1][..i] == ns[..i];
  }

  lemma FlatNone(ns: seq<nat>)
    ensures Flat(ns[..0]) == [] && Sizes(ns[..0]) == []
  {}

  /** Writes the wide numbers and their sizes. */
  method WriteFields64(enc: Encoder, ns: seq<nat>)
    requires enc.Valid() && enc.packed4 == [] && |ns| <= 6 && (forall i | 0 <= i < |ns| :: ns[i] < Pow256(8))
    requires HEAD_SIZE + enc.pos + 8 * |ns| <= enc.raw.Length
    modifies enc, enc.raw
    ensures enc.Valid() && enc.packed4 == Sizes(ns) && enc.packed2 == old(enc.packed2)
            && enc.body == old(enc.body) + Flat(ns)
    ensures enc.pos <= old(enc.pos) + 8 * |ns|
  {
    hide Encoder.Valid;
    hide Flat;
    hide Pow256;
    hide CompactBytes;
    enc.Written();
    FlatNone(ns);
    for i := 0 to |ns|
      invariant enc.Valid() && enc.packed4 == Sizes(ns[..i]) && enc.packed2 == old(enc.packed2)
      invariant enc.body == old(enc.body) + Flat(ns[..i]) && enc.pos <= old(enc.pos) + 8 * i
    {
      FlatSnoc(ns, i);
      Joined(old(enc.body), Flat(ns[..i]), CompactBytes(ns[i]));
      enc.Written();
      var n := enc.WriteUintCompact(ns[i], 8);
      enc.Written();
      enc.Push4(n - 1);
      enc.Written();
    }
    assert ns[..|ns|] == ns;
  }

  /** Writes the narrow numbers and their sizes. */
  method WriteFields32(enc: Encoder, ns: seq<nat>)
    requires enc.Valid() && enc.packed2 == [] && |ns| <= 12 && (forall i | 0 <= i < |ns| :: ns[i] < Pow256(4))
    requires HEAD_SIZE + enc.pos + 4 * |ns| <= enc.raw.Length
    modifies enc, enc.raw
    ensures enc.Valid() && enc.packed2 == Sizes(ns) && enc.packed4 == old(enc.packed4)
            && enc.body == old(enc.body) + Flat(ns)
    ensures enc.pos <= old(enc.pos) + 4 * |ns|
  {
    hide Encoder.Valid;
    hide Flat;
    hide Pow256;
    hide CompactBytes;
    enc.Written();
    FlatNone(ns);
    for i := 0 to |ns|
      invariant enc.Valid() && enc.packed2 == Sizes(ns[..i]) && enc.packed4 == old(enc.packed4)
      invariant enc.body == old(enc.body) + Flat(ns[..i]) && enc.pos <= old(enc.pos) + 4 * i
    {
      FlatSnoc(ns, i);
      Joined(old(enc.body), Flat(ns[..i]), CompactBytes(ns[i]));
      enc.Written();
      var n := enc.WriteUintCompact(ns[i], 4);
      enc.Written();
      enc.Push2(n - 1);
      enc.Written();
    }
    assert ns[..|ns|] == ns;
  }

  method WriteFlags(enc: Encoder, flags: seq<nat>)
    requires enc.Valid() && |enc.packed2| + |flags| <= 12 && Fit(2, flags)
    modifies enc, enc.raw
    ensures enc.Valid() && enc.packed2 == old(enc.packed2) + flags && enc.packed4 == old(enc.packed4)
    ensures enc.body == old(enc.body) && enc.pos == old(enc.pos)
  {
    hide Encoder.Valid;
    enc.Written();
    for i := 0 to |flags|
      invariant enc.Valid() && enc.packed2 == old(enc.packed2) + flags[..i] && enc.packed4 == old(enc.packed4)
      invariant enc.body == old(enc.body) && enc.pos == old(enc.pos)
    {
      enc.Written();
      enc.Push2(flags[i]);
      assert flags[..i + 1] == flags[..i] + [flags[i]];
    }
    assert flags[..|flags|] == flags;
  }

  method WriteParents(enc: Encoder, parents: seq<Bytes>)
    requires enc.Valid() && forall i | 0 <= i < |parents| :: |parents[i]| == HASH_SIZE
    requires HEAD_SIZE + enc.pos + TAIL_SIZE * |parents| <= enc.raw.Length
    modifies enc, enc.raw
    ensures enc.Valid() && enc.packed2 == old(enc.packed2) && enc.packed4 == old(enc.packed4)
    ensures enc.body == old(enc.body) + Tails(parents) && enc.pos == old(enc.pos) + TAIL_SIZE * |parents|
  {
    hide Encoder.Valid;
    enc.Written();
    assert Tails(parents[..0]) == [];
    for i := 0 to |parents|
      invariant enc.Valid() && enc.packed2 == old(enc.packed2) && enc.packed4 == old(enc.packed4)
      invariant enc.body == old(enc.body) + Tails(parents[..i]) && enc.pos == old(enc.pos) + TAIL_SIZE * i
    {
      assert parents[..i + 1][..i] == parents[..i];
      enc.Write(parents[i][EPOCH_SIZE..]);
      enc.Written();
    }
    assert parents[..|parents|] == parents;
  }

  function MaxBytes(e: Header): (n: nat)
  {
    HEAD_SIZE + 5 * 8 + 7 * 4 + |e.parents| * TAIL_SIZE + HASH_SIZE + HASH_SIZE + |e.extra|
  }

  /** Writes a header. The buffer is never overrun. */
  method MarshalBinary(e: Header, emptyTx: Bytes) returns (raw: Bytes)
    requires WellSized(e)
    ensures raw == Encoded(e, emptyTx) && |raw| <= MaxBytes(e)
    ensures ByteFields(e) ==> AreBytes(raw)
  {
    hide Encoder.Valid;
    hide Flat;
    hide Tails;
    hide ByteFields;
    hide AreBytes;
    hide Packed;
    var enc := new Encoder(MaxBytes(e));
    enc.Written();
    WriteFields64(enc, Fields64(e));
    WriteFields32(enc, Fields32(e));
    enc.Written();
    WriteFlags(enc, Flags(e, emptyTx));
    WriteParents(enc, e.parents);
    if e.prevEpochHash != ZeroHash() {
      enc.Write(e.prevEpochHash);
    }
    enc.Written();
    if e.txHash != emptyTx {
      enc.Write(e.txHash);
    }
    enc.Written();
    enc.Write(e.extra);
    Assembled(e, emptyTx, enc.body);
    raw := Finish(enc);
    if ByteFields(e) {
      EncodedAreBytes(e, emptyTx);
    }
  }

  /** The parts of a header that are bytes already. */
  ghost predicate ByteFields(e: Header)
  {
    && AreBytes(e.prevEpochHash) && AreBytes(e.txHash) && AreBytes(e.extra)
    && forall i | 0 <= i < |e.parents| :: AreBytes(e.parents[i])
  }

  /** The encoding is a string of bytes: no number is too big for its place. */
  lemma EncodedAreBytes(e: Header, emptyTx: Bytes)
    requires WellSized(e) && ByteFields(e)
    ensures AreBytes(Encoded(e, emptyTx))
  {
    hide Flat;
    hide Tails;
    hide Pow256;
    SizesFit(Fields64(e), 8);
    SizesFit(Fields32(e), 4);
    PackedAreBytes(4, Sizes(Fields64(e)), 3);
    PackedAreBytes(2, Sizes(Fields32(e)) + Flags(e, emptyTx), 3);
    FlatAreBytes(Fields64(e));
    FlatAreBytes(Fields32(e));
    TailsAreBytes(e.parents);
  }

  lemma {:induction false} FlatAreBytes(ns: seq<nat>)
    ensures AreBytes(Flat(ns))
  {
    if ns != [] {
      FlatAreBytes(ns[..|ns| - 1]);
      CompactAreBytes(ns[|ns| - 1]);
    }
  }

  lemma {:induction false} TailsAreBytes(parents: seq<Bytes>)
    requires forall i | 0 <= i < |parents| :: |parents[i]| == HASH_SIZE && AreBytes(parents[i])
    ensures AreBytes(Tails(parents))
  {
    if parents != [] {
      TailsAreBytes(parents[..|parents| - 1]);
    }
  }

  method Finish(enc: Encoder) returns (raw: Bytes)
    requires enc.Valid()
    ensures raw == Packed(4, enc.packed4, 3) + Packed(2, enc.packed2, 3) + enc.body && |raw| <= enc.raw.Length
  {
    raw := enc.raw[..HEAD_SIZE + enc.pos];
    assert raw == enc.raw[..3] + enc.raw[3..HEAD_SIZE] + enc.raw[HEAD_SIZE..HEAD_SIZE + enc.pos];
  }

  lemma Assembled(e: Header, emptyTx: Bytes, body: Bytes)
    requires WellSized(e)
    requires body == [] + Flat(Fields64(e)) + Flat(Fields32(e)) + Tails(e.parents)
             + Optional(e.prevEpochHash, ZeroHash()) + Optional(e.txHash, emptyTx) + e.extra
    ensures body == Body(e, emptyTx)
  {}

  // ---------- the decoding ----------

  /** Numbers read so far and where they end, or what is wrong. */
  datatype Numbers = Numbers(vals: seq<nat>, off: nat) | NonCanonical | TooShort

  /** Reads one more number of `n` bytes, keeping it modulo `m`. */
  function ReadUintCompact(body: Bytes, before: Numbers, n: nat, m: nat): (r: Numbers)
    requires n >= 1 && m > 0
  {
    if !before.Numbers? then before
    else if before.off + n > |body| then TooShort
    else
      var b := body[before.off..before.off + n];
      if n > 1 && b[n - 1] == 0 then NonCanonical
      else Numbers(before.vals + [FromLittleEndian(b) % m], before.off + n)
  }

  /** Reads numbers of the given sizes, less one. */
  function ReadNumbers(body: Bytes, off: nat, sizes: seq<nat>, m: nat): (r: Numbers)
    requires m > 0
    ensures r.Numbers? ==> |r.vals| == |sizes| && off <= r.off && (sizes != [] ==> r.off <= |body|)
  {
    if sizes == [] then Numbers([], off)
    else ReadUintCompact(body, ReadNumbers(body, off, sizes[..|sizes| - 1], m), sizes[|sizes| - 1] + 1, m)
  }

  /** The numbers packed in an array, from one place on. */
  function Slots(bits: nat, b: Bytes, from: nat, count: nat): (vals: seq<nat>)
    requires count > 0 ==> ByteOffset(bits, from + count - 1) < |b|
    ensures |vals| == count
  {
    if count == 0 then []
    else
      OffsetMonotone(bits, from + count - 1);
      Slots(bits, b, from, count - 1) + [Slot(bits, b, from + count - 1)]
  }

  lemma OffsetMonotone(bits: nat, k: nat)
    ensures k > 0 ==> ByteOffset(bits, k - 1) <= ByteOffset(bits, k)
  {
    if k > 0 {
      assert (k - 1) * bits <= k * bits;
    }
  }

  /** The parents with the epoch put back. */
  function Parents(body: Bytes, off: nat, epoch: nat, count: nat): (parents: seq<Bytes>)
    requires off + TAIL_SIZE * count <= |body|
    ensures |parents| == count
  {
    if count == 0 then []
    else
      Parents(body, off, epoch, count - 1)
      + [BigEndian(epoch, EPOCH_SIZE) + body[off + TAIL_SIZE * (count - 1)..off + TAIL_SIZE * count]]
  }

  /** What a hash field decodes to: its default if flagged as left out, never the default spelled out. */
  datatype HashField = HashField(value: Bytes, off: nat) | BadHash | NoHash

  function ReadHash(body: Bytes, off: nat, leftOut: bool, absent: Bytes): (r: HashField)
    ensures r.HashField? ==> off <= r.off && (off <= |body| ==> r.off <= |body|)
  {
    if leftOut then HashField(absent, off)
    else if off + HASH_SIZE > |body| then NoHash
    else
      var h := body[off..off + HASH_SIZE];
      if h == absent then BadHash else HashField(h, off + HASH_SIZE)
  }

  /** What follows the numbers. */
  function DecodeRest(body: Bytes, off: nat, n64: seq<nat>, n32: seq<nat>, flags: seq<nat>, emptyTx: Bytes): (r: Result)
    requires |n64| == 5 && |n32| == 7 && |flags| == 3 && off <= |body|
  {
    if off + TAIL_SIZE * n32[6] > |body| then ErrInvalidEncoding
    else
      var prev := ReadHash(body, off + TAIL_SIZE * n32[6], flags[1] != 0, ZeroHash());
      match prev
      case NoHash => ErrInvalidEncoding
      case BadHash => ErrNonCanonicalEncoding
      case HashField(prevHash, o) =>
        var tx := ReadHash(body, o, flags[2] != 0, emptyTx);
        match tx
        case NoHash => ErrInvalidEncoding
        case BadHash => ErrNonCanonicalEncoding
        case HashField(txHash, o') =>
          Decoded(Header(n32[0], n32[1], n32[2], n32[3], flags[0] != 0, n32[4], prevHash,
                         Parents(body, off, n32[1], n32[6]), n64[0], n64[1], n64[2], n32[5], n64[3], n64[4],
                         txHash, body[o'..]))
  }

  function Decode(raw: Bytes, emptyTx: Bytes): (r: Result)
  {
    if |raw| < HEAD_SIZE then ErrInvalidEncoding
    else
      var sizes64, sizes32 := Slots(4, raw[..3], 0, 5), Slots(2, raw[3..HEAD_SIZE], 0, 7);
      var flags := Slots(2, raw[3..HEAD_SIZE], 7, 3);
      var body := raw[HEAD_SIZE..];
      var n64 := ReadNumbers(body, 0, sizes64, TWO_64);
      match n64
      case TooShort => ErrInvalidEncoding
      case NonCanonical => ErrNonCanonicalEncoding
      case Numbers(vals64, off) =>
        var n32 := ReadNumbers(body, off, sizes32, TWO_32);
        match n32
        case TooShort => ErrInvalidEncoding
        case NonCanonical => ErrNonCanonicalEncoding
        case Numbers(vals32, off') => DecodeRest(body, off', vals64, vals32, flags, emptyTx)
  }

  // ---------- decoding what was encoded ----------

  lemma {:induction false} NumbersRoundTrip(pre: Bytes, ns: seq<nat>, post: Bytes, m: nat)
    requires m > 0 && forall i | 0 <= i < |ns| :: ns[i] < m
    ensures ReadNumbers(pre + Flat(ns) + post, |pre|, Sizes(ns), m) == Numbers(ns, |pre| + |Flat(ns)|)
    decreases |ns|
  {
    hide ReadUintCompact;
    hide CompactBytes;
    var body := pre + Flat(ns) + post;
    if ns == [] {
      assert Sizes(ns) == [];
    } else {
      var init, last := ns[..|ns| - 1], ns[|ns| - 1];
      NumbersRoundTrip(pre, init, CompactBytes(last) + post, m);
      SplitBody(pre, Flat(init), CompactBytes(last), post);
      SizesInit(ns);
      ReadOne(body, init, |pre| + |Flat(init)|, last, m);
      assert init + [last] == ns;
    }
  }

  lemma SizesInit(ns: seq<nat>)
    requires ns != []
    ensures Sizes(ns) != [] && Sizes(ns)[..|ns| - 1] == Sizes(ns[..|ns| - 1])
    ensures Sizes(ns)[|ns| - 1] + 1 == |CompactBytes(ns[|ns| - 1])|
  {}

  lemma SplitBody(pre: Bytes, a: Bytes, b: Bytes, post: Bytes)
    ensures pre + (a + b) + post == pre + a + (b + post)
    ensures (pre + (a + b) + post)[|pre| + |a|..|pre| + |a| + |b|] == b
  {}

  lemma ReadOne(body: Bytes, vals: seq<nat>, off: nat, v: nat, m: nat)
    requires m > 0 && v < m && off + |CompactBytes(v)| <= |body|
             && body[off..off + |CompactBytes(v)|] == CompactBytes(v)
    ensures ReadUintCompact(body, Numbers(vals, off), |CompactBytes(v)|, m) ==
              Numbers(vals + [v], off + |CompactBytes(v)|)
  {
    hide FromLittleEndian;
    hide CompactBytes;
    CompactRoundTrip(v);
    CompactIsCanonical(v);
    CompactNotEmpty(v);
    SmallMod(v, m);
  }

  lemma CompactNotEmpty(v: nat)
    ensures |CompactBytes(v)| >= 1
  {}

  lemma SmallMod(v: nat, m: nat)
    requires v < m
    ensures v % m == v
  {}

  lemma {:induction false} SlotsOfPacked(bits: nat, vals: seq<nat>, size: nat, from: nat, count: nat)
    requires Bits(bits) && from + count <= |vals| && (count > 0 ==> ByteOffset(bits, from + count - 1) < size)
    requires forall i | 0 <= i < |vals| :: vals[i] < Limit(bits)
    ensures Slots(bits, Packed(bits, vals, size), from, count) == vals[from..from + count]
  {
    hide Slot;
    hide Limit;
    hide ByteOffset;
    if count > 0 {
      OffsetMonotone(bits, from + count - 1);
      SlotsOfPacked(bits, vals, size, from, count - 1);
      SlotOfPacked(bits, vals, size, from + count - 1);
    }
  }

  lemma {:induction false} ParentsRoundTrip(pre: Bytes, parents: seq<Bytes>, post: Bytes, epoch: nat)
    requires forall i | 0 <= i < |parents| ::
               |parents[i]| == HASH_SIZE && parents[i][..EPOCH_SIZE] == BigEndian(epoch, EPOCH_SIZE)
    ensures |Tails(parents)| == TAIL_SIZE * |parents|
    ensures Parents(pre + Tails(parents) + post, |pre|, epoch, |parents|) == parents
    decreases |parents|
  {
    hide BigEndian;
    if parents != [] {
      var init, last := parents[..|parents| - 1], parents[|parents| - 1];
      var tail := last[EPOCH_SIZE..];
      ParentsRoundTrip(pre, init, tail + post, epoch);
      SplitBody(pre, Tails(init), tail, post);
      HeadAndTail(last);
      assert init + [last] == parents;
    }
  }

  lemma HeadAndTail(h: Bytes)
    requires |h| == HASH_SIZE
    ensures h[..EPOCH_SIZE] + h[EPOCH_SIZE..] == h && |h[EPOCH_SIZE..]| == TAIL_SIZE
  {}

  lemma HashRoundTrip(pre: Bytes, h: Bytes, absent: Bytes, post: Bytes)
    requires |h| == HASH_SIZE
    ensures ReadHash(pre + Optional(h, absent) + post, |pre|, Flag(h == absent) != 0, absent) ==
            HashField(h, |pre| + |Optional(h, absent)|)
  {
    var body := pre + Optional(h, absent) + post;
    if h != absent {
      assert body[|pre|..|pre| + HASH_SIZE] == h;
    }
  }

  lemma RestRoundTrip(pre: Bytes, e: Header, emptyTx: Bytes)
    requires WellSized(e) && ParentsShareEpoch(e)
    ensures DecodeRest(pre + Rest(e, emptyTx), |pre|, Fields64(e), Fields32(e), Flags(e, emptyTx), emptyTx) ==
              Decoded(e)
  {
    hide ReadHash;
    hide Parents;
    hide Tails;
    hide Optional;
    var body := pre + Rest(e, emptyTx);
    var tails, prev, tx := Tails(e.parents), Optional(e.prevEpochHash, ZeroHash()), Optional(e.txHash, emptyTx);
    FourParts(pre, tails, prev, tx, e.extra);
    ParentsRoundTrip(pre, e.parents, prev + tx + e.extra, e.epoch);
    HashRoundTrip(pre + tails, e.prevEpochHash, ZeroHash(), tx + e.extra);
    HashRoundTrip(pre + tails + prev, e.txHash, emptyTx, e.extra);
  }

  lemma FourParts(pre: Bytes, a: Bytes, b: Bytes, c: Bytes, d: Bytes)
    ensures pre + (a + b + c + d) == pre + a + (b + c + d)
    ensures pre + (a + b + c + d) == (pre + a) + b + (c + d)
    ensures pre + (a + b + c + d) == (pre + a + b) + c + d
    ensures (pre + (a + b + c + d))[|pre| + |a| + |b| + |c|..] == d
  {}

  lemma SizesFit(ns: seq<nat>, k: nat)
    requires k >= 1 && forall i | 0 <= i < |ns| :: ns[i] < Pow256(k)
    ensures forall i | 0 <= i < |ns| :: Sizes(ns)[i] < k
  {
    forall i | 0 <= i < |ns|
      ensures Sizes(ns)[i] < k
    {
      CompactLength(ns[i], k);
    }
  }

  lemma Widths()
    ensures Pow256(4) == TWO_32 && Pow256(8) == TWO_64
  {
    assert Pow256(1) == 256 * Pow256(0);
    assert Pow256(2) == 256 * Pow256(1);
    assert Pow256(3) == 256 * Pow256(2);
    assert Pow256(4) == 256 * Pow256(3);
    assert Pow256(5) == 256 * Pow256(4);
    assert Pow256(6) == 256 * Pow256(5);
    assert Pow256(7) == 256 * Pow256(6);
    assert Pow256(8) == 256 * Pow256(7);
  }

  /** What the front of an encoding says. */
  lemma HeadRoundTrip(e: Header, emptyTx: Bytes)
    requires WellSized(e)
    ensures var raw := Encoded(e, emptyTx);
            && |raw| >= HEAD_SIZE && raw[HEAD_SIZE..] == Body(e, emptyTx)
            && Slots(4, raw[..3], 0, 5) == Sizes(Fields64(e))
            && Slots(2, raw[3..HEAD_SIZE], 0, 7) == Sizes(Fields32(e))
            && Slots(2, raw[3..HEAD_SIZE], 7, 3) == Flags(e, emptyTx)
  {
    hide Slots;
    hide Body;
    hide ByteOffset;
    hide CompactBytes;
    hide Pow256;
    var a, b := Sizes(Fields64(e)), Sizes(Fields32(e)) + Flags(e, emptyTx);
    var raw := Encoded(e, emptyTx);
    ThreeParts(Packed(4, a, 3), Packed(2, b, 3), Body(e, emptyTx));
    SizesFit(Fields64(e), 8);
    SizesFit(Fields32(e), 4);
    Offsets();
    SlotsOfPacked(4, a, 3, 0, 5);
    SlotsOfPacked(2, b, 3, 0, 7);
    SlotsOfPacked(2, b, 3, 7, 3);
    assert a[0..0 + 5] == a && b[0..0 + 7] == Sizes(Fields32(e)) && b[7..7 + 3] == Flags(e, emptyTx);
  }

  lemma Offsets()
    ensures ByteOffset(4, 4) == 2 && ByteOffset(2, 6) == 1 && ByteOffset(2, 9) == 2
  {}

  lemma ThreeParts(a: Bytes, b: Bytes, c: Bytes)
    requires |a| == 3 && |b| == 3
    ensures (a + b + c)[..3] == a && (a + b + c)[3..HEAD_SIZE] == b && (a + b + c)[HEAD_SIZE..] == c
  {}

  /** Decoding an encoded header gives the header back, every field of it. */
  lemma RoundTrip(e: Header, emptyTx: Bytes)
    requires WellSized(e) && ParentsShareEpoch(e)
    ensures Decode(Encoded(e, emptyTx), emptyTx) == Decoded(e)
  {
    hide Slots;
    hide DecodeRest;
    hide Encoded;
    hide Pow256;
    hide ReadNumbers;
    HeadRoundTrip(e, emptyTx);
    Widths();
    var a, b, rest := Flat(Fields64(e)), Flat(Fields32(e)), Rest(e, emptyTx);
    BodyParts(a, b, rest);
    NumbersRoundTrip([], Fields64(e), b + rest, TWO_64);
    NumbersRoundTrip(a, Fields32(e), rest, TWO_32);
    RestRoundTrip(a + b, e, emptyTx);
  }

  lemma {:induction false} ParentsGetEpoch(body: Bytes, off: nat, epoch: nat, count: nat, i: nat)
    requires off + TAIL_SIZE * count <= |body| && i < count
    ensures var p := Parents(body, off, epoch, count)[i];
            |p| >= EPOCH_SIZE && p[..EPOCH_SIZE] == BigEndian(epoch, EPOCH_SIZE)
  {
    if i < count - 1 {
      ParentsGetEpoch(body, off, epoch, count - 1, i);
    }
  }

  /** Whatever is decoded, its parents share its epoch. */
  lemma DecodedShareEpoch(raw: Bytes, emptyTx: Bytes)
    ensures Decode(raw, emptyTx).Decoded? ==> ParentsShareEpoch(Decode(raw, emptyTx).header)
  {
    hide Slots;
    hide ReadNumbers;
    hide DecodeRest;
    if Decode(raw, emptyTx).Decoded? {
      var body := raw[HEAD_SIZE..];
      SlotsShape(raw);
      var n64 := ReadNumbers(body, 0, Slots(4, raw[..3], 0, 5), TWO_64);
      NumbersShape(body, 0, Slots(4, raw[..3], 0, 5), TWO_64);
      var n32 := ReadNumbers(body, n64.off, Slots(2, raw[3..HEAD_SIZE], 0, 7), TWO_32);
      NumbersShape(body, n64.off, Slots(2, raw[3..HEAD_SIZE], 0, 7), TWO_32);
      RestSharesEpoch(body, n32.off, n64.vals, n32.vals, Slots(2, raw[3..HEAD_SIZE], 7, 3), emptyTx);
    }
  }

  lemma RestSharesEpoch(body: Bytes, off: nat, n64: seq<nat>, n32: seq<nat>, flags: seq<nat>, emptyTx: Bytes)
    requires |n64| == 5 && |n32| == 7 && |flags| == 3 && off <= |body|
    ensures var r := DecodeRest(body, off, n64, n32, flags, emptyTx); r.Decoded? ==> ParentsShareEpoch(r.header)
  {
    hide Parents;
    if off + TAIL_SIZE * n32[6] <= |body| {
      ParentsShape(body, off, n32[1], n32[6]);
    }
  }

  lemma ParentsShape(body: Bytes, off: nat, epoch: nat, count: nat)
    requires off + TAIL_SIZE * count <= |body|
    ensures var ps := Parents(body, off, epoch, count);
            |ps| == count && forall i {:trigger ps[i]} | 0 <= i < |ps| ::
              |ps[i]| >= EPOCH_SIZE && ps[i][..EPOCH_SIZE] == BigEndian(epoch, EPOCH_SIZE)
  {
    var ps := Parents(body, off, epoch, count);
    forall i | 0 <= i < |ps|
      ensures |ps[i]| >= EPOCH_SIZE && ps[i][..EPOCH_SIZE] == BigEndian(epoch, EPOCH_SIZE)
    {
      ParentsGetEpoch(body, off, epoch, count, i);
    }
  }

  /** A header survives encoding and decoding exactly when its parents share its epoch. */
  lemma RoundTripIff(e: Header, emptyTx: Bytes)
    requires WellSized(e)
    ensures Decode(Encoded(e, emptyTx), emptyTx) == Decoded(e) <==> ParentsShareEpoch(e)
  {
    hide Decode;
    hide Encoded;
    DecodedShareEpoch(Encoded(e, emptyTx), emptyTx);
    if ParentsShareEpoch(e) {
      RoundTrip(e, emptyTx);
    }
  }

  lemma BodyParts(a: Bytes, b: Bytes, c: Bytes)
    ensures a + b + c == [] + a + (b + c)
    ensures a + b + c == (a + b) + c
  {}

  // ---------- reading ----------

  method UnpackSlots(bits: nat, b: Bytes, from: nat, count: nat) returns (vals: seq<nat>)
    requires count > 0 && ByteOffset(bits, from + count - 1) < |b|
    ensures vals == Slots(bits, b, from, count)
  {
    hide Slot;
    hide ByteOffset;
    vals := [];
    for i := 0 to count
      invariant i > 0 ==> ByteOffset(bits, from + i - 1) < |b|
      invariant vals == Slots(bits, b, from, i)
    {
      OffsetUpTo(bits, from + i, from + count - 1);
      vals := vals + [Slot(bits, b, from + i)];
    }
  }

  lemma OffsetUpTo(bits: nat, j: nat, k: nat)
    requires j <= k
    ensures ByteOffset(bits, j) <= ByteOffset(bits, k)
  {
    if j < k {
      OffsetUpTo(bits, j, k - 1);
      OffsetMonotone(bits, k);
    }
  }

  method UnpackNumbers(body: Bytes, off: nat, sizes: seq<nat>, m: nat) returns (r: Numbers)
    requires m > 0
    ensures r == ReadNumbers(body, off, sizes, m)
  {
    hide ReadUintCompact;
    r := Numbers([], off);
    for i := 0 to |sizes|
      invariant r == ReadNumbers(body, off, sizes[..i], m)
    {
      assert sizes[..i + 1][..i] == sizes[..i];
      r := ReadUintCompact(body, r, sizes[i] + 1, m);
    }
    assert sizes[..|sizes|] == sizes;
  }

  method UnpackParents(body: Bytes, off: nat, epoch: nat, count: nat) returns (parents: seq<Bytes>)
    requires off + TAIL_SIZE * count <= |body|
    ensures parents == Parents(body, off, epoch, count)
  {
    parents := [];
    for i := 0 to count
      invariant parents == Parents(body, off, epoch, i)
    {
      parents := parents + [BigEndian(epoch, EPOCH_SIZE) + body[off + TAIL_SIZE * i..off + TAIL_SIZE * (i + 1)]];
    }
  }

  /** Reads a header. */
  method UnmarshalBinary(raw: Bytes, emptyTx: Bytes) returns (r: Result)
    ensures r == Decode(raw, emptyTx)
  {
    hide ReadNumbers;
    hide Slots;
    hide DecodeRest;
    if |raw| < HEAD_SIZE {
      return ErrInvalidEncoding;
    }
    Offsets();
    var sizes64 := UnpackSlots(4, raw[..3], 0, 5);
    var sizes32 := UnpackSlots(2, raw[3..HEAD_SIZE], 0, 7);
    var flags := UnpackSlots(2, raw[3..HEAD_SIZE], 7, 3);
    var body := raw[HEAD_SIZE..];
    var n64 := UnpackNumbers(body, 0, sizes64, TWO_64);
    match n64
    case TooShort => return ErrInvalidEncoding;
    case NonCanonical => return ErrNonCanonicalEncoding;
    case Numbers(vals64, off) =>
      var n32 := UnpackNumbers(body, off, sizes32, TWO_32);
      match n32
      case TooShort => return ErrInvalidEncoding;
      case NonCanonical => return ErrNonCanonicalEncoding;
      case Numbers(vals32, off') =>
        NumbersShape(body, 0, sizes64, TWO_64);
        NumbersShape(body, off, sizes32, TWO_32);
        SlotsShape(raw);
        r := UnmarshalRest(body, off', vals64, vals32, flags, emptyTx);
  }

  lemma NumbersShape(body: Bytes, off: nat, sizes: seq<nat>, m: nat)
    requires m > 0
    ensures var r := ReadNumbers(body, off, sizes, m);
            r.Numbers? ==> |r.vals| == |sizes| && (sizes != [] ==> r.off <= |body|)
  {}

  lemma SlotsShape(raw: Bytes)
    requires |raw| >= HEAD_SIZE
    ensures |Slots(4, raw[..3], 0, 5)| == 5 && |Slots(2, raw[3..HEAD_SIZE], 0, 7)| == 7
            && |Slots(2, raw[3..HEAD_SIZE], 7, 3)| == 3
  {}

  method UnmarshalRest(body: Bytes, off: nat, n64: seq<nat>, n32: seq<nat>, flags: seq<nat>, emptyTx: Bytes)
    returns (r: Result)
    requires |n64| == 5 && |n32| == 7 && |flags| == 3 && off <= |body|
    ensures r == DecodeRest(body, off, n64, n32, flags, emptyTx)
  {
    hide Parents;
    if off + TAIL_SIZE * n32[6] > |body| {
      return ErrInvalidEncoding;
    }
    var parents := UnpackParents(body, off, n32[1], n32[6]);
    var pos := off + TAIL_SIZE * n32[6];
    var prevHash := ZeroHash();
    if flags[1] == 0 {
      if pos + HASH_SIZE > |body| {
        return ErrInvalidEncoding;
      }
      prevHash := body[pos..pos + HASH_SIZE];
      pos := pos + HASH_SIZE;
      if prevHash == ZeroHash() {
        return ErrNonCanonicalEncoding;
      }
    }
    var txHash := emptyTx;
    if flags[2] == 0 {
      if pos + HASH_SIZE > |body| {
        return ErrInvalidEncoding;
      }
      txHash := body[pos..pos + HASH_SIZE];
      pos := pos + HASH_SIZE;
      if txHash == emptyTx {
        return ErrNonCanonicalEncoding;
      }
    }
    return Decoded(Header(n32[0], n32[1], n32[2], n32[3], flags[0] != 0, n32[4], prevHash, parents,
                          n64[0], n64[1], n64[2], n32[5], n64[3], n64[4], txHash, body[pos..]));
  }
}
