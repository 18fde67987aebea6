/**
 Compact numbers, least significant byte first and no longer than needed, and arrays of small
 numbers packed into bytes.
 */
module CompactCoding {
  import opened Common
  import opened ByteStrings

  // ---------- numbers ----------

  /** The bytes of a number, least significant first, without leading zeros but at least one. */
  function CompactBytes(v: nat): (b: Bytes)
    ensures |b| >= 1
  {
    if v < 256 then [v] else [v % 256] + CompactBytes(v / 256)
  }

  function FromLittleEndian(b: Bytes): (v: nat)
  {
    if b == [] then 0 else b[0] + 256 * FromLittleEndian(b[1..])
  }

  lemma {:induction false} CompactRoundTrip(v: nat)
    ensures FromLittleEndian(CompactBytes(v)) == v
  {
    if v < 256 {
      assert FromLittleEndian([v]) == v + 256 * FromLittleEndian([]);
    } else {
      CompactRoundTrip(v / 256);
      assert CompactBytes(v)[1..] == CompactBytes(v / 256);
    }
  }

  /** A number takes at most `k` bytes exactly when it is below 256^k: its length is minimal. */
  lemma {:induction false} CompactLength(v: nat, k: nat)
    requires k >= 1
    ensures |CompactBytes(v)| <= k <==> v < Pow256(k)
  {
    if v < 256 {
      Pow256Grows(k);
    } else if k > 1 {
      CompactLength(v / 256, k - 1);
    } else {
      assert Pow256(1) == 256 * Pow256(0);
    }
  }

  lemma {:induction false} Pow256Grows(k: nat)
    requires k >= 1
    ensures Pow256(k) >= 256
  {
    if k > 1 {
      Pow256Grows(k - 1);
    } else {
      assert Pow256(1) == 256 * Pow256(0);
    }
  }

  /** The i-th byte is the i-th digit to the base 256. */
  lemma {:induction false} CompactDigit(v: nat, i: nat)
    requires i < |CompactBytes(v)|
    ensures CompactBytes(v)[i] == v / Pow256(i) % 256
  {
    if i > 0 {
      CompactDigit(v / 256, i - 1);
      DivideTwice(v, Pow256(i - 1));
    } else {
      assert v / Pow256(0) == v;
    }
  }

  lemma DivideTwice(v: nat, n: nat)
    requires n > 0
    ensures v / 256 / n == v / (256 * n)
  {
    var q := v / 256 / n;
    Division(v, 256);
    Division(v / 256, n);
    assert v == 256 * n * q + 256 * (v / 256 % n) + v % 256;
    Quotient(v, 256 * n, q, 256 * (v / 256 % n) + v % 256);
  }

  lemma Quotient(v: nat, n: nat, q: nat, r: nat)
    requires n > 0 && v == n * q + r && r < n
    ensures v / n == q
  {
    Division(v, n);
    var p := v / n;
    if p < q {
      MulMonotone(n, p + 1, q);
    } else if p > q {
      MulMonotone(n, q + 1, p);
    }
  }

  lemma {:induction false} CompactAreBytes(v: nat)
    ensures AreBytes(CompactBytes(v))
  {
    if v >= 256 {
      CompactAreBytes(v / 256);
    }
  }

  /** A longer number does not end in a zero byte, which is what the reader checks. */
  lemma {:induction false} CompactIsCanonical(v: nat)
    ensures |CompactBytes(v)| > 1 ==> CompactBytes(v)[|CompactBytes(v)| - 1] != 0
  {
    if v >= 256 {
      CompactIsCanonical(v / 256);
    }
  }

  // ---------- packed arrays ----------

  function At(vals: seq<nat>, k: nat): (v: nat)
  {
    if k < |vals| then vals[k] else 0
  }

  /** The i-th byte of numbers packed with 4 or 2 bits each, the first in the lowest bits. */
  function PackedByte(bits: nat, vals: seq<nat>, i: nat): (b: nat)
  {
    if bits == 4 then At(vals, 2 * i) + 16 * At(vals, 2 * i + 1)
    else At(vals, 4 * i) + 4 * At(vals, 4 * i + 1) + 16 * At(vals, 4 * i + 2) + 64 * At(vals, 4 * i + 3)
  }

  function Packed(bits: nat, vals: seq<nat>, size: nat): (b: Bytes)
    ensures |b| == size
    ensures forall i | 0 <= i < size :: b[i] == PackedByte(bits, vals, i)
  {
    seq(size, i requires 0 <= i => PackedByte(bits, vals, i))
  }

  predicate Bits(bits: nat)
  {
    bits == 2 || bits == 4
  }

  /** The largest number of the bits, plus one. */
  function Limit(bits: nat): (n: nat)
    ensures n > 0
  {
    if bits == 4 then 16 else 4
  }

  /** The byte of the k-th number. */
  function ByteOffset(bits: nat, k: nat): (i: nat)
  {
    k * bits / 8
  }

  /** What a number at its place in the byte is shifted by, as a factor. */
  function Shift(bits: nat, k: nat): (f: nat)
    ensures f > 0
  {
    var part := k * bits % 8;
    if part == 0 then 1 else if part == 2 then 4 else if part == 4 then 16 else 64
  }

  /** Where the k-th number goes. */
  lemma Place(bits: nat, k: nat)
    requires Bits(bits)
    ensures bits == 4 ==> ByteOffset(bits, k) == k / 2 && Shift(bits, k) == (if k % 2 == 0 then 1 else 16)
    ensures bits == 2 ==> ByteOffset(bits, k) == k / 4
                          && Shift(bits, k) == (if k % 4 == 0 then 1 else if k % 4 == 1 then 4
                                                else if k % 4 == 2 then 16 else 64)
  {}

  /** All numbers fit their slots. */
  predicate Fit(bits: nat, vals: seq<nat>)
  {
    forall i | 0 <= i < |vals| :: vals[i] < Limit(bits)
  }

  /** The bits of the next number and those above it are still zero, so that setting them is adding;
      the number stays within its slot, and the byte a byte, exactly if it fits. */
  lemma SlotIsFree(bits: nat, vals: seq<nat>, v: nat)
    requires Bits(bits) && Fit(bits, vals)
    ensures var b, f := PackedByte(bits, vals, ByteOffset(bits, |vals|)), Shift(bits, |vals|);
            && b < f && f * Limit(bits) <= 256
            && (b + v * f < f * Limit(bits) <==> v < Limit(bits))
  {
    var k := |vals|;
    var i := ByteOffset(bits, k);
    Place(bits, k);
    var b, f := PackedByte(bits, vals, i), Shift(bits, k);
    if bits == 4 {
      assert At(vals, 2 * i) < 16 && At(vals, 2 * i + 1) == 0;
    } else {
      assert At(vals, 4 * i) < 4 && At(vals, 4 * i + 1) < 4 && At(vals, 4 * i + 2) < 4 && At(vals, 4 * i + 3) == 0;
    }
    assert b < f;
    WithinSlot(b, v, f, Limit(bits));
  }

  lemma WithinSlot(b: nat, v: nat, f: nat, n: nat)
    requires b < f
    ensures b + v * f < f * n <==> v < n
  {
    if v < n {
      MulMonotone(f, v + 1, n);
      Expand(f, v, 1);
    } else {
      MulMonotone(f, n, v);
    }
  }

  /** Packed numbers that fit are bytes. */
  lemma PackedAreBytes(bits: nat, vals: seq<nat>, size: nat)
    requires Bits(bits) && Fit(bits, vals)
    ensures AreBytes(Packed(bits, vals, size))
  {
    forall i | 0 <= i < size
      ensures PackedByte(bits, vals, i) < 256
    {
      assert forall k: nat :: At(vals, k) < Limit(bits);
    }
  }

  /** Adding a number's shifted bits to the byte they belong to packs it. After numbers that fit, the bits
      were zero before, and the number keeps to its own bits exactly if it fits. */
  lemma PushPacks(bits: nat, vals: seq<nat>, v: nat, size: nat)
    requires Bits(bits) && ByteOffset(bits, |vals|) < size
    ensures var i := ByteOffset(bits, |vals|);
            Packed(bits, vals + [v], size) ==
              Packed(bits, vals, size)[i := Packed(bits, vals, size)[i] + v * Shift(bits, |vals|)]
    ensures Fit(bits, vals) ==>
              var b, f := Packed(bits, vals, size)[ByteOffset(bits, |vals|)], Shift(bits, |vals|);
              && b < f && f * Limit(bits) <= 256
              && (b + v * f < f * Limit(bits) <==> v < Limit(bits))
  {
    if Fit(bits, vals) {
      SlotIsFree(bits, vals, v);
    }
    var k := |vals|;
    var i := ByteOffset(bits, k);
    Place(bits, k);
    forall j: nat | j < size
      ensures PackedByte(bits, vals + [v], j) == PackedByte(bits, vals, j) + if j == i then v * Shift(bits, k) else 0
    {
      if bits == 4 {
        Push4(vals, v, j);
      } else {
        Push2(vals, v, j);
      }
    }
  }

  lemma Push4(vals: seq<nat>, v: nat, j: nat)
    ensures PackedByte(4, vals + [v], j) == PackedByte(4, vals, j) +
            if j == |vals| / 2 then v * (if |vals| % 2 == 0 then 1 else 16) else 0
  {}

  lemma Push2(vals: seq<nat>, v: nat, j: nat)
    ensures PackedByte(2, vals + [v], j) == PackedByte(2, vals, j) +
            if j == |vals| / 4 then v * (if |vals| % 4 == 0 then 1 else if |vals| % 4 == 1 then 4
                                         else if |vals| % 4 == 2 then 16 else 64)
            else 0
  {}

  /** Reading the k-th number of a packed array. */
  function Slot(bits: nat, b: Bytes, k: nat): (v: nat)
    requires ByteOffset(bits, k) < |b|
  {
    b[ByteOffset(bits, k)] / Shift(bits, k) % Limit(bits)
  }

  lemma SlotOfPacked(bits: nat, vals: seq<nat>, size: nat, k: nat)
    requires Bits(bits) && k < |vals| && ByteOffset(bits, k) < size
    requires forall i | 0 <= i < |vals| :: vals[i] < Limit(bits)
    ensures Slot(bits, Packed(bits, vals, size), k) == vals[k]
  {
    Place(bits, k);
    var i := ByteOffset(bits, k);
    if bits == 4 {
      Nibbles(At(vals, 2 * i), At(vals, 2 * i + 1));
    } else {
      Quarters(At(vals, 4 * i), At(vals, 4 * i + 1), At(vals, 4 * i + 2), At(vals, 4 * i + 3));
    }
  }

  lemma Nibbles(a: nat, b: nat)
    requires a < 16 && b < 16
    ensures (a + 16 * b) / 1 % 16 == a && (a + 16 * b) / 16 % 16 == b
  {}

  lemma Quarters(a: nat, b: nat, c: nat, d: nat)
    requires a < 4 && b < 4 && c < 4 && d < 4
    ensures var x := a + 4 * b + 16 * c + 64 * d; x / 1 % 4 == a && x / 4 % 4 == b && x / 16 % 4 == c && x / 64 % 4 == d
  {
    Quarter(a, b + 4 * c + 16 * d);
    Quarter(b, c + 4 * d);
    Quarter(c, d);
    Sixteenth(a + 4 * b, c + 4 * d);
    SixtyFourth(a + 4 * b + 16 * c, d);
  }

  lemma Quarter(a: nat, rest: nat)
    requires a < 4
    ensures (a + 4 * rest) % 4 == a && (a + 4 * rest) / 4 == rest
  {}

  lemma Sixteenth(a: nat, rest: nat)
    requires a < 16
    ensures (a + 16 * rest) / 16 == rest
  {}

  lemma SixtyFourth(a: nat, rest: nat)
    requires a < 64
    ensures (a + 64 * rest) / 64 == rest
  {}
}
