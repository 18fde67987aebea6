/**
 Machine integers: values kept modulo 2^64, read as unsigned or as two's complement.
 */
module Wrapping {
  const TWO_63: int := 0x8000_0000_0000_0000
  const TWO_64: int := 0x1_0000_0000_0000_0000
  const TWO_32: int := 0x1_0000_0000
  const MAX_INT64: int := TWO_63 - 1

  /** Keeps the low 64 bits as an unsigned number. */
  function U64(x: int): (u: nat)
    ensures u < TWO_64
  {
    x % TWO_64
  }

  /** Keeps the low 64 bits as a signed number. */
  function I64(x: int): (i: int)
    ensures -TWO_63 <= i < TWO_63
  {
    (x + TWO_63) % TWO_64 - TWO_63
  }

  /** Two numbers with the same low 64 bits. */
  ghost predicate SameBits(x: int, y: int)
  {
    exists k: int :: Apart(x, y, k)
  }

  predicate Apart(x: int, y: int, k: int)
  {
    x == y + k * TWO_64
  }

  lemma WrapSigned(x: int)
    ensures SameBits(I64(x), x)
  {
    assert Apart(I64(x), x, -((x + TWO_63) / TWO_64));
  }

  lemma WrapUnsigned(x: int)
    ensures SameBits(U64(x), x)
  {
    assert Apart(U64(x), x, -(x / TWO_64));
  }

  lemma SameBitsAdd(x: int, y: int, u: int, v: int)
    requires SameBits(x, y) && SameBits(u, v)
    ensures SameBits(x + u, y + v) && SameBits(x - u, y - v)
  {
    var k, l :| Apart(x, y, k) && Apart(u, v, l);
    assert Apart(x + u, y + v, k + l);
    assert Apart(x - u, y - v, k - l);
  }

  lemma SameBitsScale(a: int, x: int, y: int)
    requires SameBits(x, y)
    ensures SameBits(a * x, a * y)
  {
    var k :| Apart(x, y, k);
    ScaleApart(a, x, y, k);
  }

  lemma ScaleApart(a: int, x: int, y: int, k: int)
    requires Apart(x, y, k)
    ensures Apart(a * x, a * y, a * k)
  {
    assert a * (y + k * TWO_64) == a * y + a * k * TWO_64;
  }

  lemma SameBitsTrans(x: int, y: int, z: int)
    requires SameBits(x, y) && SameBits(y, z)
    ensures SameBits(x, z)
  {
    var k, l :| Apart(x, y, k) && Apart(y, z, l);
    assert Apart(x, z, k + l);
  }

  /** Unsigned numbers with the same bits are equal. */
  lemma SameBitsEqual(x: int, y: int)
    requires SameBits(x, y) && 0 <= x < TWO_64 && 0 <= y < TWO_64
    ensures x == y
  {
    var k :| Apart(x, y, k);
  }

  lemma SameBitsEqualSigned(x: int, y: int)
    requires SameBits(x, y) && -TWO_63 <= x < TWO_63 && -TWO_63 <= y < TWO_63
    ensures x == y
  {
    var k :| Apart(x, y, k);
  }

  /** Reading a signed sum as unsigned gives the true value whenever that fits. */
  lemma SameBitsUnsigned(x: int, y: int)
    requires SameBits(x, y)
    ensures U64(I64(x)) == U64(y)
  {
    WrapSigned(x);
    WrapUnsigned(I64(x));
    SameBitsTrans(U64(I64(x)), I64(x), x);
    SameBitsTrans(U64(I64(x)), x, y);
    WrapUnsigned(y);
    SameBitsSym(U64(y), y);
    SameBitsTrans(U64(I64(x)), y, U64(y));
    SameBitsEqual(U64(I64(x)), U64(y));
  }

  lemma SameBitsSym(x: int, y: int)
    requires SameBits(x, y)
    ensures SameBits(y, x)
  {
    var k :| Apart(x, y, k);
    assert Apart(y, x, -k);
  }

  lemma U64Fits(x: int)
    requires 0 <= x < TWO_64
    ensures U64(x) == x
  {}
}
