/**
 Strings of bytes, and numbers in big-endian form.
 */
module ByteStrings {
  type Bytes = seq<nat>

  const HASH_SIZE: nat := 32

  function ZeroHash(): (h: Bytes)
    ensures |h| == HASH_SIZE
  {
    seq(HASH_SIZE, _ => 0)
  }

  function Pow256(k: nat): (p: nat)
    ensures p > 0
  {
    if k == 0 then 1 else 256 * Pow256(k - 1)
  }

  /** The lowest `k` bytes of a number, most significant first. */
  function BigEndian(n: nat, k: nat): (b: Bytes)
    ensures |b| == k
    ensures forall i | 0 <= i < k :: b[i] < 256
  {
    if k == 0 then [] else BigEndian(n / 256, k - 1) + [n % 256]
  }

  function FromBigEndian(b: Bytes): (n: nat)
  {
    if b == [] then 0 else 256 * FromBigEndian(b[..|b| - 1]) + b[|b| - 1]
  }

  lemma {:induction false} BigEndianRoundTrip(n: nat, k: nat)
    requires n < Pow256(k)
    ensures FromBigEndian(BigEndian(n, k)) == n
  {
    if k > 0 {
      BigEndianRoundTrip(n / 256, k - 1);
      var b := BigEndian(n, k);
      assert b[..k - 1] == BigEndian(n / 256, k - 1);
    }
  }

  /** Every entry is a byte. */
  predicate AreBytes(b: Bytes)
  {
    forall i | 0 <= i < |b| :: b[i] < 256
  }

  predicate IsHash(h: Bytes)
  {
    |h| == HASH_SIZE && AreBytes(h)
  }

  /** The hashes of the numbers below `n`. */
  ghost function FirstHashes(n: nat): (hashes: set<Bytes>)
  {
    set k | 0 <= k < n :: BigEndian(k, HASH_SIZE)
  }

  lemma {:induction false} FirstHashesSize(n: nat)
    requires n <= Pow256(HASH_SIZE)
    ensures |FirstHashes(n)| == n
  {
    hide Pow256;
    hide BigEndian;
    if n > 0 {
      var fewer, h := FirstHashes(n - 1), BigEndian(n - 1, HASH_SIZE);
      FirstHashesSize(n - 1);
      if h in fewer {
        var k :| 0 <= k < n - 1 && h == BigEndian(k, HASH_SIZE);
        BigEndianRoundTrip(n - 1, HASH_SIZE);
        BigEndianRoundTrip(k, HASH_SIZE);
        assert false;
      }
      assert FirstHashes(n) == fewer + {h};
    }
  }

  lemma {:induction false} Unlisted(some: set<Bytes>, listed: seq<Bytes>) returns (h: Bytes)
    requires |some| > |listed|
    ensures h in some && h !in listed
  {
    if listed == [] {
      h :| h in some;
    } else {
      h := Unlisted(some - {listed[0]}, listed[1..]);
    }
  }

  /** A list shorter than there are hashes lacks one. */
  lemma FreshHash(listed: seq<Bytes>) returns (h: Bytes)
    requires |listed| < Pow256(HASH_SIZE)
    ensures IsHash(h) && h !in listed
  {
    hide Pow256;
    FirstHashesSize(|listed| + 1);
    h := Unlisted(FirstHashes(|listed| + 1), listed);
    var k :| 0 <= k < |listed| + 1 && h == BigEndian(k, HASH_SIZE);
  }
}
