/**
 Small things everything uses: optional values, slices of lists and products of numbers.
 */
module Common {
  datatype Option<+T> = None | Some(value: T)

  // ---------- lists ----------

  lemma TakeSnoc<T>(s: seq<T>, i: nat)
    requires i < |s|
    ensures s[..i] + [s[i]] == s[..i + 1]
  {}

  lemma TakeAll<T>(s: seq<T>)
    ensures s[..|s|] == s
  {}

  lemma HasMember<T>(s: seq<T>)
    requires s != []
    ensures exists x :: x in s
  {
    assert s[0] in s;
  }

  lemma AppearsTwice<T>(s: seq<T>, i: nat, j: nat)
    requires i < j < |s| && s[i] == s[j]
    ensures multiset(s)[s[i]] >= 2
  {
    assert s == s[..j] + [s[j]] + s[j + 1..];
    assert s[i] == s[..j][i] && s[i] in s[..j];
  }

  // ---------- numbers ----------

  lemma Expand(x: nat, y: nat, z: nat)
    ensures x * (y + z) == x * y + x * z
  {}

  lemma Distribute(x: int, y: int, z: int)
    ensures (x - y) * z == x * z - y * z
  {}

  lemma MulMonotone(a: nat, x: nat, y: nat)
    requires x <= y
    ensures a * x <= a * y
  {}

  lemma Division(x: nat, n: nat)
    requires n > 0
    ensures x == x / n * n + x % n && x % n < n
  {}
}
