/** Bytes, byte strings and fixed-width integers. */
module ByteSeqs {
  type byte = x: int | 0 <= x < 256

  type Bytes = seq<byte>

  const U32_LIMIT := 0x1_0000_0000

  function Zeros(n: nat): (r: Bytes)
    ensures |r| == n
    ensures forall i :: 0 <= i < n ==> r[i] == 0
  {
    seq(n, _ => 0)
  }

  lemma JoinSlices<T>(s: seq<T>, a: nat, b: nat, c: nat)
    requires a <= b <= c <= |s|
    ensures s[a..b] + s[b..c] == s[a..c]
  {
  }

  /** Big-endian encoding of a 32-bit number. */
  function U32(n: nat): (r: Bytes)
    requires n < U32_LIMIT
    ensures |r| == 4
  {
    [n / 0x1_0000 / 0x100, n / 0x1_0000 % 0x100, n % 0x1_0000 / 0x100, n % 0x1_0000 % 0x100]
  }

  function ParseU32(b: Bytes): (n: nat)
    requires |b| == 4
    ensures n < U32_LIMIT
  {
    var b0: int, b1: int, b2: int, b3: int := b[0], b[1], b[2], b[3];
    (b0 * 0x100 + b1) * 0x1_0000 + b2 * 0x100 + b3
  }

  lemma U32RoundTrip(n: nat)
    requires n < U32_LIMIT
    ensures ParseU32(U32(n)) == n
  {
  }

  /** The most significant byte comes first: encodings are ordered like the numbers. */
  lemma U32Order(a: nat, b: nat)
    requires a < b < U32_LIMIT
    ensures Less(U32(a), U32(b))
  {
    var x, y := U32(a), U32(b);
    var k := if x[0] != y[0] then 0 else if x[1] != y[1] then 1 else if x[2] != y[2] then 2 else 3;
    assert x[..k] == y[..k] && x[k] < y[k];
    CompareAt(x, y, k);
  }

  /** Lexicographic comparison: -1, 0 or 1. */
  function Compare(a: Bytes, b: Bytes): (r: int)
    decreases |a|
  {
    if a == [] then (if b == [] then 0 else -1)
    else if b == [] then 1
    else if a[0] < b[0] then -1
    else if a[0] > b[0] then 1
    else Compare(a[1..], b[1..])
  }

  predicate Less(a: Bytes, b: Bytes) {
    Compare(a, b) < 0
  }

  predicate Leq(a: Bytes, b: Bytes) {
    Compare(a, b) <= 0
  }

  lemma {:induction false} CompareEqual(a: Bytes, b: Bytes)
    ensures Compare(a, b) == 0 <==> a == b
    decreases |a|
  {
    if a != [] && b != [] {
      CompareEqual(a[1..], b[1..]);
      assert a == [a[0]] + a[1..] && b == [b[0]] + b[1..];
    }
  }

  lemma {:induction false} CompareAntisymmetric(a: Bytes, b: Bytes)
    ensures Compare(a, b) == -Compare(b, a)
    decreases |a|
  {
    if a != [] && b != [] {
      CompareAntisymmetric(a[1..], b[1..]);
    }
  }

  lemma {:induction false} LeqTransitive(a: Bytes, b: Bytes, c: Bytes)
    requires Leq(a, b) && Leq(b, c)
    ensures Leq(a, c)
    ensures Less(a, b) || Less(b, c) ==> Less(a, c)
    decreases |a|
  {
    if a != [] && b != [] && c != [] && a[0] == b[0] && b[0] == c[0] {
      LeqTransitive(a[1..], b[1..], c[1..]);
    }
  }

  /** Strings that agree before position k are ordered by what stands there. */
  lemma {:induction false} CompareAt(a: Bytes, b: Bytes, k: nat)
    requires k < |a| && k < |b| && a[..k] == b[..k] && a[k] < b[k]
    ensures Less(a, b)
    decreases k
  {
    if k > 0 {
      assert a[0] == a[..k][0] == b[..k][0] == b[0];
      assert a[1..][..k - 1] == a[..k][1..] == b[1..][..k - 1];
      CompareAt(a[1..], b[1..], k - 1);
    }
  }
}
