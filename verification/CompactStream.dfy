/** Where the bytes of a stream of delimited units go in a sequence of compact shares. */
module CompactStream {
  import opened ByteSeqs
  import opened Namespaces
  import opened ShareFormat
  import opened ShareRange
  import Varint

  /** Content bytes of the k-th compact share. */
  function Capacity(k: nat): (n: nat)
    ensures n == SHARE_SIZE - HeaderSize(true, k == 0)
  {
    if k == 0 then FIRST_COMPACT_CONTENT else CONTINUATION_COMPACT_CONTENT
  }

  /** Content bytes in front of the k-th compact share. */
  function Offset(k: nat): (n: nat)
  {
    if k == 0 then 0 else FIRST_COMPACT_CONTENT + CONTINUATION_COMPACT_CONTENT * (k - 1)
  }

  lemma OffsetNext(k: nat)
    ensures Offset(k + 1) == Offset(k) + Capacity(k)
  {
  }

  lemma {:induction false} OffsetMonotone(j: nat, k: nat)
    requires j <= k
    ensures Offset(j) <= Offset(k)
    ensures j < k ==> Offset(j + 1) <= Offset(k)
  {
  }

  /** The number of compact shares that `n` bytes take up. */
  function SharesFor(n: nat): (r: nat)
    ensures r == 0 <==> n == 0
    ensures r > 0 ==> Offset(r - 1) < n <= Offset(r)
  {
    if n == 0 then 0
    else if n <= FIRST_COMPACT_CONTENT then 1
    else 2 + (n - FIRST_COMPACT_CONTENT - 1) / CONTINUATION_COMPACT_CONTENT
  }

  lemma SharesForUnique(n: nat, k: nat)
    requires k > 0 && Offset(k - 1) < n <= Offset(k)
    ensures SharesFor(n) == k
  {
    if SharesFor(n) < k {
      OffsetMonotone(SharesFor(n), k - 1);
    } else if SharesFor(n) > k {
      OffsetMonotone(k, SharesFor(n) - 1);
    }
  }

  lemma ShareOrder(n: nat, k: nat)
    requires n > 0
    ensures k < SharesFor(n) <==> Offset(k) < n
  {
    var r := SharesFor(n);
    if k < r {
      OffsetMonotone(k, r - 1);
    } else {
      OffsetMonotone(r, k);
    }
  }

  lemma SharesForMonotone(a: nat, b: nat)
    requires a <= b
    ensures SharesFor(a) <= SharesFor(b)
  {
  }

  /** The shares that hold the non-empty stretch of the stream from byte `start` up to byte `end`. */
  function Span(start: nat, end: nat): (r: Range)
  {
    Range(SharesFor(start + 1) - 1, SharesFor(end))
  }

  /** The first of the increasing offsets `starts` that lies in [lo, hi), or -1. */
  function FirstIn(starts: seq<nat>, lo: nat, hi: nat): (r: int)
    ensures r == -1 || (lo <= r < hi && r in starts)
  {
    if starts == [] then -1
    else
      var before := FirstIn(starts[..|starts| - 1], lo, hi);
      var last := starts[|starts| - 1];
      if before != -1 then before
      else if lo <= last < hi then last
      else -1
  }

  ghost predicate Increasing(starts: seq<nat>) {
    forall i, j :: 0 <= i < j < |starts| ==> starts[i] < starts[j]
  }

  /** FirstIn really is the least offset in the window, and -1 means that there is none. */
  lemma {:induction false} FirstInIsFirst(starts: seq<nat>, lo: nat, hi: nat, s: nat)
    requires Increasing(starts) && s in starts && lo <= s < hi
    ensures 0 <= FirstIn(starts, lo, hi) <= s
  {
    var init := starts[..|starts| - 1];
    if s in init {
      FirstInIsFirst(init, lo, hi, s);
    } else {
      var before := FirstIn(init, lo, hi);
      assert before != -1 ==> before in init;
    }
  }

  /** The reserved bytes of the k-th share: the byte index of the first unit that starts in it, or 0. */
  function Reserved(starts: seq<nat>, k: nat): (r: nat)
    ensures r < SHARE_SIZE
  {
    OffsetNext(k);
    var s := FirstIn(starts, Offset(k), Offset(k + 1));
    if s == -1 then 0 else HeaderSize(true, k == 0) + (s - Offset(k))
  }

  /** The k-th share of a stream that reaches to its end. */
  function ShareAt(ns: Bytes, data: Bytes, starts: seq<nat>, sequenceLen: nat, k: nat): (s: Share)
    requires |ns| == NAMESPACE_SIZE && sequenceLen < U32_LIMIT && Offset(k + 1) <= |data|
  {
    OffsetNext(k);
    CompactLayout(ns, 0, k == 0, if k == 0 then sequenceLen else 0, Reserved(starts, k), data[Offset(k)..Offset(k + 1)])
  }

  /** The start of the k-th share when the stream ends in it. */
  function PendingAt(ns: Bytes, data: Bytes, starts: seq<nat>, k: nat): (r: Bytes)
    requires |ns| == NAMESPACE_SIZE && Offset(k) <= |data|
  {
    CompactLayout(ns, 0, k == 0, 0, Reserved(starts, k), data[Offset(k)..])
  }

  /** All shares of a stream that fills them exactly. */
  function SharesOf(ns: Bytes, data: Bytes, starts: seq<nat>, sequenceLen: nat, n: nat): (r: seq<Share>)
    requires |ns| == NAMESPACE_SIZE && sequenceLen < U32_LIMIT && Offset(n) <= |data|
    ensures |r| == n
  {
    seq(n, k requires 0 <= k < n => OffsetMonotone(k, n); ShareAt(ns, data, starts, sequenceLen, k))
  }

  /** Complete shares are not affected by what follows them in the stream. */
  lemma ShareAtStable(ns: Bytes, data: Bytes, more: Bytes, starts: seq<nat>, sequenceLen: nat, k: nat)
    requires |ns| == NAMESPACE_SIZE && sequenceLen < U32_LIMIT && Offset(k + 1) <= |data|
    ensures ShareAt(ns, data + more, starts, sequenceLen, k) == ShareAt(ns, data, starts, sequenceLen, k)
  {
    OffsetNext(k);
    assert (data + more)[Offset(k)..Offset(k + 1)] == data[Offset(k)..Offset(k + 1)];
  }

  lemma ReservedStable(starts: seq<nat>, s: nat, k: nat)
    requires Offset(k + 1) <= s
    ensures Reserved(starts + [s], k) == Reserved(starts, k)
  {
    assert (starts + [s])[..|starts|] == starts;
  }

  /** The shares of a stream extended at its end. */
  lemma SharesOfStable(ns: Bytes, data: Bytes, more: Bytes, starts: seq<nat>, sequenceLen: nat, n: nat)
    requires |ns| == NAMESPACE_SIZE && sequenceLen < U32_LIMIT && Offset(n) <= |data|
    ensures SharesOf(ns, data + more, starts, sequenceLen, n) == SharesOf(ns, data, starts, sequenceLen, n)
  {
    forall k | 0 <= k < n
      ensures SharesOf(ns, data + more, starts, sequenceLen, n)[k] == SharesOf(ns, data, starts, sequenceLen, n)[k]
    {
      OffsetMonotone(k, n);
      ShareAtStable(ns, data, more, starts, sequenceLen, k);
    }
  }

  /** A unit that starts after the shares leaves their reserved bytes alone. */
  lemma SharesOfNewStart(ns: Bytes, data: Bytes, starts: seq<nat>, s: nat, sequenceLen: nat, n: nat)
    requires |ns| == NAMESPACE_SIZE && sequenceLen < U32_LIMIT && Offset(n) <= |data| && Offset(n) <= s
    ensures SharesOf(ns, data, starts + [s], sequenceLen, n) == SharesOf(ns, data, starts, sequenceLen, n)
  {
    forall k | 0 <= k < n
      ensures SharesOf(ns, data, starts + [s], sequenceLen, n)[k] == SharesOf(ns, data, starts, sequenceLen, n)[k]
    {
      OffsetMonotone(k, n);
      ReservedStable(starts, s, k);
    }
  }

  // ----- units -----

  /** The delimited units one after the other. */
  function Stream(units: seq<Bytes>): (r: Bytes)
  {
    if units == [] then [] else Stream(units[..|units| - 1]) + Varint.Delimited(units[|units| - 1])
  }

  /** Where every unit starts in the stream. */
  function Starts(units: seq<Bytes>): (r: seq<nat>)
    ensures |r| == |units|
  {
    if units == [] then [] else Starts(units[..|units| - 1]) + [|Stream(units[..|units| - 1])|]
  }

  lemma StreamSnoc(units: seq<Bytes>, u: Bytes)
    ensures Stream(units + [u]) == Stream(units) + Varint.Delimited(u)
    ensures Starts(units + [u]) == Starts(units) + [|Stream(units)|]
  {
    assert (units + [u])[..|units|] == units;
  }
}
