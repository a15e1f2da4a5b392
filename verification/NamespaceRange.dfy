/** Finding the shares of a namespace (pkg/shares/namespace.go, pkg/shares/range.go). */
module NamespaceRange {
  import opened ShareRange
  import opened ByteSeqs
  import opened Namespaces
  import opened Results
  import opened ShareFormat
  import opened Blobs
  import opened SquareLayout
  import SquarePlacement
  import opened SquareTheorems

  /** The linear scan from share `i` on; `start` is where the namespace was first seen, or -1. */
  function Scan(shares: seq<Share>, ns: Bytes, i: nat, start: int): (r: Result<Range>)
    requires i <= |shares| && -1 <= start < i
    ensures r.Ok? ==> r.value.start <= r.value.end <= |shares|
    decreases |shares| - i
  {
    if i == |shares| then Ok(if start == -1 then EMPTY_RANGE else Range(start, |shares|))
    else if !Supported(NamespaceBytes(shares[i])) then Err(UnsupportedNamespace)
    else if Less(ns, NamespaceBytes(shares[i])) && start != -1 then Ok(Range(start, i))
    else Scan(shares, ns, i + 1, if NamespaceBytes(shares[i]) == ns && start == -1 then i else start)
  }

  function RangeFor(shares: seq<Share>, ns: Bytes): (r: Result<Range>)
    ensures r.Ok? ==> r.value.start <= r.value.end <= |shares|
  {
    if shares == [] then Ok(EMPTY_RANGE)
    else if !Supported(NamespaceBytes(shares[0])) then Err(UnsupportedNamespace)
    else if Less(ns, NamespaceBytes(shares[0])) then Ok(EMPTY_RANGE)
    else if !Supported(NamespaceBytes(shares[|shares| - 1])) then Err(UnsupportedNamespace)
    else if Less(NamespaceBytes(shares[|shares| - 1]), ns) then Ok(EMPTY_RANGE)
    else Scan(shares, ns, 0, -1)
  }

  method GetShareRangeForNamespace(shares: seq<Share>, ns: Bytes) returns (r: Result<Range>)
    ensures r == RangeFor(shares, ns)
  {
    hide Less, Supported, NamespaceBytes;
    if |shares| == 0 {
      return Ok(EMPTY_RANGE);
    }
    var n0 := Namespace(shares[0]);
    if n0.Err? {
      return Err(n0.error);
    }
    if Less(ns, n0.value) {
      return Ok(EMPTY_RANGE);
    }
    var n1 := Namespace(shares[|shares| - 1]);
    if n1.Err? {
      return Err(n1.error);
    }
    if Less(n1.value, ns) {
      return Ok(EMPTY_RANGE);
    }
    var start := -1;
    for i := 0 to |shares|
      invariant -1 <= start < i
      invariant Scan(shares, ns, 0, -1) == Scan(shares, ns, i, start)
    {
      var shareNS := Namespace(shares[i]);
      if shareNS.Err? {
        return Err(shareNS.error);
      }
      if Less(ns, shareNS.value) && start != -1 {
        return Ok(Range(start, i));
      }
      if ns == shareNS.value && start == -1 {
        start := i;
      }
    }
    return Ok(if start == -1 then EMPTY_RANGE else Range(start, |shares|));
  }

  /** The range holds exactly the shares of the namespace, and a range without shares is the empty one. */
  ghost predicate Exact(shares: seq<Share>, ns: Bytes, r: Range) {
    && r.start <= r.end <= |shares|
    && (forall i :: 0 <= i < |shares| ==> (NamespaceBytes(shares[i]) == ns <==> r.start <= i < r.end))
    && (r.start == r.end ==> r == EMPTY_RANGE)
  }

  /** What the scan knows before share i. */
  ghost predicate Scanned(shares: seq<Share>, ns: Bytes, i: nat, start: int)
    requires i <= |shares|
  {
    && -1 <= start < i
    && (forall k :: 0 <= k < i ==> (NamespaceBytes(shares[k]) == ns <==> start != -1 && start <= k))
  }

  ghost predicate InOrder(shares: seq<Share>) {
    && (forall i :: 0 <= i < |shares| ==> Supported(NamespaceBytes(shares[i])))
    && (forall i, j :: 0 <= i < j < |shares| ==> Leq(NamespaceBytes(shares[i]), NamespaceBytes(shares[j])))
  }

  /** Behind a larger namespace there is no share of a smaller one. */
  lemma LargerFrom(shares: seq<Share>, ns: Bytes, i: nat, k: nat)
    requires InOrder(shares) && i <= k < |shares| && Less(ns, NamespaceBytes(shares[i]))
    ensures Less(ns, NamespaceBytes(shares[k])) && NamespaceBytes(shares[k]) != ns
  {
    hide NamespaceBytes, Supported;
    if i < k {
      LeqTransitive(ns, NamespaceBytes(shares[i]), NamespaceBytes(shares[k]));
    }
    CompareEqual(ns, ns);
  }

  lemma ScanStep(shares: seq<Share>, ns: Bytes, i: nat, start: int)
    requires InOrder(shares) && i < |shares| && Scanned(shares, ns, i, start)
    requires !(Less(ns, NamespaceBytes(shares[i])) && start != -1)
    ensures Scanned(shares, ns, i + 1, if NamespaceBytes(shares[i]) == ns && start == -1 then i else start)
  {
    hide NamespaceBytes, Supported;
    if start != -1 {
      assert Leq(NamespaceBytes(shares[start]), NamespaceBytes(shares[i]));
      CompareEqual(ns, NamespaceBytes(shares[i]));
    }
  }

  lemma {:induction false} ScanIsExact(shares: seq<Share>, ns: Bytes, i: nat, start: int)
    requires InOrder(shares) && i <= |shares| && Scanned(shares, ns, i, start)
    ensures Scan(shares, ns, i, start).Ok? && Exact(shares, ns, Scan(shares, ns, i, start).value)
    decreases |shares| - i
  {
    hide NamespaceBytes, Supported, Less, Leq;
    if i < |shares| {
      if Less(ns, NamespaceBytes(shares[i])) && start != -1 {
        forall k | i <= k < |shares| ensures NamespaceBytes(shares[k]) != ns {
          LargerFrom(shares, ns, i, k);
        }
      } else {
        ScanStep(shares, ns, i, start);
        ScanIsExact(shares, ns, i + 1, if NamespaceBytes(shares[i]) == ns && start == -1 then i else start);
      }
    }
  }

  /** On shares in namespace order the answer is exactly the shares of the namespace. */
  lemma RangeIsExact(shares: seq<Share>, ns: Bytes)
    requires InOrder(shares)
    ensures RangeFor(shares, ns).Ok? && Exact(shares, ns, RangeFor(shares, ns).value)
  {
    hide NamespaceBytes, Supported, Scan;
    if shares != [] {
      var last := |shares| - 1;
      if Less(ns, NamespaceBytes(shares[0])) {
        forall k | 0 <= k < |shares| ensures NamespaceBytes(shares[k]) != ns {
          LargerFrom(shares, ns, 0, k);
        }
      } else if Less(NamespaceBytes(shares[last]), ns) {
        forall k | 0 <= k < |shares| ensures NamespaceBytes(shares[k]) != ns {
          CompareAntisymmetric(NamespaceBytes(shares[last]), ns);
          CompareEqual(NamespaceBytes(shares[last]), ns);
        }
      } else {
        ScanIsExact(shares, ns, 0, -1);
      }
    }
  }

  /** At most one range is exact. */
  lemma ExactUnique(shares: seq<Share>, ns: Bytes, r: Range, s: Range)
    requires Exact(shares, ns, r) && Exact(shares, ns, s)
    ensures r == s
  {
    hide NamespaceBytes;
    if r.start < r.end {
      assert NamespaceBytes(shares[r.start]) == ns && NamespaceBytes(shares[r.end - 1]) == ns;
    }
    if s.start < s.end {
      assert NamespaceBytes(shares[s.start]) == ns && NamespaceBytes(shares[s.end - 1]) == ns;
    }
  }

  lemma WithinIsInOrder(shares: seq<Share>, lo: Bytes, hi: Bytes)
    requires SquarePlacement.Within(shares, lo, hi)
    ensures InOrder(shares)
  {
    hide NamespaceBytes, Supported, Leq;
  }

  /** A run of one namespace at the front, with larger ones behind it, is the range of that namespace. */
  lemma RangeOfFront(front: seq<Share>, ns: Bytes, rest: seq<Share>)
    requires SquarePlacement.AllIn(front, ns) && InOrder(front + rest)
    requires forall i :: 0 <= i < |rest| ==> NamespaceBytes(rest[i]) != ns
    ensures RangeFor(front + rest, ns) == Ok(Range(0, |front|))
  {
    hide NamespaceBytes, Supported, Leq, Less, RangeFor;
    RangeIsExact(front + rest, ns);
    assert Exact(front + rest, ns, Range(0, |front|));
    ExactUnique(front + rest, ns, RangeFor(front + rest, ns).value, Range(0, |front|));
  }

  /** In every exported square the range of any namespace is found exactly. */
  lemma RangeInSquare(env: Env, txs: seq<Bytes>, blobTxs: seq<BlobTx>, ns: Bytes)
    requires ValidBlobTxs(blobTxs)
    ensures var square := SquareShares(env, txs, blobTxs);
            RangeFor(square, ns).Ok? && Exact(square, ns, RangeFor(square, ns).value)
  {
    hide SquareShares, RangeFor, SquarePlacement.Within, InOrder, ValidBlobTxs;
    SquarePlacement.NamespacesInOrder(env, txs, blobTxs);
    WithinIsInOrder(SquareShares(env, txs, blobTxs), TX_NAMESPACE, TAIL_PADDING_NAMESPACE);
    RangeIsExact(SquareShares(env, txs, blobTxs), ns);
  }
}
