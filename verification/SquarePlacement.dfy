/** Where blobs are in an exported square, and in which order namespaces occur in it
    (pkg/square/builder.go). */
module SquarePlacement {
  import opened BlobArea
  import opened Blobs
  import opened ByteSeqs
  import opened CommitmentRules
  import CompactParser
  import opened CompactSplitter
  import opened CompactStream
  import opened Namespaces
  import opened ShareFormat
  import Sorting
  import opened SparseParser
  import opened SparseSplitter
  import SquareElements
  import opened SquareLayout
  import opened SquareTheorems

  /** The start of every blob, in the order of the sorted elements. */
  function Indexes(env: Env, txs: seq<Bytes>, blobTxs: seq<BlobTx>): (r: seq<nat>)
    ensures |r| == |SortedElements(blobTxs)|
  {
    StartIndexes(SparseStart(env, txs, blobTxs), SortedElements(blobTxs))
  }

  /** The shares of the valid blob `b`, no more and no fewer, start at index `at`, which is a multiple
      of the blob's subtree width. */
  ghost predicate StandsAt(square: seq<Share>, at: nat, b: Blob) {
    && ValidBlob(b) && |BlobShares(b)| == SparseCount(|b.data|)
    && HasAt(square, at, BlobShares(b))
    && at % SubTreeWidth(|BlobShares(b)|, SUBTREE_ROOT_THRESHOLD) == 0
  }

  ghost predicate HasAt<T>(all: seq<T>, at: nat, part: seq<T>) {
    at + |part| <= |all| && all[at..at + |part|] == part
  }

  ghost predicate Disjoint(starts: seq<nat>, elements: seq<Element>)
    requires |starts| == |elements|
  {
    forall i, j :: 0 <= i < j < |starts| ==> starts[i] + elements[i].numShares <= starts[j]
  }

  lemma HasInMiddle<T>(a: seq<T>, b: seq<T>, c: seq<T>, at: nat, part: seq<T>)
    requires HasAt(b, at, part)
    ensures HasAt(a + b + c, |a| + at, part)
  {
  }

  ghost predicate ElementStands(env: Env, txs: seq<Bytes>, blobTxs: seq<BlobTx>, i: nat)
    requires ValidBlobTxs(blobTxs) && i < |SortedElements(blobTxs)|
  {
    StandsAt(SquareShares(env, txs, blobTxs), Indexes(env, txs, blobTxs)[i], SortedElements(blobTxs)[i].blob)
  }

  /** Every element's blob stands at its index. */
  lemma ElementPlaced(env: Env, maxSquareSize: nat, txs: seq<Bytes>, blobTxs: seq<BlobTx>, i: nat)
    requires Admissible(env, maxSquareSize, txs, blobTxs) && i < |SortedElements(blobTxs)|
    ensures ValidBlobTxs(blobTxs) && ElementStands(env, txs, blobTxs, i)
  {
    hide Admissible, SortedElements, BlobShares, SquareShares, Head, Middle, Tail, ValidBlobTxs, SparseCount, HasAt,
         EndOfBlobs, Side, Indexes, SubTreeWidth, PfbUnits, CompactShares, PfbShareCount, NonReservedStart,
         ValidBlob, ValidElement, Slots, Placeable;
    AdmissibleBlobs(env, maxSquareSize, txs, blobTxs);
    PartsFit(env, maxSquareSize, txs, blobTxs);
    IndexAligned(env, txs, blobTxs, i);
    ElementShares(blobTxs, i);
    MiddleAt(env, txs, blobTxs, i);
    MiddleInSquare(env, txs, blobTxs, Indexes(env, txs, blobTxs)[i] - NonReservedStart(env, txs, blobTxs),
                   SharesOfElement(blobTxs, i));
  }

  ghost function SharesOfElement(blobTxs: seq<BlobTx>, i: nat): (r: seq<Share>)
    requires ValidBlobTxs(blobTxs) && i < |SortedElements(blobTxs)|
  {
    ElementShares(blobTxs, i);
    BlobShares(SortedElements(blobTxs)[i].blob)
  }

  lemma MiddleInSquare(env: Env, txs: seq<Bytes>, blobTxs: seq<BlobTx>, at: nat, part: seq<Share>)
    requires ValidBlobTxs(blobTxs) && HasAt(Middle(env, txs, blobTxs), at, part)
    requires |Head(env, txs, blobTxs)| == NonReservedStart(env, txs, blobTxs)
    ensures HasAt(SquareShares(env, txs, blobTxs), NonReservedStart(env, txs, blobTxs) + at, part)
  {
    hide Head, Middle, Tail, NonReservedStart, ValidBlobTxs;
    HasInMiddle(Head(env, txs, blobTxs), Middle(env, txs, blobTxs), Tail(env, txs, blobTxs), at, part);
  }

  lemma ElementShares(blobTxs: seq<BlobTx>, i: nat)
    requires ValidBlobTxs(blobTxs) && i < |SortedElements(blobTxs)|
    ensures var e := SortedElements(blobTxs)[i];
            && ValidElement(e) && ValidBlob(e.blob)
            && e.numShares == |BlobShares(e.blob)| == SparseCount(|e.blob.data|)
  {
    SortedPlaceable(blobTxs);
    hide SortedElements, BlobShares, SparseCount, ValidBlob;
    var e := SortedElements(blobTxs)[i];
    assert ValidElement(e);
    ValidElementFacts(e);
    BlobSharesCount(e.blob);
  }

  lemma IndexAligned(env: Env, txs: seq<Bytes>, blobTxs: seq<BlobTx>, i: nat)
    requires i < |SortedElements(blobTxs)|
    ensures Indexes(env, txs, blobTxs)[i] % SubTreeWidth(SortedElements(blobTxs)[i].numShares, SUBTREE_ROOT_THRESHOLD) == 0
  {
    hide SubTreeWidth, NextShareIndex, BlobIndexes, BlobsEnd, SortedElements, SparseStart;
    BlobIndexAt(SparseStart(env, txs, blobTxs), SUBTREE_ROOT_THRESHOLD, NumShares(SortedElements(blobTxs)), i);
  }

  /** No two blobs overlap. */
  lemma BlobsDisjoint(env: Env, txs: seq<Bytes>, blobTxs: seq<BlobTx>)
    ensures Disjoint(Indexes(env, txs, blobTxs), SortedElements(blobTxs))
  {
    hide SortedElements, SparseStart, SubTreeWidth, BlobIndexes, BlobsEnd;
    var start, elements := SparseStart(env, txs, blobTxs), SortedElements(blobTxs);
    forall i, j | 0 <= i < j < |elements|
      ensures Indexes(env, txs, blobTxs)[i] + elements[i].numShares <= Indexes(env, txs, blobTxs)[j]
    {
      BlobIndexesLayout(start, SUBTREE_ROOT_THRESHOLD, NumShares(elements), i, j);
    }
  }

  ghost predicate InMiddle(env: Env, txs: seq<Bytes>, blobTxs: seq<BlobTx>, i: nat)
    requires ValidBlobTxs(blobTxs) && i < |SortedElements(blobTxs)|
  {
    var b, at := SortedElements(blobTxs)[i].blob, Indexes(env, txs, blobTxs)[i] - NonReservedStart(env, txs, blobTxs);
    0 <= at && ValidBlob(b) && HasAt(Middle(env, txs, blobTxs), at, BlobShares(b))
  }

  lemma MiddleAt(env: Env, txs: seq<Bytes>, blobTxs: seq<BlobTx>, i: nat)
    requires ValidBlobTxs(blobTxs) && i < |SortedElements(blobTxs)|
    ensures InMiddle(env, txs, blobTxs, i)
  {
    hide SortedElements, SparseStart, StartIndexes, Area, BlobShares, ValidBlob, ValidBlobTxs, ValidElement, Placeable, SparseCount;
    SortedPlaceable(blobTxs);
    ElementShares(blobTxs, i);
    AreaAt(SparseStart(env, txs, blobTxs), SortedElements(blobTxs), i);
  }

  /** The index recorded for a blob is the index of an element that describes it. */
  lemma {:induction false} IndexForFinds(elements: seq<Element>, indexes: seq<nat>, p: nat, j: nat) returns (i: nat)
    requires |indexes| == |elements| && SquareElements.Covered(elements, p, j)
    ensures i < |elements| && elements[i].pfbIndex == p && elements[i].blobIndex == j
    ensures IndexFor(elements, indexes, p, j) == indexes[i] % U32_LIMIT
  {
    var n := |elements| - 1;
    if elements[n].pfbIndex == p && elements[n].blobIndex == j {
      i := n;
    } else {
      var k :| 0 <= k < |elements| && elements[k].pfbIndex == p && elements[k].blobIndex == j;
      assert elements[..n][k] == elements[k];
      i := IndexForFinds(elements[..n], indexes[..n], p, j);
    }
  }

  /** The share index in PFB `p` for its blob `j`. */
  function RecordedFor(env: Env, txs: seq<Bytes>, blobTxs: seq<BlobTx>, p: nat, j: nat): (n: nat)
    requires p < |blobTxs| && j < |blobTxs[p].blobs|
  {
    FinalPfbAt(env, txs, blobTxs, p, j);
    FinalPfbs(env, txs, blobTxs)[p].shareIndexes[j]
  }

  lemma RecordedIndex(env: Env, maxSquareSize: nat, txs: seq<Bytes>, blobTxs: seq<BlobTx>, p: nat, j: nat)
    returns (i: nat)
    requires Admissible(env, maxSquareSize, txs, blobTxs) && p < |blobTxs| && j < |blobTxs[p].blobs|
    ensures i < |SortedElements(blobTxs)|
    ensures SortedElements(blobTxs)[i] == NewElement(blobTxs[p].blobs[j], p, j)
    ensures RecordedFor(env, txs, blobTxs, p, j) == Indexes(env, txs, blobTxs)[i]
  {
    hide SortedElements, NewElement, Indexes, IndexFor, Admissible, FinalPfbs;
    SquareElements.SortedCover(blobTxs, p, j);
    SquareElements.NewElementIndexes(blobTxs[p].blobs[j], p, j);
    FinalPfbAt(env, txs, blobTxs, p, j);
    var elements, indexes := SortedElements(blobTxs), Indexes(env, txs, blobTxs);
    assert SquareElements.Covered(elements, p, j);
    i := IndexForFinds(elements, indexes, p, j);
    SquareElements.SortedDescribe(blobTxs, i);
    IndexIsUint32(env, maxSquareSize, txs, blobTxs, i);
  }

  lemma IndexIsUint32(env: Env, maxSquareSize: nat, txs: seq<Bytes>, blobTxs: seq<BlobTx>, i: nat)
    requires Admissible(env, maxSquareSize, txs, blobTxs) && i < |SortedElements(blobTxs)|
    ensures Indexes(env, txs, blobTxs)[i] < U32_LIMIT
  {
    IndexesWithinCapacity(env, maxSquareSize, txs, blobTxs, i);
    hide Admissible, StartIndexes, SparseStart, SortedElements;
  }

  lemma FinalPfbAt(env: Env, txs: seq<Bytes>, blobTxs: seq<BlobTx>, p: nat, j: nat)
    requires p < |blobTxs| && j < |blobTxs[p].blobs|
    ensures var pfb := FinalPfbs(env, txs, blobTxs)[p];
            && pfb.tx == blobTxs[p].tx && |pfb.shareIndexes| == |blobTxs[p].blobs|
            && pfb.shareIndexes[j] == IndexFor(SortedElements(blobTxs), Indexes(env, txs, blobTxs), p, j)
  {
    hide SortedElements, StartIndexes, SparseStart, IndexFor;
  }

  /** The share index that a PFB records for a blob leads to exactly the shares of that blob. */
  lemma BlobFound(env: Env, maxSquareSize: nat, txs: seq<Bytes>, blobTxs: seq<BlobTx>, p: nat, j: nat)
    requires Admissible(env, maxSquareSize, txs, blobTxs) && p < |blobTxs| && j < |blobTxs[p].blobs|
    ensures StandsAt(SquareShares(env, txs, blobTxs), RecordedFor(env, txs, blobTxs, p, j), blobTxs[p].blobs[j])
  {
    hide Admissible, SortedElements, Indexes, SquareShares, StandsAt, FinalPfbs, SubTreeWidth, SparseCount;
    var i := RecordedIndex(env, maxSquareSize, txs, blobTxs, p, j);
    ElementPlaced(env, maxSquareSize, txs, blobTxs, i);
  }

  /** The recorded indexes are the non-interactive defaults for the sorted blob lengths, for which
      FitsInSquare answers true. */
  method DefaultsMatch(env: Env, maxSquareSize: nat, txs: seq<Bytes>, blobTxs: seq<BlobTx>)
    returns (fits: bool, indexes: seq<nat>)
    requires Admissible(env, maxSquareSize, txs, blobTxs)
    ensures fits && indexes == Indexes(env, txs, blobTxs)
  {
    hide Admissible, SortedElements, SparseStart, BlobIndexes, BlobsEnd;
    var cursor, lens := SparseStart(env, txs, blobTxs), NumShares(SortedElements(blobTxs));
    var sharesUsed;
    sharesUsed, indexes := BlobSharesUsedNonInteractiveDefaults(cursor, SUBTREE_ROOT_THRESHOLD, lens);
    fits, sharesUsed := FitsInSquare(cursor, Side(env, txs, blobTxs), SUBTREE_ROOT_THRESHOLD, lens);
    AreaAndTailLength(env, maxSquareSize, txs, blobTxs);
    forall i | 0 <= i < |lens| ensures Indexes(env, txs, blobTxs)[i] < U32_LIMIT {
      IndexIsUint32(env, maxSquareSize, txs, blobTxs, i);
    }
  }

  // ----- namespaces in order -----

  /** The namespaces of the shares are supported, do not decrease and lie between `lo` and `hi`. */
  ghost predicate Within(shares: seq<Share>, lo: Bytes, hi: Bytes) {
    && (forall i :: 0 <= i < |shares| ==> Supported(NamespaceBytes(shares[i])))
    && (forall i :: 0 <= i < |shares| ==> Leq(lo, NamespaceBytes(shares[i])) && Leq(NamespaceBytes(shares[i]), hi))
    && (forall i, j :: 0 <= i < j < |shares| ==> Leq(NamespaceBytes(shares[i]), NamespaceBytes(shares[j])))
  }

  ghost predicate AllIn(shares: seq<Share>, ns: Bytes) {
    forall i :: 0 <= i < |shares| ==> NamespaceBytes(shares[i]) == ns
  }

  lemma AllInWithin(shares: seq<Share>, ns: Bytes)
    requires AllIn(shares, ns) && Supported(ns)
    ensures Within(shares, ns, ns)
  {
    hide NamespaceBytes, Supported;
    CompareEqual(ns, ns);
  }

  lemma WithinAppend(a: seq<Share>, lo: Bytes, m: Bytes, b: seq<Share>, m': Bytes, hi: Bytes)
    requires Within(a, lo, m) && Within(b, m', hi) && Leq(lo, m) && Leq(m, m') && Leq(m', hi)
    ensures Within(a + b, lo, hi) && Leq(lo, hi)
  {
    hide NamespaceBytes, Leq, Supported;
    LeqTransitive(lo, m, m');
    LeqTransitive(m, m', hi);
    LeqTransitive(lo, m, hi);
    forall i | 0 <= i < |a + b|
      ensures Leq(lo, NamespaceBytes((a + b)[i])) && Leq(NamespaceBytes((a + b)[i]), hi)
    {
      if i < |a| {
        LeqTransitive(NamespaceBytes(a[i]), m, hi);
      } else {
        LeqTransitive(lo, m', NamespaceBytes(b[i - |a|]));
      }
    }
    forall i, j | 0 <= i < j < |a + b|
      ensures Leq(NamespaceBytes((a + b)[i]), NamespaceBytes((a + b)[j]))
    {
      if i < |a| <= j {
        LeqTransitive(NamespaceBytes(a[i]), m, m');
        LeqTransitive(NamespaceBytes(a[i]), m', NamespaceBytes(b[j - |a|]));
      }
    }
  }

  lemma PaddingIn(ns: Bytes, n: nat)
    requires Supported(ns)
    ensures AllIn(PaddingShares(ns, 0, n), ns)
  {
    hide PaddingShare, NamespaceBytes;
    PaddingShareFields(ns);
  }

  lemma {:induction false} DataIn(ns: Bytes, first: bool, len: nat, data: Bytes)
    requires Supported(ns) && !IsCompactNamespace(ns) && len < U32_LIMIT
    ensures AllIn(DataShares(ns, 0, first, len, data), ns)
    decreases |data|
  {
    DataShareFields(ns, first, len, data);
    hide DataShare, Supported, NamespaceBytes;
    if |data| > Room(ns, first) {
      DataIn(ns, false, 0, data[Room(ns, first)..]);
    }
  }

  lemma BlobIn(b: Blob)
    requires ValidBlob(b)
    ensures AllIn(BlobShares(b), b.NamespaceOf())
  {
    hide Supported, Less, IsCompactNamespace, AllIn, DataShares;
    UserNamespaceIsNotReserved(b.NamespaceOf());
    DataIn(b.NamespaceOf(), true, |b.data|, b.data);
  }

  lemma CompactIn(ns: Bytes, units: seq<Bytes>)
    requires IsCompactNamespace(ns)
    ensures AllIn(CompactShares(ns, units), ns)
  {
    hide ShareAt, NamespaceBytes, Stream, Starts, PaddedData;
    var data, n := PaddedData(Stream(units)), SharesFor(|Stream(units)|);
    forall k | 0 <= k < n ensures NamespaceBytes(CompactShares(ns, units)[k]) == ns {
      OffsetMonotone(k, n);
      CompactParser.ShareFields(ns, data, Starts(units), |Stream(units)| % U32_LIMIT, k);
    }
  }

  ghost predicate KeysSorted(ns: Bytes, elements: seq<Element>) {
    && Sorting.SortedBy(ElementKey, elements)
    && forall i :: 0 <= i < |elements| ==> Leq(ns, ElementKey(elements[i]))
  }

  /** Padding is in the namespace of the blob in front of it. */
  lemma {:induction false} LaidWithin(ns: Bytes, end: nat, elements: seq<Element>)
    requires |ns| == NAMESPACE_SIZE && Supported(ns) && Placeable(elements) && KeysSorted(ns, elements)
    requires Leq(ns, MIN_SECONDARY_RESERVED_NAMESPACE)
    ensures Within(Laid(ns, end, elements), ns, MIN_SECONDARY_RESERVED_NAMESPACE)
    decreases |elements|
  {
    hide ValidElement, Within, NamespaceBytes, Leq, Less, PaddingShares, BlobShares, AlignedStart, Laid, ElementKey, Supported, ValidBlob;
    if elements == [] {
      NothingLaid(ns, end);
    } else {
      var e, start, hi := elements[0], AlignedStart(end, elements[0]), MIN_SECONDARY_RESERVED_NAMESPACE;
      LaidStep(ns, end, elements);
      ValidElementFacts(e);
      ElementWithin(e);
      LaidWithin(ElementKey(e), start + e.numShares, elements[1..]);
      var rest := Laid(ElementKey(e), start + e.numShares, elements[1..]);
      PaddingIn(ns, start - end);
      AllInWithin(PaddingShares(ns, 0, start - end), ns);
      LeqRefl(ns);
      LeqRefl(ElementKey(e));
      WithinAppend(BlobShares(e.blob), ElementKey(e), ElementKey(e), rest, ElementKey(e), hi);
      WithinAppend(PaddingShares(ns, 0, start - end), ns, ns, BlobShares(e.blob) + rest, ElementKey(e), hi);
    }
  }

  lemma LeqRefl(a: Bytes)
    ensures Leq(a, a)
  {
    CompareEqual(a, a);
  }

  lemma NothingLaid(ns: Bytes, end: nat)
    requires |ns| == NAMESPACE_SIZE
    ensures Laid(ns, end, []) == [] && Within([], ns, MIN_SECONDARY_RESERVED_NAMESPACE)
  {
  }

  lemma ElementWithin(e: Element)
    requires ValidElement(e)
    ensures |e.blob.namespaceId| == NAMESPACE_ID_SIZE && e.blob.shareVersion == 0
    ensures Within(BlobShares(e.blob), ElementKey(e), ElementKey(e))
    ensures Leq(PRIMARY_RESERVED_PADDING_NAMESPACE, ElementKey(e)) && Leq(ElementKey(e), MIN_SECONDARY_RESERVED_NAMESPACE)
  {
    BlobIn(e.blob);
    AllInWithin(BlobShares(e.blob), ElementKey(e));
  }

  lemma AreaWithin(end: nat, elements: seq<Element>)
    requires Placeable(elements) && Sorting.SortedBy(ElementKey, elements)
    ensures Within(Area(end, elements), PRIMARY_RESERVED_PADDING_NAMESPACE, MIN_SECONDARY_RESERVED_NAMESPACE)
  {
    hide ValidElement, Within, NamespaceBytes, Leq, Less, BlobShares, AlignedStart, Laid, ElementKey, Supported, ValidBlob;
    if elements == [] {
      NothingIn();
    } else {
      var e, lo, hi := elements[0], PRIMARY_RESERVED_PADDING_NAMESPACE, MIN_SECONDARY_RESERVED_NAMESPACE;
      ValidElementFacts(e);
      ElementWithin(e);
      var after := AlignedStart(end, e) + e.numShares;
      LaidWithin(ElementKey(e), after, elements[1..]);
      var rest := Laid(ElementKey(e), after, elements[1..]);
      LeqRefl(ElementKey(e));
      WithinAppend(BlobShares(e.blob), ElementKey(e), ElementKey(e), rest, ElementKey(e), hi);
      Widen(BlobShares(e.blob) + rest, lo, ElementKey(e), hi);
    }
  }

  lemma NothingIn()
    ensures Within([], PRIMARY_RESERVED_PADDING_NAMESPACE, MIN_SECONDARY_RESERVED_NAMESPACE)
  {
  }

  lemma Widen(shares: seq<Share>, lo: Bytes, m: Bytes, hi: Bytes)
    requires Within(shares, m, hi) && Leq(lo, m)
    ensures Within(shares, lo, hi)
  {
    hide NamespaceBytes, Leq, Supported;
    forall i | 0 <= i < |shares| ensures Leq(lo, NamespaceBytes(shares[i])) {
      LeqTransitive(lo, m, NamespaceBytes(shares[i]));
    }
  }

  lemma OrderOfReserved()
    ensures Leq(TX_NAMESPACE, TX_NAMESPACE) && Leq(TX_NAMESPACE, PAY_FOR_BLOB_NAMESPACE)
    ensures Leq(PAY_FOR_BLOB_NAMESPACE, PAY_FOR_BLOB_NAMESPACE)
    ensures Leq(PAY_FOR_BLOB_NAMESPACE, PRIMARY_RESERVED_PADDING_NAMESPACE)
    ensures Leq(PRIMARY_RESERVED_PADDING_NAMESPACE, PRIMARY_RESERVED_PADDING_NAMESPACE)
    ensures Leq(PRIMARY_RESERVED_PADDING_NAMESPACE, MIN_SECONDARY_RESERVED_NAMESPACE)
    ensures Leq(MIN_SECONDARY_RESERVED_NAMESPACE, TAIL_PADDING_NAMESPACE)
    ensures Leq(TAIL_PADDING_NAMESPACE, TAIL_PADDING_NAMESPACE)
    ensures Leq(TX_NAMESPACE, PRIMARY_RESERVED_PADDING_NAMESPACE)
    ensures Leq(PRIMARY_RESERVED_PADDING_NAMESPACE, TAIL_PADDING_NAMESPACE)
    ensures Leq(PAY_FOR_BLOB_NAMESPACE, TAIL_PADDING_NAMESPACE)
  {
    ReservedOrder();
    SecondaryOrder(0x00, 0xFE);
    CompareAt(PRIMARY_RESERVED_PADDING_NAMESPACE, MIN_SECONDARY_RESERVED_NAMESPACE, 0);
    hide Compare;
    LeqRefl(TX_NAMESPACE);
    LeqRefl(PAY_FOR_BLOB_NAMESPACE);
    LeqRefl(PRIMARY_RESERVED_PADDING_NAMESPACE);
    LeqRefl(TAIL_PADDING_NAMESPACE);
    LeqTransitive(TX_NAMESPACE, PAY_FOR_BLOB_NAMESPACE, PRIMARY_RESERVED_PADDING_NAMESPACE);
    LeqTransitive(PAY_FOR_BLOB_NAMESPACE, PRIMARY_RESERVED_PADDING_NAMESPACE, TAIL_PADDING_NAMESPACE);
  }

  function TxShares(txs: seq<Bytes>): (r: seq<Share>)
  {
    CompactShares(TX_NAMESPACE, txs)
  }

  function PfbShares(env: Env, txs: seq<Bytes>, blobTxs: seq<BlobTx>): (r: seq<Share>)
  {
    CompactShares(PAY_FOR_BLOB_NAMESPACE, PfbUnits(env, txs, blobTxs))
  }

  function ReservedPadding(env: Env, txs: seq<Bytes>, blobTxs: seq<BlobTx>): (r: seq<Share>)
  {
    PaddingShares(PRIMARY_RESERVED_PADDING_NAMESPACE, 0,
                  Sub(NonReservedStart(env, txs, blobTxs), |TxShares(txs)| + |PfbShares(env, txs, blobTxs)|))
  }

  /** Everything behind the compact shares. */
  ghost function BehindPfbs(env: Env, txs: seq<Bytes>, blobTxs: seq<BlobTx>): (r: seq<Share>)
    requires ValidBlobTxs(blobTxs)
  {
    ReservedPadding(env, txs, blobTxs) + Middle(env, txs, blobTxs) + Tail(env, txs, blobTxs)
  }

  lemma SquareInParts(env: Env, txs: seq<Bytes>, blobTxs: seq<BlobTx>)
    requires ValidBlobTxs(blobTxs)
    ensures SquareShares(env, txs, blobTxs) == TxShares(txs) + (PfbShares(env, txs, blobTxs) + BehindPfbs(env, txs, blobTxs))
  {
    hide CompactShares, PaddingShares, Middle, Tail, NonReservedStart, ValidBlobTxs, PfbUnits;
  }

  lemma BehindPfbsWithin(env: Env, txs: seq<Bytes>, blobTxs: seq<BlobTx>)
    requires ValidBlobTxs(blobTxs)
    ensures Within(BehindPfbs(env, txs, blobTxs), PRIMARY_RESERVED_PADDING_NAMESPACE, TAIL_PADDING_NAMESPACE)
  {
    hide Within, NamespaceBytes, Leq, PaddingShares, Middle, Side, EndOfBlobs, ValidBlobTxs, NonReservedStart, PfbShares, TxShares;
    MiddleWithin(env, txs, blobTxs);
    OrderOfReserved();
    ReservedAreSupported();
    var padding, middle, tail := ReservedPadding(env, txs, blobTxs), Middle(env, txs, blobTxs), Tail(env, txs, blobTxs);
    PaddingIn(PRIMARY_RESERVED_PADDING_NAMESPACE, |padding|);
    AllInWithin(padding, PRIMARY_RESERVED_PADDING_NAMESPACE);
    PaddingIn(TAIL_PADDING_NAMESPACE, |tail|);
    AllInWithin(tail, TAIL_PADDING_NAMESPACE);
    WithinAppend(padding, PRIMARY_RESERVED_PADDING_NAMESPACE, PRIMARY_RESERVED_PADDING_NAMESPACE, middle,
                 PRIMARY_RESERVED_PADDING_NAMESPACE, MIN_SECONDARY_RESERVED_NAMESPACE);
    WithinAppend(padding + middle, PRIMARY_RESERVED_PADDING_NAMESPACE, MIN_SECONDARY_RESERVED_NAMESPACE, tail,
                 TAIL_PADDING_NAMESPACE, TAIL_PADDING_NAMESPACE);
  }

  lemma MiddleWithin(env: Env, txs: seq<Bytes>, blobTxs: seq<BlobTx>)
    requires ValidBlobTxs(blobTxs)
    ensures Within(Middle(env, txs, blobTxs), PRIMARY_RESERVED_PADDING_NAMESPACE, MIN_SECONDARY_RESERVED_NAMESPACE)
  {
    hide Within, Area, ValidBlobTxs, SparseStart, Sorting.StableSort;
    SortedPlaceable(blobTxs);
    Sorting.StableSortSorts(ElementKey, AllElements(blobTxs));
    AreaWithin(SparseStart(env, txs, blobTxs), SortedElements(blobTxs));
  }

  lemma BehindTxsWithin(env: Env, txs: seq<Bytes>, blobTxs: seq<BlobTx>)
    requires ValidBlobTxs(blobTxs)
    ensures AllIn(PfbShares(env, txs, blobTxs), PAY_FOR_BLOB_NAMESPACE)
    ensures Within(PfbShares(env, txs, blobTxs) + BehindPfbs(env, txs, blobTxs), PAY_FOR_BLOB_NAMESPACE, TAIL_PADDING_NAMESPACE)
  {
    hide Within, NamespaceBytes, Leq, CompactShares, PfbUnits, BehindPfbs, ValidBlobTxs;
    ReservedAreSupported();
    OrderOfReserved();
    CompactIn(PAY_FOR_BLOB_NAMESPACE, PfbUnits(env, txs, blobTxs));
    AllInWithin(PfbShares(env, txs, blobTxs), PAY_FOR_BLOB_NAMESPACE);
    BehindPfbsWithin(env, txs, blobTxs);
    WithinAppend(PfbShares(env, txs, blobTxs), PAY_FOR_BLOB_NAMESPACE, PAY_FOR_BLOB_NAMESPACE,
                 BehindPfbs(env, txs, blobTxs), PRIMARY_RESERVED_PADDING_NAMESPACE, TAIL_PADDING_NAMESPACE);
  }

  /** The namespaces in a square are lexicographically non-decreasing. */
  lemma NamespacesInOrder(env: Env, txs: seq<Bytes>, blobTxs: seq<BlobTx>)
    requires ValidBlobTxs(blobTxs)
    ensures AllIn(TxShares(txs), TX_NAMESPACE)
    ensures Within(SquareShares(env, txs, blobTxs), TX_NAMESPACE, TAIL_PADDING_NAMESPACE)
  {
    hide Within, NamespaceBytes, Leq, CompactShares, PfbShares, BehindPfbs, ValidBlobTxs, SquareShares;
    ReservedAreSupported();
    OrderOfReserved();
    CompactIn(TX_NAMESPACE, txs);
    AllInWithin(TxShares(txs), TX_NAMESPACE);
    BehindTxsWithin(env, txs, blobTxs);
    SquareInParts(env, txs, blobTxs);
    WithinAppend(TxShares(txs), TX_NAMESPACE, TX_NAMESPACE, PfbShares(env, txs, blobTxs) + BehindPfbs(env, txs, blobTxs),
                 PAY_FOR_BLOB_NAMESPACE, TAIL_PADDING_NAMESPACE);
  }
}
