/** What an exported square holds outside transactions and blobs (pkg/shares/padding.go, Export in
    pkg/square/builder.go, WriteSquare in pkg/square/square.go). */
module SquarePadding {
  import opened BlobArea
  import opened Blobs
  import opened ByteSeqs
  import CompactSplitter
  import opened Namespaces
  import opened Results
  import opened ShareFormat
  import opened SparseParser
  import opened SparseSplitter
  import opened SquareLayout
  import opened SquarePlacement
  import opened SquareTheorems

  /** Share x belongs to one of the blobs that are laid out from `end` on. */
  ghost predicate InBlob(end: nat, elements: seq<Element>, x: nat) {
    exists i :: 0 <= i < |elements| &&
      StartIndexes(end, elements)[i] <= x < StartIndexes(end, elements)[i] + elements[i].numShares
  }

  lemma InFirstBlob(end: nat, elements: seq<Element>, x: nat)
    requires elements != []
    requires AlignedStart(end, elements[0]) <= x < AlignedStart(end, elements[0]) + elements[0].numShares
    ensures InBlob(end, elements, x)
  {
    hide StartIndexes, AlignedStart;
    IndexStep(end, elements, 0);
  }

  lemma InLaterBlob(end: nat, elements: seq<Element>, x: nat)
    requires elements != [] && InBlob(AlignedStart(end, elements[0]) + elements[0].numShares, elements[1..], x)
    ensures InBlob(end, elements, x)
  {
    hide StartIndexes, AlignedStart;
    var after := AlignedStart(end, elements[0]) + elements[0].numShares;
    var i :| 0 <= i < |elements[1..]|
      && StartIndexes(after, elements[1..])[i] <= x < StartIndexes(after, elements[1..])[i] + elements[1..][i].numShares;
    IndexStep(end, elements, i + 1);
  }

  /** A share outside the blobs is padding in the namespace of the share in front of it. */
  lemma {:induction false} LaidElsewhere(ns: Bytes, end: nat, elements: seq<Element>, y: nat)
    requires |ns| == NAMESPACE_SIZE && Supported(ns) && Placeable(elements) && y < |Laid(ns, end, elements)|
    requires !InBlob(end, elements, end + y)
    ensures var before := if y == 0 then ns else NamespaceBytes(Laid(ns, end, elements)[y - 1]);
            Laid(ns, end, elements)[y] == PaddingShare(before, 0)
    decreases |elements|
  {
    hide ValidElement, BlobShares, PaddingShare, AlignedStart, Laid, NamespaceBytes, Supported, InBlob, ElementKey;
    if elements == [] {
      NothingLaid(ns, end);
    } else {
      var e, start := elements[0], AlignedStart(end, elements[0]);
      ValidElementFacts(e);
      LaidStep(ns, end, elements);
      PaddingShareFields(ns);
      BlobNamespaces(e);
      var pad, n := start - end, e.numShares;
      if y >= pad {
        if y < pad + n {
          InFirstBlob(end, elements, end + y);
        } else {
          if InBlob(start + n, elements[1..], end + y) {
            InLaterBlob(end, elements, end + y);
          }
          LaidElsewhere(ElementKey(e), start + n, elements[1..], y - pad - n);
        }
      }
    }
  }

  lemma BlobNamespaces(e: Element)
    requires ValidElement(e)
    ensures |e.blob.namespaceId| == NAMESPACE_ID_SIZE && e.blob.shareVersion == 0
    ensures forall i :: 0 <= i < |BlobShares(e.blob)| ==> NamespaceBytes(BlobShares(e.blob)[i]) == ElementKey(e)
  {
    hide NamespaceBytes, BlobShares, NewElement;
    BlobIn(e.blob);
  }

  /** Namespaces behind the compact ones are not compact. */
  lemma BehindCompact(ns: Bytes)
    requires Leq(PRIMARY_RESERVED_PADDING_NAMESPACE, ns)
    ensures !IsCompactNamespace(ns)
  {
    OrderOfReserved();
    ReservedOrder();
    CompareAntisymmetric(PRIMARY_RESERVED_PADDING_NAMESPACE, PAY_FOR_BLOB_NAMESPACE);
    CompareAntisymmetric(PRIMARY_RESERVED_PADDING_NAMESPACE, TX_NAMESPACE);
    LeqTransitive(TX_NAMESPACE, PAY_FOR_BLOB_NAMESPACE, PRIMARY_RESERVED_PADDING_NAMESPACE);
    hide Compare;
  }

  /** Padding among the blobs is in the namespace of the share in front of it. */
  lemma MiddleElsewhere(env: Env, txs: seq<Bytes>, blobTxs: seq<BlobTx>, y: nat)
    requires ValidBlobTxs(blobTxs) && y < |Middle(env, txs, blobTxs)|
    requires !InBlob(SparseStart(env, txs, blobTxs), SortedElements(blobTxs), NonReservedStart(env, txs, blobTxs) + y)
    ensures y > 0
    ensures var ns := NamespaceBytes(Middle(env, txs, blobTxs)[y - 1]);
            && Middle(env, txs, blobTxs)[y] == PaddingShare(ns, 0) && Supported(ns) && !IsCompactNamespace(ns)
  {
    hide SortedElements, SparseStart, StartIndexes, BlobShares, PaddingShare, ValidElement, NamespaceBytes, AlignedStart, Laid,
         InBlob, Supported, Leq;
    SortedPlaceable(blobTxs);
    var start, elements := SparseStart(env, txs, blobTxs), SortedElements(blobTxs);
    NoAreaWithoutBlobs(start, elements);
    var e, first := elements[0], AlignedStart(start, elements[0]);
    ValidElementFacts(e);
    IndexStep(start, elements, 0);
    AreaIsLaid(start, elements);
    if y < e.numShares {
      InFirstBlob(start, elements, first + y);
    }
    SameBlobs(start, elements, first + y);
    LaidElsewhere(ElementKey(e), first, elements, y);
    MiddleWithin(env, txs, blobTxs);
    BehindCompact(NamespaceBytes(Middle(env, txs, blobTxs)[y - 1]));
  }

  lemma NoAreaWithoutBlobs(start: nat, elements: seq<Element>)
    requires Placeable(elements)
    ensures elements == [] ==> Area(start, elements) == []
  {
    hide ValidElement, Laid;
  }

  lemma SameBlobs(start: nat, elements: seq<Element>, x: nat)
    requires elements != []
    ensures InBlob(AlignedStart(start, elements[0]), elements, x) == InBlob(start, elements, x)
  {
    hide StartIndexes, AlignedStart;
    SameIndexes(start, elements);
  }

  ghost predicate OutsideUnits(env: Env, txs: seq<Bytes>, blobTxs: seq<BlobTx>, x: nat) {
    && |TxShares(txs)| + |PfbShares(env, txs, blobTxs)| <= x
    && !InBlob(SparseStart(env, txs, blobTxs), SortedElements(blobTxs), x)
  }

  /** Every share of a square that belongs neither to the transactions nor to a blob is padding, with zeros
      for content: reserved padding in front of the blobs, tail padding behind them, and among them padding
      in the namespace of the share in front of it. */
  lemma OutsideIsPadding(env: Env, maxSquareSize: nat, txs: seq<Bytes>, blobTxs: seq<BlobTx>, x: nat)
    requires Admissible(env, maxSquareSize, txs, blobTxs) && OutsideUnits(env, txs, blobTxs, x)
    requires ValidBlobTxs(blobTxs) && x < |SquareShares(env, txs, blobTxs)|
    ensures var square := SquareShares(env, txs, blobTxs);
            && RawData(square[x]) == Ok(Zeros(FIRST_SPARSE_CONTENT)) && IsPadding(square[x]) == Ok(true)
            && (x < NonReservedStart(env, txs, blobTxs) ==> NamespaceBytes(square[x]) == PRIMARY_RESERVED_PADDING_NAMESPACE)
            && (x >= EndOfBlobs(env, txs, blobTxs) ==> NamespaceBytes(square[x]) == TAIL_PADDING_NAMESPACE)
            && (NonReservedStart(env, txs, blobTxs) <= x < EndOfBlobs(env, txs, blobTxs) ==>
                  x > 0 && NamespaceBytes(square[x]) == NamespaceBytes(square[x - 1]))
  {
    hide Admissible, CompactSplitter.CompactShares, PaddingShare, NamespaceBytes, RawData, IsPadding, Supported, Middle, SparseStart,
         SortedElements, NonReservedStart, EndOfBlobs, Side, Slots, PfbUnits, PfbShareCount, InBlob, ValidBlobTxs, Zeros;
    PartsFit(env, maxSquareSize, txs, blobTxs);
    ReservedAreSupported();
    var start, end := NonReservedStart(env, txs, blobTxs), EndOfBlobs(env, txs, blobTxs);
    var square := SquareShares(env, txs, blobTxs);
    if x < start {
      assert square[x] == Head(env, txs, blobTxs)[x] == PaddingShare(PRIMARY_RESERVED_PADDING_NAMESPACE, 0);
      PaddingShareContent(PRIMARY_RESERVED_PADDING_NAMESPACE, 0);
      PaddingShareFields(PRIMARY_RESERVED_PADDING_NAMESPACE);
    } else if x >= end {
      assert square[x] == Tail(env, txs, blobTxs)[x - end] == PaddingShare(TAIL_PADDING_NAMESPACE, 0);
      PaddingShareContent(TAIL_PADDING_NAMESPACE, 0);
      PaddingShareFields(TAIL_PADDING_NAMESPACE);
    } else {
      MiddleElsewhere(env, txs, blobTxs, x - start);
      assert square[x] == Middle(env, txs, blobTxs)[x - start] && square[x - 1] == Middle(env, txs, blobTxs)[x - start - 1];
      var ns := NamespaceBytes(square[x - 1]);
      PaddingShareContent(ns, 0);
      PaddingShareFields(ns);
    }
  }
}
