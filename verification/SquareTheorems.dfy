/** What every exported square looks like (Export in pkg/square/builder.go, WriteSquare in
    pkg/square/square.go). */
module SquareTheorems {
  import opened BlobArea
  import opened Blobs
  import opened ByteSeqs
  import opened CommitmentRules
  import opened CompactSplitter
  import opened CompactStream
  import opened Counter
  import opened Namespaces
  import PowersOfTwo
  import opened Results
  import opened ShareFormat
  import opened Sorting
  import opened SparseSplitter
  import SquareElements
  import opened SquareLayout
  import Varint

  ghost predicate ValidBlobTxs(blobTxs: seq<BlobTx>) {
    forall p, j :: 0 <= p < |blobTxs| && 0 <= j < |blobTxs[p].blobs| ==> ValidBlob(blobTxs[p].blobs[j])
  }

  /** What a builder can have admitted: valid blobs whose estimate is within the capacity. */
  ghost predicate Admissible(env: Env, maxSquareSize: nat, txs: seq<Bytes>, blobTxs: seq<BlobTx>) {
    && Lawful(env.codec) && ValidBlobTxs(blobTxs)
    && PowersOfTwo.IsPow2(maxSquareSize) && maxSquareSize <= SquareSizeUpperBound(env.appVersion)
    && Cost(env, txs, blobTxs) <= maxSquareSize * maxSquareSize
  }

  // ----- everything fits -----

  lemma SortedPlaceable(blobTxs: seq<BlobTx>)
    requires ValidBlobTxs(blobTxs)
    ensures Placeable(SortedElements(blobTxs))
  {
    hide ValidBlob, SortedElements;
    var elements := SortedElements(blobTxs);
    forall i | 0 <= i < |elements| ensures ValidElement(elements[i]) {
      SquareElements.SortedDescribe(blobTxs, i);
    }
  }

  lemma {:induction false} SumAfterInsert(s: seq<Element>, e: Element)
    ensures SumOffsets(InsertAfter(ElementKey, s, e)) == SumOffsets(s) + MaxShareOffset(e)
  {
    hide Less, MaxShareOffset;
    if s != [] && Less(ElementKey(e), ElementKey(s[|s| - 1])) {
      var init, last := s[..|s| - 1], s[|s| - 1];
      SumAfterInsert(init, e);
      assert (InsertAfter(ElementKey, init, e) + [last])[..|s|] == InsertAfter(ElementKey, init, e);
    } else {
      assert s + [e] == if s == [] then [e] else s + [e];
      assert (s + [e])[..|s|] == s;
    }
  }

  lemma {:induction false} SumOfSorted(s: seq<Element>)
    ensures SumOffsets(StableSort(ElementKey, s)) == SumOffsets(s)
  {
    hide InsertAfter, MaxShareOffset;
    if s != [] {
      SumOfSorted(s[..|s| - 1]);
      SumAfterInsert(StableSort(ElementKey, s[..|s| - 1]), s[|s| - 1]);
    }
  }

  /** Aligned blobs take no more room than their lengths and largest paddings together. */
  lemma {:induction false} EndWithinOffsets(start: nat, elements: seq<Element>)
    requires Placeable(elements)
    ensures BlobsEnd(start, SUBTREE_ROOT_THRESHOLD, NumShares(elements)) <= start + SumOffsets(elements)
  {
    hide ValidElement, SubTreeWidth, BlobsEnd;
    var lens := NumShares(elements);
    if elements == [] {
      NoBlobs(start);
    } else {
      var n := |elements| - 1;
      EndWithinOffsets(start, elements[..n]);
      assert lens == NumShares(elements[..n]) + [elements[n].numShares];
      BlobIndexesSnoc(start, SUBTREE_ROOT_THRESHOLD, NumShares(elements[..n]), elements[n].numShares);
      ValidElementFacts(elements[n]);
    }
  }

  lemma NoBlobs(start: nat)
    ensures NumShares([]) == [] && BlobsEnd(start, SUBTREE_ROOT_THRESHOLD, []) == start
  {
  }

  /** The first share behind the last blob. */
  function EndOfBlobs(env: Env, txs: seq<Bytes>, blobTxs: seq<BlobTx>): (n: nat)
    ensures n >= SparseStart(env, txs, blobTxs)
  {
    BlobsEnd(SparseStart(env, txs, blobTxs), SUBTREE_ROOT_THRESHOLD, NumShares(SortedElements(blobTxs)))
  }

  function Side(env: Env, txs: seq<Bytes>, blobTxs: seq<BlobTx>): (n: nat)
  {
    BlobMinSquareSize(Cost(env, txs, blobTxs))
  }

  /** The estimate covers what is really used. */
  lemma BlobsEndWithinCost(env: Env, txs: seq<Bytes>, blobTxs: seq<BlobTx>)
    requires ValidBlobTxs(blobTxs)
    ensures EndOfBlobs(env, txs, blobTxs) <= Cost(env, txs, blobTxs)
  {
    hide SharesFor, StreamLen, BlobsEnd, AllElements, SumOffsets, StableSort, ValidBlobTxs, Placeable;
    SortedPlaceable(blobTxs);
    EndWithinOffsets(SparseStart(env, txs, blobTxs), SortedElements(blobTxs));
    SumOfSorted(AllElements(blobTxs));
  }

  /** The side is the least power of two whose square holds the estimate, and it is within the limit. */
  lemma SideIsLeast(env: Env, maxSquareSize: nat, txs: seq<Bytes>, blobTxs: seq<BlobTx>, side: nat)
    requires Admissible(env, maxSquareSize, txs, blobTxs)
    requires PowersOfTwo.IsPow2(side) && side * side >= Cost(env, txs, blobTxs)
    ensures PowersOfTwo.IsPow2(Side(env, txs, blobTxs))
    ensures Side(env, txs, blobTxs) * Side(env, txs, blobTxs) >= Cost(env, txs, blobTxs)
    ensures Side(env, txs, blobTxs) <= side && Side(env, txs, blobTxs) <= maxSquareSize
  {
    hide Cost, BlobMinSquareSize, Lawful, ValidBlobTxs;
    BlobMinSquareSizeFits(Cost(env, txs, blobTxs));
    BlobMinSquareSizeLeast(Cost(env, txs, blobTxs), side);
    BlobMinSquareSizeLeast(Cost(env, txs, blobTxs), maxSquareSize);
  }

  // ----- the PFB counter covers the PFB writer -----

  lemma {:induction false} IndexForBound(elements: seq<Element>, indexes: seq<nat>, p: nat, j: nat, bound: nat)
    requires |indexes| == |elements| && forall i :: 0 <= i < |indexes| ==> indexes[i] <= bound
    ensures IndexFor(elements, indexes, p, j) <= bound
    ensures IndexFor(elements, indexes, p, j) < U32_LIMIT
  {
    if elements != [] {
      var n := |elements| - 1;
      IndexForBound(elements[..n], indexes[..n], p, j, bound);
    }
  }

  lemma IndexesWithinCapacity(env: Env, maxSquareSize: nat, txs: seq<Bytes>, blobTxs: seq<BlobTx>, i: nat)
    requires Admissible(env, maxSquareSize, txs, blobTxs) && i < |SortedElements(blobTxs)|
    ensures var bound := SquareSizeUpperBound(env.appVersion) * SquareSizeUpperBound(env.appVersion);
            StartIndexes(SparseStart(env, txs, blobTxs), SortedElements(blobTxs))[i] <= bound
  {
    hide Cost, SortedElements, SparseStart, Lawful, BlobIndexes, BlobsEnd;
    BlobsEndWithinCost(env, txs, blobTxs);
    PowersOfTwo.SquareMonotone(maxSquareSize, SquareSizeUpperBound(env.appVersion));
    var lens := NumShares(SortedElements(blobTxs));
    BlobIndexAt(SparseStart(env, txs, blobTxs), SUBTREE_ROOT_THRESHOLD, lens, i);
  }

  /** Real share indexes take no more varint bytes than the worst-case ones. */
  lemma FinalPfbNoLonger(env: Env, maxSquareSize: nat, txs: seq<Bytes>, blobTxs: seq<BlobTx>, p: nat)
    requires Admissible(env, maxSquareSize, txs, blobTxs) && p < |blobTxs|
    ensures NoLonger(FinalPfbs(env, txs, blobTxs)[p], WorstWrapper(env, blobTxs[p]))
    ensures Uint32Indexes(FinalPfbs(env, txs, blobTxs)[p])
    ensures FinalPfbs(env, txs, blobTxs)[p].tx == blobTxs[p].tx
  {
    var bound := SquareSizeUpperBound(env.appVersion) * SquareSizeUpperBound(env.appVersion);
    var elements := SortedElements(blobTxs);
    var indexes := StartIndexes(SparseStart(env, txs, blobTxs), elements);
    forall i | 0 <= i < |indexes| ensures indexes[i] <= bound {
      IndexesWithinCapacity(env, maxSquareSize, txs, blobTxs, i);
    }
    hide Admissible, SortedElements, SparseStart, StartIndexes, IndexFor, Varint.DelimLen;
    var w := FinalPfbs(env, txs, blobTxs)[p];
    forall j | 0 <= j < |w.shareIndexes|
      ensures Varint.DelimLen(w.shareIndexes[j]) <= Varint.DelimLen(bound) && w.shareIndexes[j] < U32_LIMIT
    {
      IndexForBound(elements, indexes, p, j, bound);
      Varint.DelimLenMonotone(w.shareIndexes[j], bound);
    }
  }

  function PfbUnits(env: Env, txs: seq<Bytes>, blobTxs: seq<BlobTx>): (r: seq<Bytes>)
    ensures |r| == |blobTxs|
  {
    Encoded(env, FinalPfbs(env, txs, blobTxs))
  }

  lemma PfbCounterCovers(env: Env, maxSquareSize: nat, txs: seq<Bytes>, blobTxs: seq<BlobTx>)
    requires Admissible(env, maxSquareSize, txs, blobTxs)
    ensures |Stream(PfbUnits(env, txs, blobTxs))| <= StreamLen(WorstLens(env, blobTxs))
    ensures SharesFor(|Stream(PfbUnits(env, txs, blobTxs))|) <= PfbShareCount(env, blobTxs)
  {
    hide SharesFor, StreamLen, FinalPfbs, Cost, Stream;
    var units := PfbUnits(env, txs, blobTxs);
    forall p | 0 <= p < |units| ensures Lengths(units)[p] <= WorstLens(env, blobTxs)[p] {
      FinalPfbNoLonger(env, maxSquareSize, txs, blobTxs, p);
    }
    StreamLenOfUnits(units);
    SharesMonotone(Lengths(units), WorstLens(env, blobTxs));
  }

  /** Without blobs the wrappers have their worst-case size, so there is no gap behind the PFBs. */
  lemma NoBlobsNoGap(env: Env, txs: seq<Bytes>, blobTxs: seq<BlobTx>)
    requires SortedElements(blobTxs) == []
    ensures SharesFor(|Stream(PfbUnits(env, txs, blobTxs))|) == PfbShareCount(env, blobTxs)
  {
    hide SharesFor, StreamLen, Stream, NewElement;
    var units := PfbUnits(env, txs, blobTxs);
    forall p | 0 <= p < |units| ensures Lengths(units)[p] == WorstLens(env, blobTxs)[p] {
      if blobTxs[p].blobs != [] {
        SquareElements.SortedCover(blobTxs, p, 0);
      }
      assert FinalPfbs(env, txs, blobTxs)[p] == WorstWrapper(env, blobTxs[p]);
    }
    StreamLenOfUnits(units);
    assert Lengths(units) == WorstLens(env, blobTxs);
  }

  // ----- the square -----

  /** A square in closed form: the transactions, the PFBs, reserved padding up to the first blob, the
      blobs with padding between them, and tail padding. */
  ghost function SquareShares(env: Env, txs: seq<Bytes>, blobTxs: seq<BlobTx>): (r: seq<Share>)
    requires ValidBlobTxs(blobTxs)
  {
    Head(env, txs, blobTxs) + Middle(env, txs, blobTxs) + Tail(env, txs, blobTxs)
  }

  ghost function Middle(env: Env, txs: seq<Bytes>, blobTxs: seq<BlobTx>): (r: seq<Share>)
    requires ValidBlobTxs(blobTxs)
  {
    SortedPlaceable(blobTxs);
    Area(SparseStart(env, txs, blobTxs), SortedElements(blobTxs))
  }

  function Tail(env: Env, txs: seq<Bytes>, blobTxs: seq<BlobTx>): (r: seq<Share>)
  {
    TailPadding(Sub(Slots(Side(env, txs, blobTxs)), EndOfBlobs(env, txs, blobTxs)))
  }

  /** The shares in front of the first blob. */
  function Head(env: Env, txs: seq<Bytes>, blobTxs: seq<BlobTx>): (r: seq<Share>)
  {
    var txShares := CompactShares(TX_NAMESPACE, txs);
    var pfbShares := CompactShares(PAY_FOR_BLOB_NAMESPACE, PfbUnits(env, txs, blobTxs));
    txShares + pfbShares
    + PaddingShares(PRIMARY_RESERVED_PADDING_NAMESPACE, 0,
                    Sub(NonReservedStart(env, txs, blobTxs), |txShares| + |pfbShares|))
  }

  function Slots(side: nat): (n: nat)
  {
    side * side
  }

  function Sub(a: nat, b: nat): (r: nat)
  {
    if a < b then 0 else a - b
  }

  /** The first blob starts at its aligned index, behind the compact shares. */
  lemma StartOfBlobs(env: Env, txs: seq<Bytes>, blobTxs: seq<BlobTx>)
    ensures SparseStart(env, txs, blobTxs) <= NonReservedStart(env, txs, blobTxs) <= EndOfBlobs(env, txs, blobTxs)
  {
    hide SparseStart, SortedElements, NextShareIndex;
    var elements := SortedElements(blobTxs);
    NoBlobs(SparseStart(env, txs, blobTxs));
    if elements != [] {
      BlobIndexAt(SparseStart(env, txs, blobTxs), SUBTREE_ROOT_THRESHOLD, NumShares(elements), 0);
      assert NumShares(elements)[..0] == [];
    }
  }

  lemma HeadLength(env: Env, maxSquareSize: nat, txs: seq<Bytes>, blobTxs: seq<BlobTx>)
    requires Admissible(env, maxSquareSize, txs, blobTxs)
    ensures |CompactShares(TX_NAMESPACE, txs)| == TxShareCount(txs)
    ensures |CompactShares(PAY_FOR_BLOB_NAMESPACE, PfbUnits(env, txs, blobTxs))| <= PfbShareCount(env, blobTxs)
    ensures |Head(env, txs, blobTxs)| == NonReservedStart(env, txs, blobTxs)
  {
    hide Admissible, SharesFor, StreamLen, PfbUnits, SharesOf, NonReservedStart, Starts, PaddingShare;
    StreamLenOfUnits(txs);
    PfbCounterCovers(env, maxSquareSize, txs, blobTxs);
    StartOfBlobs(env, txs, blobTxs);
  }

  lemma AreaAndTailLength(env: Env, maxSquareSize: nat, txs: seq<Bytes>, blobTxs: seq<BlobTx>)
    requires Admissible(env, maxSquareSize, txs, blobTxs)
    ensures Placeable(SortedElements(blobTxs))
    ensures EndOfBlobs(env, txs, blobTxs) <= Side(env, txs, blobTxs) * Side(env, txs, blobTxs)
    ensures NonReservedStart(env, txs, blobTxs)
            + |Area(SparseStart(env, txs, blobTxs), SortedElements(blobTxs))| == EndOfBlobs(env, txs, blobTxs)
    ensures Area(SparseStart(env, txs, blobTxs), SortedElements(blobTxs)) == [] <==> SortedElements(blobTxs) == []
  {
    SortedPlaceable(blobTxs);
    BlobsEndWithinCost(env, txs, blobTxs);
    hide SparseStart, SortedElements, Cost, BlobMinSquareSize, BlobsEnd, Lawful, StartIndexes, Area;
    BlobMinSquareSizeFits(Cost(env, txs, blobTxs));
    AreaLength(SparseStart(env, txs, blobTxs), SortedElements(blobTxs));
    NoBlobs(SparseStart(env, txs, blobTxs));
  }

  /** Export never fails on what a builder can have admitted, and the square is the one above: every
      slot holds a share. */
  lemma ExportSucceeds(env: Env, maxSquareSize: nat, txs: seq<Bytes>, blobTxs: seq<BlobTx>)
    requires Admissible(env, maxSquareSize, txs, blobTxs)
    ensures ExportedSquare(env, txs, blobTxs) == Ok(SquareShares(env, txs, blobTxs))
    ensures |SquareShares(env, txs, blobTxs)| == Side(env, txs, blobTxs) * Side(env, txs, blobTxs)
  {
    hide Admissible, Finished, SquareShares;
    FinishedIsSquare(env, maxSquareSize, txs, blobTxs);
    SortedPlaceable(blobTxs);
    hide SparseStart, SortedElements, BlobPart, Area, Side;
    BlobLoopFillsArea(SparseStart(env, txs, blobTxs), SortedElements(blobTxs));
    if SparseStart(env, txs, blobTxs) == 0 {
      EmptySquareShares(env, txs, blobTxs);
    }
  }

  lemma AssembleParts(tx: seq<Share>, pfb: seq<Share>, blobs: seq<Share>, start: nat, side: nat)
    requires |tx| + |pfb| <= start && start + |blobs| <= side * side
    requires blobs == [] ==> start == |tx| + |pfb|
    ensures var head := tx + pfb + PaddingShares(PRIMARY_RESERVED_PADDING_NAMESPACE, 0, Sub(start, |tx| + |pfb|));
            Assemble(tx, pfb, blobs, start, side) == Ok(head + blobs + TailPadding(Sub(Slots(side), start + |blobs|)))
  {
    hide PaddingShares, TailPadding;
    assert EmptySlots(0) == [] && PaddingShares(PRIMARY_RESERVED_PADDING_NAMESPACE, 0, 0) == [];
  }

  lemma FinishedIsSquare(env: Env, maxSquareSize: nat, txs: seq<Bytes>, blobTxs: seq<BlobTx>)
    requires Admissible(env, maxSquareSize, txs, blobTxs)
    ensures ValidBlobTxs(blobTxs)
    ensures Finished(env, txs, blobTxs, Middle(env, txs, blobTxs)) == Ok(SquareShares(env, txs, blobTxs))
    ensures |SquareShares(env, txs, blobTxs)| == Side(env, txs, blobTxs) * Side(env, txs, blobTxs)
  {
    hide Admissible, CompactShares, Middle, PaddingShares, Assemble, NonReservedStart, Placeable, SortedElements, Side,
         BlobMinSquareSize, TailPadding, EndOfBlobs, ValidBlobTxs, Cost, PfbShareCount, PfbUnits, Finished;
    AdmissibleBlobs(env, maxSquareSize, txs, blobTxs);
    PartsFit(env, maxSquareSize, txs, blobTxs);
    FinishedAssembles(env, txs, blobTxs, Middle(env, txs, blobTxs));
    AssembleParts(CompactShares(TX_NAMESPACE, txs), CompactShares(PAY_FOR_BLOB_NAMESPACE, PfbUnits(env, txs, blobTxs)),
                  Middle(env, txs, blobTxs), NonReservedStart(env, txs, blobTxs), Side(env, txs, blobTxs));
  }

  lemma AdmissibleBlobs(env: Env, maxSquareSize: nat, txs: seq<Bytes>, blobTxs: seq<BlobTx>)
    requires Admissible(env, maxSquareSize, txs, blobTxs)
    ensures ValidBlobTxs(blobTxs) && Placeable(SortedElements(blobTxs))
  {
    hide Lawful, Cost, SortedElements, ValidBlobTxs, Placeable;
    SortedPlaceable(blobTxs);
  }

  lemma FinishedAssembles(env: Env, txs: seq<Bytes>, blobTxs: seq<BlobTx>, blobShares: seq<Share>)
    requires |CompactShares(PAY_FOR_BLOB_NAMESPACE, PfbUnits(env, txs, blobTxs))| <= PfbShareCount(env, blobTxs)
    ensures Finished(env, txs, blobTxs, blobShares)
         == Assemble(CompactShares(TX_NAMESPACE, txs), CompactShares(PAY_FOR_BLOB_NAMESPACE, PfbUnits(env, txs, blobTxs)),
                     blobShares, NonReservedStart(env, txs, blobTxs), Side(env, txs, blobTxs))
  {
    hide CompactShares, Assemble, NonReservedStart, BlobMinSquareSize, Cost, PfbShareCount, Encoded, FinalPfbs;
  }

  lemma PartsFit(env: Env, maxSquareSize: nat, txs: seq<Bytes>, blobTxs: seq<BlobTx>)
    requires Admissible(env, maxSquareSize, txs, blobTxs)
    ensures var compact := |CompactShares(TX_NAMESPACE, txs)|
                           + |CompactShares(PAY_FOR_BLOB_NAMESPACE, PfbUnits(env, txs, blobTxs))|;
            && Placeable(SortedElements(blobTxs))
            && |CompactShares(PAY_FOR_BLOB_NAMESPACE, PfbUnits(env, txs, blobTxs))| <= PfbShareCount(env, blobTxs)
            && compact <= NonReservedStart(env, txs, blobTxs)
            && |Head(env, txs, blobTxs)| == NonReservedStart(env, txs, blobTxs)
            && (Middle(env, txs, blobTxs) == [] ==> NonReservedStart(env, txs, blobTxs) == compact)
            && NonReservedStart(env, txs, blobTxs) + |Middle(env, txs, blobTxs)| == EndOfBlobs(env, txs, blobTxs)
            && EndOfBlobs(env, txs, blobTxs) <= Side(env, txs, blobTxs) * Side(env, txs, blobTxs)
  {
    AreaAndTailLength(env, maxSquareSize, txs, blobTxs);
    HeadLength(env, maxSquareSize, txs, blobTxs);
    StartOfBlobs(env, txs, blobTxs);
    if SortedElements(blobTxs) == [] {
      NoBlobsNoGap(env, txs, blobTxs);
    }
    hide Admissible, StreamLen, PfbUnits, SharesOf, Area, Starts, SharesFor, Stream, StartIndexes,
         BlobMinSquareSize, SortedElements, EndOfBlobs, Cost, Head;
  }

  lemma EmptySquareShares(env: Env, txs: seq<Bytes>, blobTxs: seq<BlobTx>)
    requires SparseStart(env, txs, blobTxs) == 0
    ensures txs == [] && blobTxs == []
    ensures SquareShares(env, txs, blobTxs) == EMPTY_SQUARE
  {
  }
}
