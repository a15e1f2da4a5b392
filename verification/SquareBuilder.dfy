/** The builder that admits transactions to a square and exports it (pkg/square/builder.go). */
module SquareBuilder {
  import opened Blobs
  import opened ByteSeqs
  import opened CommitmentRules
  import CompactSplitter
  import opened CompactStream
  import opened Counter
  import Namespaces
  import opened Results
  import opened ShareFormat
  import opened ShareRange
  import opened Sorting
  import opened SparseSplitter
  import opened SquareElements
  import opened SquareLayout
  import Varint

  /** Data lengths for which the 32-bit share count returns. */
  ghost predicate Countable(t: BlobTx) {
    forall j :: 0 <= j < |t.blobs| ==> Returns(|t.blobs[j].data|)
  }

  /** newElement. */
  method MakeElement(blob: Blob, pfbIndex: nat, blobIndex: nat) returns (e: Element)
    requires Returns(|blob.data|)
    ensures e == NewElement(blob, pfbIndex, blobIndex)
  {
    hide SubTreeWidth, SharesNeeded32, Returns;
    CutLength(|blob.data|);
    var numShares := SparseSharesNeeded(|blob.data| % U32_LIMIT);
    e := Element(blob, pfbIndex, blobIndex, numShares, SubTreeWidth(numShares, SUBTREE_ROOT_THRESHOLD) - 1);
  }

  class Builder {
    const env: Env
    const maxCapacity: nat
    var currentSize: nat
    var txs: seq<Bytes>
    var pfbs: seq<IndexWrapper>
    var blobs: seq<Element>
    const txCounter: CompactShareCounter
    const pfbCounter: CompactShareCounter
    var done: bool
    /** The blob transactions admitted so far. */
    ghost var blobTxs: seq<BlobTx>

    /** The running estimate is the cost of what was admitted, and nothing else is remembered: neither
        rejected transactions, nor earlier exports, which sort the blobs and fill in share indexes. */
    ghost predicate Valid()
      reads this, txCounter, pfbCounter
    {
      Consistent() && (done ==> pfbs == FinalPfbs(env, txs, blobTxs) && ExportedSquare(env, txs, blobTxs).Ok?)
    }

    ghost predicate Consistent()
      reads this`currentSize, this`txs, this`pfbs, this`blobs, this`blobTxs, txCounter, pfbCounter
    {
      && txCounter != pfbCounter && txCounter.Valid() && pfbCounter.Valid()
      && txCounter.Total() == StreamLen(Lengths(txs))
      && pfbCounter.Total() == StreamLen(WorstLens(env, blobTxs))
      && currentSize == Cost(env, txs, blobTxs) <= maxCapacity
      && SameShape(pfbs, blobTxs)
      && StableSort(ElementKey, blobs) == SortedElements(blobTxs)
    }

    constructor (env: Env, maxSquareSize: nat)
      ensures Valid() && this.env == env && maxCapacity == maxSquareSize * maxSquareSize
      ensures txs == [] && blobTxs == [] && fresh(txCounter) && fresh(pfbCounter)
    {
      this.env, maxCapacity, currentSize := env, maxSquareSize * maxSquareSize, 0;
      txs, pfbs, blobs, done, blobTxs := [], [], [], false, [];
      txCounter := new CompactShareCounter();
      pfbCounter := new CompactShareCounter();
    }

    predicate CanFit(shareNum: int)
      reads this
    {
      currentSize + shareNum <= maxCapacity
    }

    /** AppendTx: accepted exactly when the estimate with it stays within capacity; a rejected
        transaction leaves no trace. */
    method AppendTx(tx: Bytes) returns (ok: bool)
      requires Valid()
      modifies this, txCounter
      ensures Valid() && blobTxs == old(blobTxs) && pfbs == old(pfbs) && blobs == old(blobs)
      ensures ok <==> Cost(env, old(txs) + [tx], blobTxs) <= maxCapacity
      ensures txs == if ok then old(txs) + [tx] else old(txs)
      ensures done == (if ok then false else old(done))
    {
      hide SharesFor, StreamLen, StableSort, SortedElements, WrappedPfbs, AllElements, SumOffsets;
      LengthsSnoc(txs, tx);
      StreamLenSnoc(Lengths(txs), |tx|);
      var lenChange := txCounter.Add(|tx|);
      if CanFit(lenChange) {
        txs := txs + [tx];
        currentSize := currentSize + lenChange;
        done := false;
        return true;
      }
      txCounter.Revert();
      return false;
    }

    /** AppendBlobTx: the same for a PFB and its blobs. */
    method AppendBlobTx(t: BlobTx) returns (ok: bool)
      requires Valid() && Countable(t)
      modifies this, pfbCounter
      ensures Valid() && txs == old(txs)
      ensures ok <==> Cost(env, txs, old(blobTxs) + [t]) <= maxCapacity
      ensures blobTxs == if ok then old(blobTxs) + [t] else old(blobTxs)
      ensures !ok ==> pfbs == old(pfbs) && blobs == old(blobs)
      ensures done == (if ok then false else old(done))
    {
      hide SharesFor, StreamLen, StableSort, FinalPfbs, ExportedSquare, AllElements, SumOffsets, ElementsOf, WorstLens, Lengths, NewElement,
           SortedElements, SameShape;
      var iw := WorstWrapper(env, t);
      SameCount(pfbs, blobTxs);
      var size := |env.codec.encode(iw)|;
      WorstLensSnoc(env, blobTxs, t);
      StreamLenSnoc(WorstLens(env, blobTxs), size);
      var pfbShareDiff := pfbCounter.Add(size);

      var blobElements, maxBlobShareCount := NewElements(t, |pfbs|);
      AllElementsSnoc(blobTxs, t);
      SumOffsetsAppend(AllElements(blobTxs), blobElements);
      if CanFit(pfbShareDiff + maxBlobShareCount) {
        SortedSnoc(blobs, blobTxs, t);
        SameShapeSnoc(env, pfbs, blobTxs, t);
        blobs := blobs + blobElements;
        pfbs := pfbs + [iw];
        currentSize := currentSize + (pfbShareDiff + maxBlobShareCount);
        blobTxs := blobTxs + [t];
        done := false;
        return true;
      }
      pfbCounter.Revert();
      return false;
    }

    /** The elements of one blob transaction and the most shares they may take. */
    method NewElements(t: BlobTx, pfbIndex: nat) returns (blobElements: seq<Element>, maxBlobShareCount: nat)
      requires Countable(t)
      ensures blobElements == ElementsOf(t, pfbIndex) && maxBlobShareCount == SumOffsets(blobElements)
    {
      hide NewElement;
      blobElements, maxBlobShareCount := [], 0;
      for i := 0 to |t.blobs|
        invariant blobElements == ElementsOf(t, pfbIndex)[..i]
        invariant maxBlobShareCount == SumOffsets(blobElements)
      {
        var e := MakeElement(t.blobs[i], pfbIndex, i);
        assert (blobElements + [e])[..i] == blobElements;
        blobElements := blobElements + [e];
        maxBlobShareCount := maxBlobShareCount + MaxShareOffset(e);
      }
    }

    predicate IsEmpty()
      reads this, txCounter, pfbCounter
    {
      txCounter.Size() == 0 && pfbCounter.Size() == 0
    }

    /** Export: the square, or the error, is a function of the admitted transactions alone. */
    method Export() returns (r: Result<seq<Bytes>>)
      requires Valid()
      modifies this`pfbs, this`blobs, this`done
      ensures Valid()
      ensures r == ExportedSquare(env, txs, blobTxs)
      ensures r.Ok? && SparseStart(env, txs, blobTxs) > 0 ==> done
    {
      hide ExportedSquare, FinalPfbs, Consistent, SparseStart, EMPTY_SQUARE;
      NothingToExport(env, txs, blobTxs);
      var empty := Empty();
      if empty {
        return Ok(EMPTY_SQUARE);
      }
      r := ExportTransactions();
      if r.Ok? {
        done := true;
      }
    }

    method Empty() returns (empty: bool)
      requires Consistent()
      ensures empty == (SparseStart(env, txs, blobTxs) == 0)
    {
      hide SharesFor, StreamLen, StableSort, SumOffsets, AllElements;
      empty := IsEmpty();
    }

    /** Export when there is something to export. */
    method ExportTransactions() returns (r: Result<seq<Bytes>>)
      requires Consistent() && SparseStart(env, txs, blobTxs) > 0
      modifies this`pfbs, this`blobs
      ensures Consistent()
      ensures r == ExportedSquare(env, txs, blobTxs)
      ensures r.Ok? ==> pfbs == FinalPfbs(env, txs, blobTxs)
    {
      hide SharesFor, StreamLen, StableSort, SumOffsets, BlobPart, WrappedPfbs, SortedElements, Finished, StartIndexes, AllElements;
      SortBlobs();
      var start := txCounter.Size() + pfbCounter.Size();
      var blobShares, nonReservedStart := PlaceBlobs(start);
      if blobShares.Err? {
        return Err(blobShares.error);
      }
      r := FinishSquare(blobShares.value, nonReservedStart);
    }

    method FinishSquare(blobShares: seq<Share>, nonReservedStart: nat) returns (r: Result<seq<Bytes>>)
      requires Consistent() && pfbs == FinalPfbs(env, txs, blobTxs)
      requires nonReservedStart == NonReservedStart(env, txs, blobTxs)
      ensures r == Finished(env, txs, blobTxs, blobShares)
    {
      hide SharesFor, StreamLen, StableSort, SumOffsets, FinalPfbs, NonReservedStart, BlobMinSquareSize, Assemble, AllElements;
      var ss := BlobMinSquareSize(currentSize);
      var txShares, txCount := CompactSplitter.SplitUnits(Namespaces.TX_NAMESPACE, env.txKey, txs);
      var encoded := EncodePfbs();
      var pfbShares, pfbCount := CompactSplitter.SplitUnits(Namespaces.PAY_FOR_BLOB_NAMESPACE, env.txKey, encoded);
      if pfbCounter.Size() < pfbCount {
        return Err(PfbCounterTooSmall);
      }
      r := WriteSquare(txShares, pfbShares, blobShares, nonReservedStart, ss);
    }

    /** Sorts the blobs by namespace, keeping the order of blobs in the same namespace. */
    method SortBlobs()
      requires StableSort(ElementKey, blobs) == SortedElements(blobTxs)
      modifies this`blobs
      ensures blobs == SortedElements(blobTxs) && StableSort(ElementKey, blobs) == blobs
    {
      StableSortSorts(ElementKey, blobs);
      SortOfSorted(ElementKey, StableSort(ElementKey, blobs));
      blobs := StableSort(ElementKey, blobs);
    }

    /** Marshals the wrapped PFBs. */
    method EncodePfbs() returns (encoded: seq<Bytes>)
      ensures encoded == Encoded(env, pfbs)
    {
      encoded := [];
      for i := 0 to |pfbs|
        invariant encoded == Encoded(env, pfbs)[..i]
      {
        encoded := encoded + [env.codec.encode(pfbs[i])];
      }
    }

    /** The blob loop of Export: aligns every blob, records its index in the PFB that paid for it and
        writes it behind the padding it needs. */
    method PlaceBlobs(start: nat) returns (r: Result<seq<Share>>, nonReservedStart: nat)
      requires SameShape(pfbs, blobTxs) && blobs == SortedElements(blobTxs)
      modifies this`pfbs
      ensures SameShape(pfbs, blobTxs)
      ensures r == BlobPart([], start, blobs, true)
      ensures r.Ok? ==> pfbs == WrappedPfbs(blobTxs, blobs, StartIndexes(start, blobs))
      ensures r.Ok? ==> nonReservedStart == if blobs == [] then start else StartIndexes(start, blobs)[0]
    {
      hide SortedElements, BlobPart, NextShareIndex, Recorded, SameShape, Written, WrappedPfbs, StartIndexes, BlobsEnd,
           Record, Describes, NumShares;
      NothingPlaced(pfbs, blobs, start);
      nonReservedStart := start;
      var cursor, endOfLastBlob := start, start;
      var blobWriter := new SparseShareSplitter();
      ghost var lens, indexes := NumShares(blobs), StartIndexes(start, blobs);
      for i := 0 to |blobs|
        invariant SameShape(pfbs, blobTxs) && Recorded(pfbs, blobs[..i], indexes[..i])
        invariant endOfLastBlob == BlobsEnd(start, SUBTREE_ROOT_THRESHOLD, lens[..i])
        invariant nonReservedStart == if i == 0 then start else indexes[0]
        invariant BlobPart([], start, blobs, true) == BlobPart(blobWriter.shares, endOfLastBlob, blobs[i..], i == 0)
        invariant fresh(blobWriter)
      {
        var element := blobs[i];
        PlaceStep(blobs, start, i, endOfLastBlob, blobWriter.shares);
        SortedDescribe(blobTxs, i);
        Recordable(pfbs, blobTxs, element);
        RecordStep(pfbs, blobTxs, blobs[..i], indexes[..i], element, indexes[i]);
        assert blobs[..i + 1] == blobs[..i] + [blobs[i]] && indexes[..i + 1] == indexes[..i] + [indexes[i]];

        cursor := NextShareIndex(endOfLastBlob, element.numShares, SUBTREE_ROOT_THRESHOLD);
        if i == 0 {
          nonReservedStart := cursor;
        }
        var padding := cursor - endOfLastBlob;
        if padding > element.maxPadding {
          return Err(PaddingTooLong), nonReservedStart;
        }
        pfbs := Record(pfbs, element, cursor);
        var written := WriteElement(blobWriter, element.blob, padding, i == 0);
        if written.Err? {
          return Err(written.error), nonReservedStart;
        }
        cursor := cursor + element.numShares;
        endOfLastBlob := cursor;
      }
      assert blobs[..|blobs|] == blobs && indexes[..|blobs|] == indexes && blobs[|blobs|..] == [];
      AllRecorded(pfbs, blobTxs, indexes);
      NoMoreBlobs(blobWriter.shares, endOfLastBlob, |blobs| == 0);
      r := Ok(blobWriter.shares);
    }

    /** Padding behind the previous blob, then the blob. */
    method WriteElement(w: SparseShareSplitter, blob: Blob, padding: nat, first: bool) returns (r: Result<()>)
      modifies w
      ensures match Written(old(w.shares), blob, padding, first)
              case Err(e) => r == Err(e)
              case Ok(shares) => r == Ok(()) && w.shares == shares
    {
      hide PaddingShares, BlobShares;
      if !first {
        var padded := w.WriteNamespacePaddingShares(padding);
        if padded.Err? {
          return Err(padded.error);
        }
      }
      r := w.Write(blob);
    }

    /** The exported PFBs, after exporting if that has not been done yet. */
    method EnsureExported() returns (r: Result<()>)
      requires Valid()
      modifies this`pfbs, this`blobs, this`done
      ensures Valid()
      ensures r.Err? <==> ExportedSquare(env, txs, blobTxs).Err?
      ensures r.Err? ==> r.error == ExportedSquare(env, txs, blobTxs).error
      ensures r.Ok? ==> pfbs == FinalPfbs(env, txs, blobTxs)
    {
      hide ExportedSquare, FinalPfbs, Consistent, SparseStart;
      if !done {
        var exported := Export();
        if exported.Err? {
          return Err(exported.error);
        }
        NoPfbs(env, txs, blobTxs);
        ShapeOfPfbs();
      }
      return Ok(());
    }

    lemma ShapeOfPfbs()
      requires Consistent()
      ensures |pfbs| == |blobTxs|
    {
    }

    /** FindTxShareRange: the shares from the one in which the transaction starts to the one in which it
        ends. */
    method FindTxShareRange(txIndex: int) returns (r: Result<Range>)
      requires Valid()
      modifies this`pfbs, this`blobs, this`done
      ensures Valid()
      ensures match ExportedSquare(env, txs, blobTxs)
              case Err(e) => r == Err(e)
              case Ok(_) =>
                if 0 <= txIndex < |txs| + |blobTxs| then r == Ok(TxSpan(env, txs, blobTxs, txIndex))
                else r == Err(IndexOutOfRange)
    {
      hide ExportedSquare, Consistent, FinalPfbs, SharesFor, StreamLen;
      var exported := EnsureExported();
      ShapeOfPfbs();
      if exported.Err? {
        return Err(exported.error);
      }
      if txIndex < 0 || txIndex >= |txs| + |pfbs| {
        return Err(IndexOutOfRange);
      }
      var span := LocateTx(txIndex);
      return Ok(span);
    }

    /** Counters that have counted the transactions in front of `txIndex`. */
    method CountBefore(txIndex: nat) returns (txWriter: CompactShareCounter, pfbWriter: CompactShareCounter)
      requires txIndex < |txs| + |pfbs|
      ensures fresh(txWriter) && fresh(pfbWriter) && txWriter != pfbWriter && txWriter.Valid() && pfbWriter.Valid()
      ensures txWriter.Total() == StreamLen(Lengths(txs)[..if txIndex < |txs| then txIndex else |txs|])
      ensures pfbWriter.Total()
           == StreamLen(Lengths(Encoded(env, pfbs))[..if txIndex < |txs| then 0 else txIndex - |txs|])
    {
      hide StreamLen;
      txWriter := new CompactShareCounter();
      pfbWriter := new CompactShareCounter();
      ghost var txLens, pfbLens := Lengths(txs), Lengths(Encoded(env, pfbs));
      NothingCounted(txLens, pfbLens);
      for i := 0 to txIndex
        invariant fresh(txWriter) && fresh(pfbWriter) && txWriter != pfbWriter && txWriter.Valid() && pfbWriter.Valid()
        invariant txWriter.Total() == StreamLen(txLens[..if i < |txs| then i else |txs|])
        invariant pfbWriter.Total() == StreamLen(pfbLens[..if i < |txs| then 0 else i - |txs|])
      {
        if i < |txs| {
          CountedOneMore(txLens, i);
          var _ := txWriter.Add(|txs[i]|);
        } else {
          CountedOneMore(pfbLens, i - |txs|);
          var _ := pfbWriter.Add(|env.codec.encode(pfbs[i - |txs|])|);
        }
      }
    }

    /** The range of a transaction once the PFBs carry their share indexes. */
    method LocateTx(txIndex: nat) returns (span: Range)
      requires txIndex < |txs| + |pfbs| && |pfbs| == |blobTxs| && pfbs == FinalPfbs(env, txs, blobTxs)
      ensures span == TxSpan(env, txs, blobTxs, txIndex)
    {
      hide SharesFor, StreamLen, FinalPfbs, Offset;
      ghost var txLens, pfbLens := Lengths(txs), Lengths(Encoded(env, pfbs));
      var txWriter, pfbWriter := CountBefore(txIndex);
      NothingCounted(txLens, pfbLens);
      assert txLens[..|txs|] == txLens;
      FirstShareOf(txWriter.shares, txWriter.remainder);
      FirstShareOf(pfbWriter.shares, pfbWriter.remainder);
      var start := txWriter.Size() + pfbWriter.Size() - 1;
      if txIndex < |txs| {
        CountedOneMore(txLens, txIndex);
        if txWriter.remainder == 0 {
          start := start + 1;
        }
        var _ := txWriter.Add(|txs[txIndex]|);
      } else {
        CountedOneMore(pfbLens, txIndex - |txs|);
        if pfbWriter.remainder == 0 {
          start := start + 1;
        }
        var _ := pfbWriter.Add(|env.codec.encode(pfbs[txIndex - |txs|])|);
      }
      var end := txWriter.Size() + pfbWriter.Size();
      return Range(start, end);
    }

    /** FindBlobStartingIndex: the share index recorded for a blob of the transaction at `pfbIndex`. */
    method FindBlobStartingIndex(pfbIndex0: int, blobIndex: int) returns (r: Result<nat>)
      requires Valid()
      modifies this`pfbs, this`blobs, this`done
      ensures Valid()
      ensures !(|txs| <= pfbIndex0 < |txs| + |blobTxs| && 0 <= blobIndex) ==> r == Err(IndexOutOfRange)
      ensures |txs| <= pfbIndex0 < |txs| + |blobTxs| && 0 <= blobIndex ==>
                match ExportedSquare(env, txs, blobTxs)
                case Err(e) => r == Err(e)
                case Ok(_) =>
                  var indexes := FinalPfbs(env, txs, blobTxs)[pfbIndex0 - |txs|].shareIndexes;
                  r == if blobIndex < |indexes| then Ok(indexes[blobIndex]) else Err(IndexOutOfRange)
    {
      hide ExportedSquare, Consistent, FinalPfbs;
      ShapeOfPfbs();
      if pfbIndex0 < |txs| {
        return Err(IndexOutOfRange);
      }
      var pfbIndex := pfbIndex0 - |txs|;
      if pfbIndex >= |pfbs| || blobIndex < 0 {
        return Err(IndexOutOfRange);
      }
      var exported := EnsureExported();
      if exported.Err? {
        return Err(exported.error);
      }
      if blobIndex >= |pfbs[pfbIndex].shareIndexes| {
        return Err(IndexOutOfRange);
      }
      return Ok(pfbs[pfbIndex].shareIndexes[blobIndex]);
    }

    /** BlobShareLength: the number of shares of a blob of the transaction at `pfbIndex`. */
    method BlobShareLength(pfbIndex0: int, blobIndex: int) returns (r: Result<nat>)
      requires Valid()
      ensures r == if |txs| <= pfbIndex0 < |txs| + |blobTxs| && 0 <= blobIndex < |blobTxs[pfbIndex0 - |txs|].blobs|
                   then Ok(SharesNeeded32(|blobTxs[pfbIndex0 - |txs|].blobs[blobIndex].data|)) else Err(IndexOutOfRange)
    {
      hide ExportedSquare, Consistent, FinalPfbs, NewElement, SharesNeeded32;
      ShapeOfPfbs();
      if pfbIndex0 < |txs| {
        return Err(IndexOutOfRange);
      }
      var pfbIndex := pfbIndex0 - |txs|;
      if pfbIndex >= |pfbs| || blobIndex < 0 {
        return Err(IndexOutOfRange);
      }
      for i := 0 to |blobs|
        invariant forall k :: 0 <= k < i ==> !(blobs[k].pfbIndex == pfbIndex && blobs[k].blobIndex == blobIndex)
      {
        if blobs[i].pfbIndex == pfbIndex && blobs[i].blobIndex == blobIndex {
          BlobsDescribe(i);
          NumSharesOf(blobTxs[pfbIndex].blobs[blobIndex], pfbIndex, blobIndex);
          return Ok(blobs[i].numShares);
        }
      }
      if blobIndex < |blobTxs[pfbIndex].blobs| {
        BlobsCover(pfbIndex, blobIndex);
        assert false;
      }
      return Err(IndexOutOfRange);
    }

    lemma BlobsDescribe(i: nat)
      requires Consistent() && i < |blobs|
      ensures Describes(blobs[i], blobTxs)
    {
      hide NewElement, StableSort;
      StableSortSorts(ElementKey, blobs);
      StableSortSorts(ElementKey, AllElements(blobTxs));
      assert blobs[i] in multiset(AllElements(blobTxs));
      var k :| 0 <= k < |AllElements(blobTxs)| && AllElements(blobTxs)[k] == blobs[i];
      ElementsDescribe(blobTxs, k);
    }

    lemma BlobsCover(p: nat, j: nat)
      requires Consistent() && p < |blobTxs| && j < |blobTxs[p].blobs|
      ensures exists k :: 0 <= k < |blobs| && blobs[k].pfbIndex == p && blobs[k].blobIndex == j
    {
      hide StableSort;
      StableSortSorts(ElementKey, blobs);
      StableSortSorts(ElementKey, AllElements(blobTxs));
      ElementsCover(blobTxs, p, j);
      assert NewElement(blobTxs[p].blobs[j], p, j) in multiset(blobs);
    }
  }

  lemma NumSharesOf(blob: Blob, p: nat, j: nat)
    ensures NewElement(blob, p, j).numShares == SharesNeeded32(|blob.data|)
  {
  }

  /** Without compact shares there are no PFBs. */
  lemma NoPfbs(env: Env, txs: seq<Bytes>, blobTxs: seq<BlobTx>)
    ensures SparseStart(env, txs, blobTxs) == 0 ==> txs == [] && blobTxs == [] && FinalPfbs(env, txs, blobTxs) == []
  {
  }

  lemma NothingCounted(txLens: seq<nat>, pfbLens: seq<nat>)
    ensures StreamLen(txLens[..0]) == 0 && StreamLen(pfbLens[..0]) == 0
  {
  }

  lemma CountedOneMore(lens: seq<nat>, i: nat)
    requires i < |lens|
    ensures StreamLen(lens[..i + 1]) == StreamLen(lens[..i]) + lens[i] + Varint.DelimLen(lens[i])
  {
    assert lens[..i + 1] == lens[..i] + [lens[i]];
    StreamLenSnoc(lens[..i], lens[i]);
  }

  /** The share that the next byte goes to. */
  lemma FirstShareOf(shares: nat, remainder: nat)
    requires remainder < Capacity(shares)
    ensures SharesFor(Offset(shares) + remainder + 1) - 1 == shares
    ensures SharesFor(Offset(shares) + remainder) == if remainder == 0 then shares else shares + 1
  {
    OffsetNext(shares);
    SharesForUnique(Offset(shares) + remainder + 1, shares + 1);
    SizeIsSharesFor(shares, remainder);
  }

  lemma NothingToExport(env: Env, txs: seq<Bytes>, blobTxs: seq<BlobTx>)
    ensures SparseStart(env, txs, blobTxs) == 0 ==> ExportedSquare(env, txs, blobTxs) == Ok(EMPTY_SQUARE)
  {
  }

  function Written(shares: seq<Share>, blob: Blob, padding: nat, first: bool): (r: Result<seq<Share>>)
  {
    match (if first then Ok(shares) else PadTo(shares, padding))
    case Err(e) => Err(e)
    case Ok(padded) => WriteBlob(padded, blob)
  }

  /** One iteration of the blob loop, in terms of the specification. */
  lemma PlaceStep(blobs: seq<Element>, start: nat, i: nat, end: nat, shares: seq<Share>)
    requires i < |blobs| && end == BlobsEnd(start, SUBTREE_ROOT_THRESHOLD, NumShares(blobs)[..i])
    ensures var lens, e := NumShares(blobs), blobs[i];
            var cursor := NextShareIndex(end, e.numShares, SUBTREE_ROOT_THRESHOLD);
            && cursor == StartIndexes(start, blobs)[i]
            && cursor + e.numShares == BlobsEnd(start, SUBTREE_ROOT_THRESHOLD, lens[..i + 1])
            && BlobPart(shares, end, blobs[i..], i == 0)
               == if cursor - end > e.maxPadding then Err(PaddingTooLong)
                  else match Written(shares, e.blob, cursor - end, i == 0)
                    case Err(err) => Err(err)
                    case Ok(written) => BlobPart(written, cursor + e.numShares, blobs[i + 1..], false)
  {
    hide NextShareIndex, PadTo, WriteBlob, BlobIndexes, BlobsEnd;
    BlobIndexAt(start, SUBTREE_ROOT_THRESHOLD, NumShares(blobs), i);
    assert blobs[i..][1..] == blobs[i + 1..];
  }

  lemma NothingPlaced(pfbs: seq<IndexWrapper>, blobs: seq<Element>, start: nat)
    ensures Recorded(pfbs, blobs[..0], StartIndexes(start, blobs)[..0]) && blobs[0..] == blobs
    ensures BlobsEnd(start, SUBTREE_ROOT_THRESHOLD, NumShares(blobs)[..0]) == start
  {
    assert NumShares(blobs)[..0] == [];
  }

  lemma Recordable(pfbs: seq<IndexWrapper>, blobTxs: seq<BlobTx>, e: Element)
    requires SameShape(pfbs, blobTxs) && Describes(e, blobTxs)
    ensures e.pfbIndex < |pfbs| && e.blobIndex < |pfbs[e.pfbIndex].shareIndexes|
  {
  }

  lemma NoMoreBlobs(shares: seq<Share>, end: nat, first: bool)
    ensures BlobPart(shares, end, [], first) == Ok(shares)
  {
  }

  /** WriteSquare: copies the parts into a square of empty slots. */
  method WriteSquare(
    txShares: seq<Share>, pfbShares: seq<Share>, blobShares: seq<Share>, nonReservedStart: nat, squareSize: nat)
    returns (r: Result<seq<Bytes>>)
    ensures r == Assemble(txShares, pfbShares, blobShares, nonReservedStart, squareSize)
  {
    var totalShares := squareSize * squareSize;
    var pfbStartIndex := |txShares|;
    var paddingStartIndex := pfbStartIndex + |pfbShares|;
    if nonReservedStart < paddingStartIndex {
      return Err(CompactSharesDoNotFit);
    }
    var padding := PaddingShares(Namespaces.PRIMARY_RESERVED_PADDING_NAMESPACE, 0, nonReservedStart - paddingStartIndex);
    var endOfLastBlob := nonReservedStart + |blobShares|;
    if totalShares < endOfLastBlob {
      return Err(BlobsDoNotFit);
    }
    hide PaddingShares, TailPadding, EmptySlots;
    var square := new Bytes[totalShares](_ => []);
    ghost var filled: seq<Bytes> := [];
    BlankSquare(square[..], totalShares);
    filled := CopyShares(square, 0, txShares, filled);
    assert filled == txShares;
    filled := CopyShares(square, pfbStartIndex, pfbShares, filled);
    if |blobShares| > 0 {
      filled := CopyShares(square, paddingStartIndex, padding, filled);
      filled := CopyShares(square, nonReservedStart, blobShares, filled);
    } else {
      SkipSlots(square[..], filled, nonReservedStart - paddingStartIndex);
      filled := filled + EmptySlots(nonReservedStart - paddingStartIndex) + blobShares;
    }
    if totalShares > endOfLastBlob {
      filled := CopyShares(square, endOfLastBlob, TailPadding(totalShares - endOfLastBlob), filled);
    } else {
      NoSlots(square[..], filled);
      filled := filled + TailPadding(0);
    }
    NoSlots(square[..], filled);
    r := Ok(square[..]);
  }

  /** The slots are filled up to a point and empty from there on. */
  ghost predicate FilledTo(square: seq<Bytes>, filled: seq<Bytes>) {
    |filled| <= |square| && square == filled + EmptySlots(|square| - |filled|)
  }

  lemma BlankSquare(square: seq<Bytes>, n: nat)
    requires |square| == n && forall i :: 0 <= i < n ==> square[i] == []
    ensures FilledTo(square, [])
  {
  }

  lemma SkipSlots(square: seq<Bytes>, filled: seq<Bytes>, n: nat)
    requires FilledTo(square, filled) && |filled| + n <= |square|
    ensures FilledTo(square, filled + EmptySlots(n) + [])
  {
  }

  lemma NoSlots(square: seq<Bytes>, filled: seq<Bytes>)
    requires FilledTo(square, filled) && |filled| == |square|
    ensures square == filled && filled + TailPadding(0) == filled
  {
  }

  method CopyShares(square: array<Bytes>, at: nat, shares: seq<Bytes>, ghost filled: seq<Bytes>)
    returns (ghost filled': seq<Bytes>)
    requires FilledTo(square[..], filled) && at == |filled| && at + |shares| <= square.Length
    modifies square
    ensures filled' == filled + shares && FilledTo(square[..], filled')
  {
    for i := 0 to |shares|
      invariant square[..] == old(square[..])[..at] + shares[..i] + old(square[..])[at + i..]
    {
      square[at + i] := shares[i];
    }
    filled' := filled + shares;
  }
}
