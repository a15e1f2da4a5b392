/** Where transactions and blobs are in an exported square (FindTxShareRange in pkg/square/builder.go,
    TxShareRange and BlobShareRange in pkg/square/square.go). */
module Locations {
  import opened Blobs
  import opened ByteSeqs
  import CompactParser
  import opened CompactSplitter
  import opened CompactStream
  import opened Counter
  import opened Namespaces
  import PowersOfTwo
  import opened Results
  import opened ShareFormat
  import opened ShareRange
  import SparseSplitter
  import opened Square
  import SquareBuilder
  import opened SquareLayout
  import opened SquarePlacement
  import opened SquareTheorems
  import opened Varint

  /** Byte `x` of the stream of units lies in share k, belongs to unit i, and is stored there. The shares of
      the units start at share `base` of the square. */
  ghost predicate StoresByte(square: seq<Share>, base: nat, units: seq<Bytes>, i: nat, k: nat, x: nat)
    requires i < |units|
  {
    && base <= k < |square|
    && Starts(units)[i] <= x < Starts(units)[i] + |Delimited(units[i])|
    && Offset(k - base) <= x < Offset(k - base + 1)
    && Stored(square[k], x - Offset(k - base), Delimited(units[i])[x - Starts(units)[i]])
  }

  ghost predicate Stored(s: Share, at: nat, b: byte) {
    RawData(s).Ok? && at < |RawData(s).value| && RawData(s).value[at] == b
  }

  ghost predicate StoresSome(square: seq<Share>, base: nat, units: seq<Bytes>, i: nat, k: nat)
    requires i < |units|
  {
    exists x: nat :: StoresByte(square, base, units, i, k, x)
  }

  /** A span is the set of shares that overlap the unit's bytes. */
  lemma SpanOverlaps(units: seq<Bytes>, i: nat, k: nat)
    requires i < |units|
    ensures var span, a := SpanOf(Lengths(units), i), Starts(units)[i];
            span.start <= k < span.end <==> a < Offset(k + 1) && Offset(k) < a + |Delimited(units[i])|
  {
    hide SharesFor, Offset, StreamLen, Starts, Stream;
    var lens, a := Lengths(units), Starts(units)[i];
    CompactParser.StartOf(units, i);
    StreamLenOfUnits(units[..i]);
    StreamLenOfUnits(units[..i + 1]);
    assert lens[..i] == Lengths(units[..i]) && lens[..i + 1] == Lengths(units[..i + 1]);
    ShareOrder(a + 1, k + 1);
    ShareOrder(a + |Delimited(units[i])|, k);
  }

  /** The k-th compact share stores the stream's bytes from its offset on. */
  lemma CompactStores(ns: Bytes, units: seq<Bytes>, i: nat, k: nat, x: nat)
    requires IsCompactNamespace(ns) && i < |units| && k < |CompactShares(ns, units)|
    requires Starts(units)[i] <= x < Starts(units)[i] + |Delimited(units[i])|
    requires Offset(k) <= x < Offset(k + 1)
    ensures Stored(CompactShares(ns, units)[k], x - Offset(k), Delimited(units[i])[x - Starts(units)[i]])
  {
    hide SharesFor, Starts, Stream, RawData, Offset, CompactShares, Delimited, PaddedData;
    ShareContent(ns, units, k);
    CompactParser.StreamAt(units, i, x - Starts(units)[i]);
    var data := PaddedData(Stream(units));
    assert data[Offset(k)..Offset(k + 1)][x - Offset(k)] == data[x];
    PaddedAt(Stream(units), x);
  }

  lemma PaddedAt(data: Bytes, x: nat)
    requires x < |data|
    ensures x < |PaddedData(data)| && PaddedData(data)[x] == data[x]
  {
    hide SharesFor, Offset;
  }

  lemma ShareContent(ns: Bytes, units: seq<Bytes>, k: nat)
    requires IsCompactNamespace(ns) && k < |CompactShares(ns, units)|
    ensures Offset(k) <= Offset(k + 1) <= |PaddedData(Stream(units))|
    ensures RawData(CompactShares(ns, units)[k]) == Ok(PaddedData(Stream(units))[Offset(k)..Offset(k + 1)])
  {
    hide SharesFor, Starts, Stream, RawData, Offset, PaddedData, ShareAt;
    OffsetMonotone(k, SharesFor(|Stream(units)|));
    CompactParser.ShareFields(ns, PaddedData(Stream(units)), Starts(units), |Stream(units)| % U32_LIMIT, k);
  }

  /** When the compact shares of the units stand at `base`, the span of a unit, moved there, holds exactly
      the shares that store a byte of it. */
  lemma SpanIsExact(square: seq<Share>, base: nat, ns: Bytes, units: seq<Bytes>, i: nat, k: nat)
    requires IsCompactNamespace(ns) && i < |units| && HasAt(square, base, CompactShares(ns, units))
    ensures var span := SpanOf(Lengths(units), i);
            base + span.start <= k < base + span.end <==> StoresSome(square, base, units, i, k)
  {
    hide SpanOf, CompactShares, Starts, Offset, Stored, Delimited;
    var a := Starts(units)[i];
    if k >= base {
      SpanOverlaps(units, i, k - base);
      if a < Offset(k - base + 1) && Offset(k - base) < a + |Delimited(units[i])| {
        var x := if a < Offset(k - base) then Offset(k - base) else a;
        SpanWithinShares(ns, units, i, k - base);
        CompactParser.OffsetGrows(k - base);
        CompactStores(ns, units, i, k - base, x);
        var shares := CompactShares(ns, units);
        assert square[k] == square[base..base + |shares|][k - base] == shares[k - base];
        assert StoresByte(square, base, units, i, k, x);
      }
    }
  }

  lemma SpanWithinShares(ns: Bytes, units: seq<Bytes>, i: nat, k: nat)
    requires |ns| == NAMESPACE_SIZE && i < |units| && Offset(k) < Starts(units)[i] + |Delimited(units[i])|
    ensures k < |CompactShares(ns, units)|
  {
    hide SharesFor, Offset, Starts, Stream, Delimited;
    CompactParser.StartOf(units, i);
    assert |Delimited(units[i])| == DelimLen(|units[i]|) + |units[i]|;
    ShareOrder(|Stream(units)|, k);
  }

  /** The range that a splitter records for a unit without a later unit of the same key holds exactly the
      shares of its export that store a byte of the unit. */
  lemma RecordedRangeIsExact(ns: Bytes, txKey: Bytes -> Bytes, units: seq<Bytes>, i: nat, k: nat)
    requires IsCompactNamespace(ns) && i < |units|
    requires forall j :: i < j < |units| ==> txKey(units[j]) != txKey(units[i])
    ensures txKey(units[i]) in RecordedRanges(txKey, units)
    ensures var range := RecordedRanges(txKey, units)[txKey(units[i])];
            range.start <= k < range.end <==> StoresSome(CompactShares(ns, units), 0, units, i, k)
  {
    hide CompactShares, Stream, Span, SpanOf, StoresSome, StreamLen, RecordedRanges, HasAt;
    RecordedRangeOf(txKey, units, i);
    SpanOfBytes(units, i);
    HasItself(CompactShares(ns, units));
    SpanIsExact(CompactShares(ns, units), 0, ns, units, i, k);
  }

  lemma SpanOfBytes(units: seq<Bytes>, i: nat)
    requires i < |units|
    ensures SpanOf(Lengths(units), i) == Span(|Stream(units[..i])|, |Stream(units[..i + 1])|)
  {
    hide Stream, Span, StreamLen;
    StreamLenOfUnits(units[..i]);
    StreamLenOfUnits(units[..i + 1]);
    assert Lengths(units)[..i] == Lengths(units[..i]) && Lengths(units)[..i + 1] == Lengths(units[..i + 1]);
  }

  lemma HasItself<T>(all: seq<T>)
    ensures HasAt(all, 0, all)
  {
  }

  /** The transaction at `i` of a square: the compact part it belongs to and its index there. */
  ghost predicate StoresTx(env: Env, txs: seq<Bytes>, blobTxs: seq<BlobTx>, i: nat, k: nat)
    requires ValidBlobTxs(blobTxs) && i < |txs| + |blobTxs|
  {
    if i < |txs| then StoresSome(SquareShares(env, txs, blobTxs), 0, txs, i, k)
    else StoresSome(SquareShares(env, txs, blobTxs), TxShareCount(txs), PfbUnits(env, txs, blobTxs), i - |txs|, k)
  }

  /** The range that FindTxShareRange returns holds exactly the shares of the exported square that store at
      least one byte of the delimited transaction. */
  lemma TxSpanIsExact(env: Env, maxSquareSize: nat, txs: seq<Bytes>, blobTxs: seq<BlobTx>, i: nat, k: nat)
    requires Admissible(env, maxSquareSize, txs, blobTxs) && i < |txs| + |blobTxs|
    ensures ValidBlobTxs(blobTxs)
    ensures var span := TxSpan(env, txs, blobTxs, i);
            span.start <= k < span.end <==> StoresTx(env, txs, blobTxs, i, k)
  {
    hide Admissible, ValidBlobTxs, SquareShares, BehindPfbs, SpanOf, StoresSome, FinalPfbs, CompactShares, TxShareCount;
    AdmissibleBlobs(env, maxSquareSize, txs, blobTxs);
    SquareInParts(env, txs, blobTxs);
    HeadLength(env, maxSquareSize, txs, blobTxs);
    var square, pfbUnits := SquareShares(env, txs, blobTxs), PfbUnits(env, txs, blobTxs);
    PartsAt(TxShares(txs), PfbShares(env, txs, blobTxs), BehindPfbs(env, txs, blobTxs));
    if i < |txs| {
      SpanIsExact(square, 0, TX_NAMESPACE, txs, i, k);
    } else {
      SpanIsExact(square, TxShareCount(txs), PAY_FOR_BLOB_NAMESPACE, pfbUnits, i - |txs|, k);
    }
  }

  lemma PartsAt<T>(a: seq<T>, b: seq<T>, c: seq<T>)
    ensures HasAt(a + (b + c), 0, a) && HasAt(a + (b + c), |a|, b)
  {
  }

  // ----- from the list of transactions -----

  method TxShareRange(env: Env, txs: seq<Bytes>, txIndex: int) returns (r: Result<Range>)
    requires Processable(txs)
    ensures match ConstructedSquare(env, SquareSizeUpperBound(env.appVersion), txs)
            case Err(e) => r == Err(e)
            case Ok(_) =>
              if 0 <= txIndex < |NormalTxs(txs)| + |BlobTxs(txs)|
              then r == Ok(TxSpan(env, NormalTxs(txs), BlobTxs(txs), txIndex)) else r == Err(IndexOutOfRange)
  {
    hide ExportedSquare, NormalTxs, BlobTxs, Problem, Cost, TxSpan;
    UpperBoundIsPow2(env.appVersion);
    var builder := NewBuilder(env, SquareSizeUpperBound(env.appVersion), txs);
    if builder.Err? {
      return Err(builder.error);
    }
    r := builder.value.FindTxShareRange(txIndex);
  }

  lemma UpperBoundIsPow2(appVersion: nat)
    ensures PowersOfTwo.IsPow2(SquareSizeUpperBound(appVersion))
  {
    assert PowersOfTwo.IsPow2(16);
    assert PowersOfTwo.IsPow2(128) && PowersOfTwo.IsPow2(256);
  }

  /** The index of a blob and the number of its shares. */
  method LocateBlob(builder: SquareBuilder.Builder, txIndex: int, blobIndex: int) returns (r: Result<Range>)
    requires builder.Valid()
    modifies builder
    ensures builder.txs == old(builder.txs) && builder.blobTxs == old(builder.blobTxs)
    ensures Located(ExportedSquare(builder.env, builder.txs, builder.blobTxs), builder.env, builder.txs, builder.blobTxs,
                    txIndex, blobIndex, r)
  {
    hide ExportedSquare, FinalPfbs, SharesNeeded32, SquareBuilder.Builder.Valid;
    if |builder.txs| <= txIndex < |builder.txs| + |builder.blobTxs| {
      FinalPfbShape(builder.env, builder.txs, builder.blobTxs, txIndex - |builder.txs|);
    }
    var start := builder.FindBlobStartingIndex(txIndex, blobIndex);
    if start.Err? {
      return Err(start.error);
    }
    var blobLen := builder.BlobShareLength(txIndex, blobIndex);
    match blobLen {
      case Err(e) => r := Err(e);
      case Ok(n) => r := Ok(Range(start.value, start.value + n));
    }
  }

  predicate IsBlobAt(txs: seq<Bytes>, blobTxs: seq<BlobTx>, txIndex: int, blobIndex: int) {
    |txs| <= txIndex < |txs| + |blobTxs| && 0 <= blobIndex < |blobTxs[txIndex - |txs|].blobs|
  }

  function BlobSpan(env: Env, txs: seq<Bytes>, blobTxs: seq<BlobTx>, p: nat, j: nat): (r: Range)
    requires p < |blobTxs| && j < |blobTxs[p].blobs|
  {
    var start := RecordedFor(env, txs, blobTxs, p, j);
    Range(start, start + SharesNeeded32(|blobTxs[p].blobs[j].data|))
  }

  /** The range of an existing blob is found if there is a square at all. */
  ghost predicate Located(
    square: Result<seq<Bytes>>, env: Env, txs: seq<Bytes>, blobTxs: seq<BlobTx>, txIndex: int, blobIndex: int, r: Result<Range>)
  {
    if square.Ok? && IsBlobAt(txs, blobTxs, txIndex, blobIndex)
    then r == Ok(BlobSpan(env, txs, blobTxs, txIndex - |txs|, blobIndex)) else r.Err?
  }

  /** BlobShareRange: the range of the blob in the square that a validator constructs. */
  method BlobShareRange(env: Env, txs: seq<Bytes>, txIndex: int, blobIndex: int) returns (r: Result<Range>)
    requires Processable(txs)
    ensures Located(ConstructedSquare(env, SquareSizeUpperBound(env.appVersion), txs), env, NormalTxs(txs), BlobTxs(txs),
                    txIndex, blobIndex, r)
  {
    hide ExportedSquare, NormalTxs, BlobTxs, Cost, FinalPfbs, Problem, BlobSpan, IsBlobAt, ProcessableTx;
    UpperBoundIsPow2(env.appVersion);
    var builder := NewBuilder(env, SquareSizeUpperBound(env.appVersion), txs);
    if builder.Err? {
      return Err(builder.error);
    }
    r := LocateBlob(builder.value, txIndex, blobIndex);
  }

  /** The range holds exactly the shares of the blob in the exported square. */
  lemma BlobSpanIsExact(env: Env, maxSquareSize: nat, txs: seq<Bytes>, blobTxs: seq<BlobTx>, p: nat, j: nat)
    requires Admissible(env, maxSquareSize, txs, blobTxs) && p < |blobTxs| && j < |blobTxs[p].blobs|
    ensures ValidBlobTxs(blobTxs) && ValidBlob(blobTxs[p].blobs[j])
    ensures var span := BlobSpan(env, txs, blobTxs, p, j);
            && span.start <= span.end <= |SquareShares(env, txs, blobTxs)|
            && SquareShares(env, txs, blobTxs)[span.start..span.end] == SparseSplitter.BlobShares(blobTxs[p].blobs[j])
  {
    hide Admissible, SquareShares, FinalPfbs, SparseCount, SharesNeeded32, ValidBlobTxs, SparseSplitter.BlobShares, ValidBlob;
    AdmissibleBlobs(env, maxSquareSize, txs, blobTxs);
    BlobIsValid(blobTxs, p, j);
    ValidBlobCount(blobTxs[p].blobs[j]);
    BlobFound(env, maxSquareSize, txs, blobTxs, p, j);
  }

  lemma BlobIsValid(blobTxs: seq<BlobTx>, p: nat, j: nat)
    requires ValidBlobTxs(blobTxs) && p < |blobTxs| && j < |blobTxs[p].blobs|
    ensures ValidBlob(blobTxs[p].blobs[j])
  {
    hide ValidBlob;
  }

  lemma FinalPfbShape(env: Env, txs: seq<Bytes>, blobTxs: seq<BlobTx>, p: nat)
    requires p < |blobTxs|
    ensures |FinalPfbs(env, txs, blobTxs)[p].shareIndexes| == |blobTxs[p].blobs|
  {
    hide SortedElements, StartIndexes, SparseStart, IndexFor;
  }
}
