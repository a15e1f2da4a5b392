/** What a square is made of, as a function of the transactions in it (pkg/square/builder.go,
    pkg/square/square.go). */
module SquareLayout {
  import opened Blobs
  import opened ByteSeqs
  import CommitmentRules
  import CompactSplitter
  import CompactStream
  import opened Counter
  import opened Namespaces
  import opened Results
  import opened ShareFormat
  import opened ShareRange
  import Sorting
  import SparseSplitter
  import Varint

  /** pkg/appconsts: the same for all versions. */
  const SUBTREE_ROOT_THRESHOLD := 64
  const TESTGROUND_VERSION := 420420420

  function SquareSizeUpperBound(appVersion: nat): (side: nat)
  {
    if appVersion == TESTGROUND_VERSION then 512 else 128
  }

  /** A PFB transaction together with the first share of each of its blobs. */
  datatype IndexWrapper = IndexWrapper(tx: Bytes, shareIndexes: seq<nat>)

  /** The wrapper's encoding comes from a foreign library. */
  datatype WrapperCodec = WrapperCodec(encode: IndexWrapper -> Bytes, decode: Bytes -> Option<IndexWrapper>)

  /** The foreign functions and the version that a square depends on; `txKey` is the hash of a
      transaction. */
  datatype Env = Env(codec: WrapperCodec, appVersion: nat, txKey: Bytes -> Bytes)

  /** `a` is `b` with share indexes that take no more varint bytes. */
  ghost predicate NoLonger(a: IndexWrapper, b: IndexWrapper) {
    && a.tx == b.tx && |a.shareIndexes| == |b.shareIndexes|
    && forall i :: 0 <= i < |a.shareIndexes| ==> Varint.DelimLen(a.shareIndexes[i]) <= Varint.DelimLen(b.shareIndexes[i])
  }

  ghost predicate Uint32Indexes(w: IndexWrapper) {
    forall i :: 0 <= i < |w.shareIndexes| ==> w.shareIndexes[i] < U32_LIMIT
  }

  /** What is assumed of the wrapper's encoding: it can be undone for 32-bit indexes, it is never empty,
      and it does not grow when the varints of the indexes do not. */
  ghost predicate Lawful(codec: WrapperCodec) {
    && (forall w: IndexWrapper :: Uint32Indexes(w) ==> codec.decode(codec.encode(w)) == Some(w))
    && (forall w: IndexWrapper :: codec.encode(w) != [])
    && (forall a: IndexWrapper, b: IndexWrapper :: NoLonger(a, b) ==> |codec.encode(a)| <= |codec.encode(b)|)
  }

  /** The largest share indexes that can occur, used while the real ones are unknown. */
  function WorstCaseShareIndexes(blobs: nat, appVersion: nat): (r: seq<nat>)
    ensures |r| == blobs
  {
    seq(blobs, _ => SquareSizeUpperBound(appVersion) * SquareSizeUpperBound(appVersion))
  }

  function WorstWrapper(env: Env, t: BlobTx): (w: IndexWrapper)
  {
    IndexWrapper(t.tx, WorstCaseShareIndexes(|t.blobs|, env.appVersion))
  }

  function WorstLen(env: Env, t: BlobTx): (n: nat)
  {
    |env.codec.encode(WorstWrapper(env, t))|
  }

  function WorstLens(env: Env, blobTxs: seq<BlobTx>): (r: seq<nat>)
    ensures |r| == |blobTxs|
  {
    seq(|blobTxs|, i requires 0 <= i < |blobTxs| => WorstLen(env, blobTxs[i]))
  }

  /** A blob in the square: which PFB paid for it, how many shares it takes, how much padding at most. */
  datatype Element = Element(blob: Blob, pfbIndex: nat, blobIndex: nat, numShares: nat, maxPadding: nat)

  function NewElement(blob: Blob, pfbIndex: nat, blobIndex: nat): (e: Element)
  {
    var numShares := SharesNeeded32(|blob.data|);
    Element(blob, pfbIndex, blobIndex, numShares, CommitmentRules.SubTreeWidth(numShares, SUBTREE_ROOT_THRESHOLD) - 1)
  }

  function MaxShareOffset(e: Element): (n: nat)
  {
    e.numShares + e.maxPadding
  }

  function ElementKey(e: Element): (ns: Bytes)
  {
    e.blob.NamespaceOf()
  }

  function ElementsOf(t: BlobTx, pfbIndex: nat): (r: seq<Element>)
    ensures |r| == |t.blobs|
  {
    seq(|t.blobs|, j requires 0 <= j < |t.blobs| => NewElement(t.blobs[j], pfbIndex, j))
  }

  function AllElements(blobTxs: seq<BlobTx>): (r: seq<Element>)
  {
    if blobTxs == [] then []
    else AllElements(blobTxs[..|blobTxs| - 1]) + ElementsOf(blobTxs[|blobTxs| - 1], |blobTxs| - 1)
  }

  function SumOffsets(elements: seq<Element>): (n: nat)
  {
    if elements == [] then 0
    else SumOffsets(elements[..|elements| - 1]) + MaxShareOffset(elements[|elements| - 1])
  }

  function TxShareCount(txs: seq<Bytes>): (n: nat)
  {
    CompactStream.SharesFor(StreamLen(Lengths(txs)))
  }

  function PfbShareCount(env: Env, blobTxs: seq<BlobTx>): (n: nat)
  {
    CompactStream.SharesFor(StreamLen(WorstLens(env, blobTxs)))
  }

  /** The over-estimate that a builder keeps: compact shares for the worst-case wrappers, and every blob
      with its largest padding. */
  function Cost(env: Env, txs: seq<Bytes>, blobTxs: seq<BlobTx>): (n: nat)
  {
    TxShareCount(txs) + PfbShareCount(env, blobTxs) + SumOffsets(AllElements(blobTxs))
  }

  // ----- the exported square -----

  function SortedElements(blobTxs: seq<BlobTx>): (r: seq<Element>)
  {
    Sorting.StableSort(ElementKey, AllElements(blobTxs))
  }

  function NumShares(elements: seq<Element>): (lens: seq<nat>)
    ensures |lens| == |elements|
    ensures forall i :: 0 <= i < |lens| ==> lens[i] == elements[i].numShares
  {
    seq(|elements|, i requires 0 <= i < |elements| => elements[i].numShares)
  }

  /** Where the blobs start when they are laid out from share `start` on. */
  function StartIndexes(start: nat, elements: seq<Element>): (r: seq<nat>)
    ensures |r| == |elements|
  {
    CommitmentRules.BlobIndexes(start, SUBTREE_ROOT_THRESHOLD, NumShares(elements))
  }

  /** The 32-bit index recorded for blob `j` of PFB `p`: that of the last element that belongs to it. */
  function IndexFor(elements: seq<Element>, indexes: seq<nat>, p: nat, j: nat): (r: nat)
    requires |indexes| == |elements|
  {
    if elements == [] then 0
    else
      var n := |elements| - 1;
      if elements[n].pfbIndex == p && elements[n].blobIndex == j then indexes[n] % U32_LIMIT
      else IndexFor(elements[..n], indexes[..n], p, j)
  }

  /** The PFBs with the share indexes of their blobs. */
  function WrappedPfbs(blobTxs: seq<BlobTx>, elements: seq<Element>, indexes: seq<nat>): (r: seq<IndexWrapper>)
    requires |indexes| == |elements|
    ensures |r| == |blobTxs|
  {
    seq(|blobTxs|, p requires 0 <= p < |blobTxs| =>
      IndexWrapper(blobTxs[p].tx, seq(|blobTxs[p].blobs|, j requires 0 <= j < |blobTxs[p].blobs| =>
        IndexFor(elements, indexes, p, j))))
  }

  function Encoded(env: Env, pfbs: seq<IndexWrapper>): (r: seq<Bytes>)
    ensures |r| == |pfbs|
  {
    seq(|pfbs|, i requires 0 <= i < |pfbs| => env.codec.encode(pfbs[i]))
  }

  /** WriteNamespacePaddingShares on the shares written so far. */
  function PadTo(shares: seq<Share>, count: nat): (r: Result<seq<Share>>)
  {
    if count == 0 then Ok(shares)
    else if shares == [] then Err(NothingToPad)
    else
      var last := shares[|shares| - 1];
      if !Supported(NamespaceBytes(last)) then Err(UnsupportedNamespace)
      else Ok(shares + SparseSplitter.PaddingShares(NamespaceBytes(last), Version(last), count))
  }

  /** SparseShareSplitter.Write on the shares written so far. */
  function WriteBlob(shares: seq<Share>, blob: Blob): (r: Result<seq<Share>>)
  {
    if blob.Validate().Err? then Err(InvalidBlob)
    else if blob.shareVersion != 0 then Err(UnsupportedShareVersion)
    else Ok(shares + SparseSplitter.BlobShares(blob))
  }

  /** The blob loop of Export from the shares written so far; `end` is where the last blob ended. */
  function BlobPart(shares: seq<Share>, end: nat, elements: seq<Element>, first: bool): (r: Result<seq<Share>>)
    decreases |elements|
  {
    if elements == [] then Ok(shares)
    else
      var e := elements[0];
      var cursor := CommitmentRules.NextShareIndex(end, e.numShares, SUBTREE_ROOT_THRESHOLD);
      if cursor - end > e.maxPadding then Err(PaddingTooLong)
      else
        match (if first then Ok(shares) else PadTo(shares, cursor - end))
        case Err(err) => Err(err)
        case Ok(padded) =>
          match WriteBlob(padded, e.blob)
          case Err(err) => Err(err)
          case Ok(written) => BlobPart(written, cursor + e.numShares, elements[1..], false)
  }

  function TailPadding(n: nat): (r: seq<Share>)
    ensures |r| == n
  {
    SparseSplitter.PaddingShares(TAIL_PADDING_NAMESPACE, 0, n)
  }

  function EmptySlots(n: nat): (r: seq<Bytes>)
    ensures |r| == n
  {
    seq(n, _ => [])
  }

  /** WriteSquare. Slots that are not written stay empty. */
  function Assemble(
    txShares: seq<Share>, pfbShares: seq<Share>, blobShares: seq<Share>, nonReservedStart: nat, side: nat)
    : (r: Result<seq<Bytes>>)
  {
    var paddingStart := |txShares| + |pfbShares|;
    if nonReservedStart < paddingStart then Err(CompactSharesDoNotFit)
    else if side * side < nonReservedStart + |blobShares| then Err(BlobsDoNotFit)
    else
      var gap: seq<Bytes> :=
        if blobShares == [] then EmptySlots(nonReservedStart - paddingStart)
        else SparseSplitter.PaddingShares(PRIMARY_RESERVED_PADDING_NAMESPACE, 0, nonReservedStart - paddingStart);
      Ok(txShares + pfbShares + gap + blobShares + TailPadding(side * side - (nonReservedStart + |blobShares|)))
  }

  const EMPTY_SQUARE: seq<Bytes> := TailPadding(1)

  /** The first share behind the compact shares, as the counters have it. */
  function SparseStart(env: Env, txs: seq<Bytes>, blobTxs: seq<BlobTx>): (n: nat)
  {
    TxShareCount(txs) + PfbShareCount(env, blobTxs)
  }

  /** The PFBs with the share indexes of the exported square. */
  function FinalPfbs(env: Env, txs: seq<Bytes>, blobTxs: seq<BlobTx>): (r: seq<IndexWrapper>)
    ensures |r| == |blobTxs|
  {
    var elements := SortedElements(blobTxs);
    WrappedPfbs(blobTxs, elements, StartIndexes(SparseStart(env, txs, blobTxs), elements))
  }

  /** The first share of the first blob. */
  function NonReservedStart(env: Env, txs: seq<Bytes>, blobTxs: seq<BlobTx>): (n: nat)
  {
    var elements, start := SortedElements(blobTxs), SparseStart(env, txs, blobTxs);
    if elements == [] then start else StartIndexes(start, elements)[0]
  }

  /** What Export does once the blobs are placed. */
  function Finished(env: Env, txs: seq<Bytes>, blobTxs: seq<BlobTx>, blobShares: seq<Share>): (r: Result<seq<Bytes>>)
  {
    var pfbShares := CompactSplitter.CompactShares(PAY_FOR_BLOB_NAMESPACE, Encoded(env, FinalPfbs(env, txs, blobTxs)));
    if PfbShareCount(env, blobTxs) < |pfbShares| then Err(PfbCounterTooSmall)
    else Assemble(CompactSplitter.CompactShares(TX_NAMESPACE, txs), pfbShares, blobShares,
                  NonReservedStart(env, txs, blobTxs), CommitmentRules.BlobMinSquareSize(Cost(env, txs, blobTxs)))
  }

  /** The square that Export returns for the given transactions. */
  function ExportedSquare(env: Env, txs: seq<Bytes>, blobTxs: seq<BlobTx>): (r: Result<seq<Bytes>>)
  {
    if SparseStart(env, txs, blobTxs) == 0 then Ok(EMPTY_SQUARE)
    else
      match BlobPart([], SparseStart(env, txs, blobTxs), SortedElements(blobTxs), true)
      case Err(e) => Err(e)
      case Ok(blobShares) => Finished(env, txs, blobTxs, blobShares)
  }

  // ----- where transactions are -----

  /** The shares that hold the i-th of units with these lengths, delimiter included. */
  function SpanOf(lens: seq<nat>, i: nat): (r: Range)
    requires i < |lens|
  {
    CompactStream.Span(StreamLen(lens[..i]), StreamLen(lens[..i + 1]))
  }

  /** The shares that hold a transaction: normal ones come first, then the PFBs behind their shares. */
  function TxSpan(env: Env, txs: seq<Bytes>, blobTxs: seq<BlobTx>, i: nat): (r: Range)
    requires i < |txs| + |blobTxs|
  {
    if i < |txs| then SpanOf(Lengths(txs), i)
    else
      var span := SpanOf(Lengths(Encoded(env, FinalPfbs(env, txs, blobTxs))), i - |txs|);
      Range(TxShareCount(txs) + span.start, TxShareCount(txs) + span.end)
  }
}
