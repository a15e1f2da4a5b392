/** The share sequences of an exported square (ParseShares in pkg/shares/parse.go). */
module ShareSequenceTheorem {
  import opened BlobArea
  import opened Blobs
  import opened ByteSeqs
  import opened CompactParser
  import opened CompactSplitter
  import opened CompactStream
  import Counter
  import DeconstructTheorem
  import opened Namespaces
  import opened Results
  import opened ShareFormat
  import opened ShareSequences
  import opened SparseParser
  import opened SparseSplitter
  import opened SquareLayout
  import opened SquarePlacement
  import opened SquareTheorems

  /** A block that parsing accepts. */
  ghost predicate Good(q: ShareSequence) {
    Block(q) && IsPaddingSequence(q).Ok? && ValidSequenceLen(q) == Ok(()) && CountableSequence(q)
  }

  ghost predicate AllGood(blocks: seq<ShareSequence>) {
    forall i :: 0 <= i < |blocks| ==> Good(blocks[i])
  }

  /** The blocks that are not padding. */
  function Real(blocks: seq<ShareSequence>): (r: seq<ShareSequence>)
  {
    if blocks == [] then [] else RealOne(blocks[0]) + Real(blocks[1..])
  }

  function RealOne(q: ShareSequence): (r: seq<ShareSequence>)
  {
    if IsPaddingSequence(q) == Ok(true) then [] else [q]
  }

  lemma {:induction false} RealAppend(a: seq<ShareSequence>, b: seq<ShareSequence>)
    ensures Real(a + b) == Real(a) + Real(b)
    decreases |a|
  {
    hide RealOne;
    if a == [] {
      assert a + b == b;
    } else {
      assert (a + b)[1..] == a[1..] + b && (a + b)[0] == a[0];
      RealAppend(a[1..], b);
      assert RealOne(a[0]) + (Real(a[1..]) + Real(b)) == (RealOne(a[0]) + Real(a[1..])) + Real(b);
    }
  }

  lemma {:induction false} KeepGood(blocks: seq<ShareSequence>)
    requires AllGood(blocks)
    ensures AllValid(blocks) == Ok(())
    ensures Kept(blocks, true) == Ok(Real(blocks)) && Kept(blocks, false) == Ok(blocks)
    decreases |blocks|
  {
    hide Block, IsPaddingSequence, ValidSequenceLen, CountableSequence;
    if blocks != [] {
      assert Good(blocks[0]);
      KeepGood(blocks[1..]);
      assert blocks == [blocks[0]] + blocks[1..];
    }
  }

  lemma ParseGood(blocks: seq<ShareSequence>)
    requires AllGood(blocks)
    ensures Sequences(Flat(blocks), true) == Ok(Real(blocks))
    ensures Sequences(Flat(blocks), false) == Ok(blocks) && CountableGroups(Flat(blocks))
  {
    hide Block, IsPaddingSequence, ValidSequenceLen, Grouped, AllValid, Kept, Real, CountableSequence;
    forall i | 0 <= i < |blocks| ensures Block(blocks[i]) && CountableSequence(blocks[i]) {
      assert Good(blocks[i]);
    }
    GroupedBlocks(blocks);
    KeepGood(blocks);
  }

  /** Shares made of good blocks, of which `kept` are not padding. */
  ghost predicate MadeOf(shares: seq<Share>, blocks: seq<ShareSequence>, kept: seq<ShareSequence>) {
    AllGood(blocks) && Flat(blocks) == shares && Real(blocks) == kept
  }

  lemma MadeOfAppend(
    s: seq<Share>, a: seq<ShareSequence>, ra: seq<ShareSequence>, t: seq<Share>, b: seq<ShareSequence>, rb: seq<ShareSequence>)
    requires MadeOf(s, a, ra) && MadeOf(t, b, rb)
    ensures MadeOf(s + t, a + b, ra + rb)
  {
    hide Good, Flat, Real;
    FlatAppend(a, b);
    RealAppend(a, b);
  }

  lemma MadeOfNothing()
    ensures MadeOf([], [], [])
  {
  }

  lemma MadeOfOne(q: ShareSequence)
    requires Good(q)
    ensures MadeOf(q.shares, [q], RealOne(q))
  {
    hide Good, RealOne;
    assert Real([q]) == RealOne(q) + Real([]) && RealOne(q) + [] == RealOne(q);
    assert Flat([q]) == q.shares + Flat([]) && q.shares + [] == q.shares;
  }

  // ----- padding -----

  function PaddingBlock(ns: Bytes): (q: ShareSequence)
    requires |ns| == NAMESPACE_SIZE
  {
    ShareSequence(ns, [PaddingShare(ns, 0)])
  }

  lemma PaddingIsGood(ns: Bytes)
    requires Supported(ns)
    ensures Good(PaddingBlock(ns)) && IsPaddingSequence(PaddingBlock(ns)) == Ok(true)
  {
    hide PaddingShare, SequenceLen, NamespaceBytes, IsSequenceStart;
    PaddingShareFields(ns);
  }

  function PaddingBlocks(ns: Bytes, n: nat): (r: seq<ShareSequence>)
    requires |ns| == NAMESPACE_SIZE
  {
    if n == 0 then [] else PaddingBlocks(ns, n - 1) + [PaddingBlock(ns)]
  }

  lemma {:induction false} PaddingMade(ns: Bytes, n: nat)
    requires |ns| == NAMESPACE_SIZE && Supported(ns)
    ensures MadeOf(PaddingShares(ns, 0, n), PaddingBlocks(ns, n), [])
  {
    hide MadeOf, PaddingShare, Good, IsPaddingSequence, Supported;
    if n == 0 {
      MadeOfNothing();
      assert PaddingShares(ns, 0, 0) == [];
    } else {
      PaddingMade(ns, n - 1);
      PaddingIsGood(ns);
      MadeOfOne(PaddingBlock(ns));
      MadeOfAppend(PaddingShares(ns, 0, n - 1), PaddingBlocks(ns, n - 1), [], [PaddingShare(ns, 0)], [PaddingBlock(ns)], []);
      assert [] + RealOne(PaddingBlock(ns)) == [];
      assert PaddingShares(ns, 0, n) == PaddingShares(ns, 0, n - 1) + [PaddingShare(ns, 0)];
    }
  }

  // ----- blobs -----

  function BlobBlock(b: Blob): (q: ShareSequence)
    requires |b.namespaceId| == NAMESPACE_ID_SIZE && b.shareVersion <= MAX_SHARE_VERSION
  {
    ShareSequence(b.NamespaceOf(), BlobShares(b))
  }

  lemma {:induction false} DataStarts(ns: Bytes, first: bool, len: nat, data: Bytes)
    requires Supported(ns) && !IsCompactNamespace(ns) && len < U32_LIMIT
    ensures var shares := DataShares(ns, 0, first, len, data);
            && (forall i :: 0 <= i < |shares| ==> (IsSequenceStart(shares[i]) <==> first && i == 0))
            && (first ==> SequenceLen(shares[0]) == len)
            && ExtractRest(shares) == Ok(Contents(ns, first, data))
    decreases |data|
  {
    DataShareFields(ns, first, len, data);
    hide DataShare, Supported, IsSequenceStart, SequenceLen, RawData, Content;
    var shares, room := DataShares(ns, 0, first, len, data), Room(ns, first);
    if |data| > room {
      DataStarts(ns, false, 0, data[room..]);
      assert shares[1..] == DataShares(ns, 0, false, 0, data[room..]);
    } else {
      assert shares[1..] == [] && Content(ns, first, data) + [] == Content(ns, first, data);
    }
  }

  lemma BlobSharesFacts(b: Blob)
    requires ValidBlob(b)
    ensures DataNamespace(b.NamespaceOf())
    ensures forall i :: 0 <= i < |BlobShares(b)| ==> (IsSequenceStart(BlobShares(b)[i]) <==> i == 0)
    ensures forall i :: 0 <= i < |BlobShares(b)| ==> NamespaceBytes(BlobShares(b)[i]) == b.NamespaceOf()
    ensures SequenceLen(BlobShares(b)[0]) == |b.data| && |BlobShares(b)| == SparseCount(|b.data|)
    ensures ExtractRest(BlobShares(b)) == Ok(Contents(b.NamespaceOf(), true, b.data))
  {
    hide IsSequenceStart, SequenceLen, NamespaceBytes, DataShares, SparseCount, ExtractRest, Contents, IsUserNamespace;
    ValidBlobNamespace(b);
    DataStarts(b.NamespaceOf(), true, |b.data|, b.data);
    BlobIn(b);
    BlobSharesCount(b);
  }

  /** The sequence of a blob is accepted, is not padding, and its data is the blob's. */
  lemma BlobIsGood(b: Blob)
    requires ValidBlob(b)
    ensures Good(BlobBlock(b)) && IsPaddingSequence(BlobBlock(b)) == Ok(false)
    ensures SequenceData(BlobBlock(b)) == Ok(b.data)
  {
    hide IsSequenceStart, SequenceLen, NamespaceBytes, BlobShares, SparseCount, ExtractRest, Contents, Supported,
         IsCompactNamespace, IsUserNamespace, SharesNeeded32;
    ValidBlobCount(b);
    BlobSharesFacts(b);
    assert Contents(b.NamespaceOf(), true, b.data)[..|b.data|] == b.data;
  }

  function BlobBlocks(elements: seq<Element>): (r: seq<ShareSequence>)
    requires forall i :: 0 <= i < |elements| ==> |elements[i].blob.namespaceId| == NAMESPACE_ID_SIZE
    requires forall i :: 0 <= i < |elements| ==> elements[i].blob.shareVersion == 0
    ensures |r| == |elements|
  {
    if elements == [] then [] else [BlobBlock(elements[0].blob)] + BlobBlocks(elements[1..])
  }

  /** The sequences of the blobs, one per element and in the same order. */
  ghost function RealBlobs(elements: seq<Element>): (r: seq<ShareSequence>)
    requires Placeable(elements)
    ensures |r| == |elements|
  {
    PlaceableIsWritable(elements);
    BlobBlocks(elements)
  }

  lemma PlaceableIsWritable(elements: seq<Element>)
    requires Placeable(elements)
    ensures forall i :: 0 <= i < |elements| ==> |elements[i].blob.namespaceId| == NAMESPACE_ID_SIZE
    ensures forall i :: 0 <= i < |elements| ==> elements[i].blob.shareVersion == 0
  {
    hide NewElement, IsUserNamespace;
    forall i | 0 <= i < |elements|
      ensures |elements[i].blob.namespaceId| == NAMESPACE_ID_SIZE && elements[i].blob.shareVersion == 0
    {
      assert ValidElement(elements[i]);
    }
  }

  /** A blob's shares are one block. */
  lemma BlobMade(e: Element)
    requires ValidElement(e)
    ensures |e.blob.namespaceId| == NAMESPACE_ID_SIZE && e.blob.shareVersion == 0
    ensures MadeOf(BlobShares(e.blob), [BlobBlock(e.blob)], [BlobBlock(e.blob)])
  {
    hide MadeOf, Good, IsPaddingSequence, BlobShares, SequenceData, NewElement;
    BlobIsGood(e.blob);
    MadeOfOne(BlobBlock(e.blob));
  }

  lemma {:induction false} LaidMade(ns: Bytes, end: nat, elements: seq<Element>) returns (blocks: seq<ShareSequence>)
    requires |ns| == NAMESPACE_SIZE && Supported(ns) && Placeable(elements)
    ensures MadeOf(Laid(ns, end, elements), blocks, RealBlobs(elements))
    decreases |elements|
  {
    hide MadeOf, Laid, BlobShares, ValidElement, AlignedStart, PaddingShares, Supported, BlobBlock;
    if elements == [] {
      blocks := [];
      MadeOfNothing();
      NothingLaid(ns, end);
    } else {
      var e, start := elements[0], AlignedStart(end, elements[0]);
      ValidElementFacts(e);
      BlobMade(e);
      LaidStep(ns, end, elements);
      var rest := LaidMade(ElementKey(e), start + e.numShares, elements[1..]);
      var laid := Laid(ElementKey(e), start + e.numShares, elements[1..]);
      PaddingMade(ns, start - end);
      var own := [BlobBlock(e.blob)];
      MadeOfAppend(BlobShares(e.blob), own, own, laid, rest, RealBlobs(elements[1..]));
      MadeOfAppend(PaddingShares(ns, 0, start - end), PaddingBlocks(ns, start - end), [],
                   BlobShares(e.blob) + laid, own + rest, own + RealBlobs(elements[1..]));
      assert [] + (own + RealBlobs(elements[1..])) == RealBlobs(elements);
      blocks := PaddingBlocks(ns, start - end) + (own + rest);
    }
  }

  lemma AreaMade(end: nat, elements: seq<Element>) returns (blocks: seq<ShareSequence>)
    requires Placeable(elements)
    ensures MadeOf(Area(end, elements), blocks, RealBlobs(elements))
  {
    hide MadeOf, Laid, ValidElement, AlignedStart, Supported;
    if elements == [] {
      blocks := [];
      MadeOfNothing();
    } else {
      ValidElementFacts(elements[0]);
      AreaIsLaid(end, elements);
      blocks := LaidMade(ElementKey(elements[0]), AlignedStart(end, elements[0]), elements);
    }
  }

  // ----- compact shares -----

  function CompactBlocks(ns: Bytes, units: seq<Bytes>): (r: seq<ShareSequence>)
    requires |ns| == NAMESPACE_SIZE
  {
    if units == [] then [] else [ShareSequence(ns, CompactShares(ns, units))]
  }

  lemma CompactSharesFacts(ns: Bytes, units: seq<Bytes>)
    requires IsCompactNamespace(ns) && units != [] && |Stream(units)| < U32_LIMIT
    ensures |CompactShares(ns, units)| >= 1
    ensures forall k :: 0 <= k < |CompactShares(ns, units)| ==>
              (IsSequenceStart(CompactShares(ns, units)[k]) <==> k == 0)
    ensures SequenceLen(CompactShares(ns, units)[0]) == |Stream(units)| > 0
    ensures ExtractRest(CompactShares(ns, units)) == Ok(PaddedData(Stream(units)))
  {
    hide CompactShares, Stream, PaddedData, IsSequenceStart, SequenceLen, ExtractRest;
    DeconstructTheorem.UnitWithinStream(units, 0);
    forall k | 0 <= k < |CompactShares(ns, units)|
      ensures IsSequenceStart(CompactShares(ns, units)[k]) <==> k == 0
      ensures k == 0 ==> SequenceLen(CompactShares(ns, units)[k]) == |Stream(units)|
    {
      CompactShareStart(ns, units, k);
    }
    CompactContent(ns, units);
  }

  lemma CompactShareStart(ns: Bytes, units: seq<Bytes>, k: nat)
    requires IsCompactNamespace(ns) && |Stream(units)| < U32_LIMIT && k < |CompactShares(ns, units)|
    ensures IsSequenceStart(CompactShares(ns, units)[k]) <==> k == 0
    ensures k == 0 ==> SequenceLen(CompactShares(ns, units)[k]) == |Stream(units)|
  {
    hide ShareAt, Stream, Starts, PaddedData, CompactShares, IsSequenceStart, SequenceLen, RawData, Offset, NamespaceBytes,
         RawDataUsingReserved;
    CompactShareAt(ns, units, k);
    ShareFields(ns, PaddedData(Stream(units)), Starts(units), |Stream(units)| % U32_LIMIT, k);
  }

  lemma CompactShareAt(ns: Bytes, units: seq<Bytes>, k: nat)
    requires |ns| == NAMESPACE_SIZE && k < |CompactShares(ns, units)|
    ensures Offset(k + 1) <= |PaddedData(Stream(units))|
    ensures CompactShares(ns, units)[k]
         == ShareAt(ns, PaddedData(Stream(units)), Starts(units), |Stream(units)| % U32_LIMIT, k)
  {
    hide ShareAt, Stream, Starts, PaddedData, SharesFor, Offset;
    OffsetMonotone(k, SharesFor(|Stream(units)|));
  }

  lemma CompactContent(ns: Bytes, units: seq<Bytes>)
    requires IsCompactNamespace(ns)
    ensures ExtractRest(CompactShares(ns, units)) == Ok(PaddedData(Stream(units)))
  {
    hide SharesOf, Stream, Starts, PaddedData, SharesFor, Offset, ExtractRest;
    var data, n := PaddedData(Stream(units)), SharesFor(|Stream(units)|);
    RestOfShares(ns, data, Starts(units), |Stream(units)| % U32_LIMIT, n, 0);
    OffsetOfZero();
    var shares := CompactShares(ns, units);
    assert shares[0..] == shares && data[0..Offset(n)] == data;
  }

  lemma OffsetOfZero()
    ensures Offset(0) == 0
  {
  }

  /** The sequence of the units is accepted, is not padding, and its data is the delimited units. */
  lemma CompactIsGood(ns: Bytes, units: seq<Bytes>)
    requires IsCompactNamespace(ns) && units != [] && |Stream(units)| < U32_LIMIT
    ensures var q := ShareSequence(ns, CompactShares(ns, units));
            && Good(q) && IsPaddingSequence(q) == Ok(false) && SequenceData(q) == Ok(Stream(units))
  {
    hide CompactShares, Stream, IsSequenceStart, SequenceLen, NamespaceBytes, ExtractRest, Supported, PaddedData, SharesFor;
    var q := ShareSequence(ns, CompactShares(ns, units));
    CompactSharesFacts(ns, units);
    CompactIn(ns, units);
    ReservedAreSupported();
    assert NamespaceBytes(q.shares[0]) == ns;
    PaddedPrefix(Stream(units));
  }

  lemma PaddedPrefix(data: Bytes)
    ensures |data| <= |PaddedData(data)| && PaddedData(data)[..|data|] == data
  {
    hide SharesFor, Offset;
  }

  lemma CompactMade(ns: Bytes, units: seq<Bytes>)
    requires IsCompactNamespace(ns) && |Stream(units)| < U32_LIMIT
    ensures MadeOf(CompactShares(ns, units), CompactBlocks(ns, units), CompactBlocks(ns, units))
  {
    hide MadeOf, CompactShares, Good, IsPaddingSequence, SequenceData, Stream;
    if units == [] {
      MadeOfNothing();
      NoUnits(ns);
    } else {
      CompactIsGood(ns, units);
      MadeOfOne(ShareSequence(ns, CompactShares(ns, units)));
    }
  }

  lemma NoUnits(ns: Bytes)
    requires |ns| == NAMESPACE_SIZE
    ensures CompactShares(ns, []) == []
  {
  }

  // ----- the square -----

  /** The sequences of a square without its padding: transactions, PFBs and then the blobs in order. */
  ghost function SquareSequences(env: Env, txs: seq<Bytes>, blobTxs: seq<BlobTx>): (r: seq<ShareSequence>)
    requires ValidBlobTxs(blobTxs)
  {
    SortedPlaceable(blobTxs);
    CompactBlocks(TX_NAMESPACE, txs) + CompactBlocks(PAY_FOR_BLOB_NAMESPACE, PfbUnits(env, txs, blobTxs))
    + RealBlobs(SortedElements(blobTxs))
  }

  lemma BehindPfbsMade(env: Env, txs: seq<Bytes>, blobTxs: seq<BlobTx>) returns (blocks: seq<ShareSequence>)
    requires ValidBlobTxs(blobTxs)
    ensures Placeable(SortedElements(blobTxs))
    ensures MadeOf(BehindPfbs(env, txs, blobTxs), blocks, RealBlobs(SortedElements(blobTxs)))
  {
    hide MadeOf, PaddingShares, Area, SortedElements, SparseStart, Side, EndOfBlobs, ValidBlobTxs, NonReservedStart,
         PfbShares, TxShares, Placeable, RealBlobs;
    SortedPlaceable(blobTxs);
    ReservedAreSupported();
    var kept := RealBlobs(SortedElements(blobTxs));
    var padding, middle, tail := ReservedPadding(env, txs, blobTxs), Middle(env, txs, blobTxs), Tail(env, txs, blobTxs);
    var area := AreaMade(SparseStart(env, txs, blobTxs), SortedElements(blobTxs));
    PaddingMade(PRIMARY_RESERVED_PADDING_NAMESPACE, |padding|);
    PaddingMade(TAIL_PADDING_NAMESPACE, |tail|);
    var front := PaddingBlocks(PRIMARY_RESERVED_PADDING_NAMESPACE, |padding|);
    var back := PaddingBlocks(TAIL_PADDING_NAMESPACE, |tail|);
    MadeOfAppend(padding, front, [], middle, area, kept);
    MadeOfAppend(padding + middle, front + area, [] + kept, tail, back, []);
    assert [] + kept + [] == kept;
    blocks := front + area + back;
  }

  /** Parsing an exported square never fails and, ignoring padding, gives one sequence for the transactions,
      one for the PFBs and one for every blob, with exactly their shares. */
  lemma SquareParses(env: Env, maxSquareSize: nat, txs: seq<Bytes>, blobTxs: seq<BlobTx>)
    requires Admissible(env, maxSquareSize, txs, blobTxs)
    ensures ValidBlobTxs(blobTxs)
    ensures Sequences(SquareShares(env, txs, blobTxs), true) == Ok(SquareSequences(env, txs, blobTxs))
    ensures Sequences(SquareShares(env, txs, blobTxs), false).Ok?
    ensures CountableGroups(SquareShares(env, txs, blobTxs))
  {
    hide CountableGroups, MadeOf, Admissible, SquareShares, BehindPfbs, CompactShares, ValidBlobTxs, PfbUnits, Sequences, RealBlobs,
         Placeable, SortedElements, CompactBlocks;
    AdmissibleBlobs(env, maxSquareSize, txs, blobTxs);
    StreamsAreShort(env, maxSquareSize, txs, blobTxs);
    var units, kept := PfbUnits(env, txs, blobTxs), RealBlobs(SortedElements(blobTxs));
    var tx, pfb := CompactBlocks(TX_NAMESPACE, txs), CompactBlocks(PAY_FOR_BLOB_NAMESPACE, units);
    CompactMade(TX_NAMESPACE, txs);
    CompactMade(PAY_FOR_BLOB_NAMESPACE, units);
    var behind := BehindPfbsMade(env, txs, blobTxs);
    MadeOfAppend(PfbShares(env, txs, blobTxs), pfb, pfb, BehindPfbs(env, txs, blobTxs), behind, kept);
    MadeOfAppend(TxShares(txs), tx, tx, PfbShares(env, txs, blobTxs) + BehindPfbs(env, txs, blobTxs), pfb + behind, pfb + kept);
    SquareInParts(env, txs, blobTxs);
    assert tx + (pfb + kept) == tx + pfb + kept;
    ParseMade(SquareShares(env, txs, blobTxs), tx + (pfb + behind), tx + (pfb + kept));
  }

  lemma ParseMade(shares: seq<Share>, blocks: seq<ShareSequence>, kept: seq<ShareSequence>)
    requires MadeOf(shares, blocks, kept)
    ensures Sequences(shares, true) == Ok(kept) && Sequences(shares, false) == Ok(blocks) && CountableGroups(shares)
  {
    hide CountableGroups, Good, Flat, Real, Sequences;
    ParseGood(blocks);
  }

  /** Running ParseShares on an exported square. */
  method ParseSquare(env: Env, ghost maxSquareSize: nat, txs: seq<Bytes>, blobTxs: seq<BlobTx>, square: seq<Share>)
    returns (r: Result<seq<ShareSequence>>)
    requires Admissible(env, maxSquareSize, txs, blobTxs) && ExportedSquare(env, txs, blobTxs) == Ok(square)
    ensures ValidBlobTxs(blobTxs) && r == Ok(SquareSequences(env, txs, blobTxs))
  {
    hide Admissible, SquareShares, SquareSequences, Sequences, CountableGroups, ExportedSquare, ValidBlobTxs;
    SquareParses(env, maxSquareSize, txs, blobTxs);
    ExportSucceeds(env, maxSquareSize, txs, blobTxs);
    r := ParseShares(square, true);
  }

  lemma StreamsAreShort(env: Env, maxSquareSize: nat, txs: seq<Bytes>, blobTxs: seq<BlobTx>)
    requires Admissible(env, maxSquareSize, txs, blobTxs)
    ensures |Stream(txs)| < U32_LIMIT && |Stream(PfbUnits(env, txs, blobTxs))| < U32_LIMIT
  {
    hide Admissible, Stream, PfbUnits, Counter.StreamLen, SharesFor;
    DeconstructTheorem.CostBound(env, maxSquareSize, txs, blobTxs);
    Counter.StreamLenOfUnits(txs);
    PfbCounterCovers(env, maxSquareSize, txs, blobTxs);
  }
}
