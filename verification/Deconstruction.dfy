/** Taking a square apart again (Deconstruct in pkg/square/square.go). */
module Deconstruction {
  import opened Blobs
  import BlobUnmarshal
  import BlobWire
  import opened ByteSeqs
  import opened CompactParser
  import opened NamespaceRange
  import opened Namespaces
  import opened Results
  import opened ShareFormat
  import ShareRange
  import opened SparseParser
  import opened SquareLayout

  /** The messages of a decoded transaction; of a MsgPayForBlobs only the blob sizes matter. */
  datatype Msg = PayForBlobs(blobSizes: seq<nat>) | OtherMsg

  /** The transaction decoder comes from a foreign library. */
  type Decoder = Bytes -> Result<seq<Msg>>

  predicate Returns32(n: nat) {
    n < U32_LIMIT && Returns(n)
  }

  /** The blob at a share index. The source panics when its shares lie outside the square. */
  function ReadBlob(square: seq<Share>, index: nat, size: nat): (r: Result<Blob>)
  {
    var end := index + SharesNeeded32(size);
    if end > |square| then Err(IndexOutOfRange)
    else
      match ParseBlobs(square[index..end])
      case Err(e) => Err(e)
      case Ok(blobs) => if |blobs| == 1 then Ok(blobs[0]) else Err(NotASingleBlob)
  }

  function ReadBlobs(square: seq<Share>, indexes: seq<nat>, sizes: seq<nat>): (r: Result<seq<Blob>>)
    requires |indexes| == |sizes|
    decreases |indexes|
  {
    if indexes == [] then Ok([])
    else
      match ReadBlob(square, indexes[0], sizes[0])
      case Err(e) => Err(e)
      case Ok(b) => Prepend([b], ReadBlobs(square, indexes[1..], sizes[1..]))
  }

  /** The sizes of the blobs that a wrapped PFB pays for. */
  function SizesFor(decoder: Decoder, pfb: IndexWrapper): (r: Result<seq<nat>>)
    ensures r.Ok? ==> |r.value| == |pfb.shareIndexes|
  {
    if pfb.shareIndexes == [] then Err(NoBlobsAttached)
    else
      match decoder(pfb.tx)
      case Err(e) => Err(e)
      case Ok(msgs) =>
        if |msgs| != 1 then Err(NotOneMessage)
        else if !msgs[0].PayForBlobs? then Err(NotAPayForBlobs)
        else if |msgs[0].blobSizes| != |pfb.shareIndexes| then Err(WrongNumberOfBlobSizes)
        else Ok(msgs[0].blobSizes)
  }

  /** The blob transaction that a wrapped PFB derives from. */
  function Unwrap(codec: WrapperCodec, decoder: Decoder, square: seq<Share>, wrapped: Bytes): (r: Result<Bytes>)
  {
    match codec.decode(wrapped)
    case None => Err(NotAWrappedPfb)
    case Some(pfb) =>
      match SizesFor(decoder, pfb)
      case Err(e) => Err(e)
      case Ok(sizes) =>
        match ReadBlobs(square, pfb.shareIndexes, sizes)
        case Err(e) => Err(e)
        case Ok(blobs) => Ok(BlobWire.EncodeBlobTx(BlobTx(pfb.tx, blobs, BlobUnmarshal.BLOB_TX_TYPE_ID)))
  }

  function UnwrapAll(codec: WrapperCodec, decoder: Decoder, square: seq<Share>, wrapped: seq<Bytes>)
    : (r: Result<seq<Bytes>>)
    decreases |wrapped|
  {
    if wrapped == [] then Ok([])
    else
      match Unwrap(codec, decoder, square, wrapped[0])
      case Err(e) => Err(e)
      case Ok(tx) => Prepend([tx], UnwrapAll(codec, decoder, square, wrapped[1..]))
  }

  /** The transactions behind the compact shares in `square[..txEnd]` and `square[txEnd..pfbEnd]`. */
  function FromParts(codec: WrapperCodec, decoder: Decoder, square: seq<Share>, txEnd: nat, pfbEnd: nat)
    : (r: Result<seq<Bytes>>)
    requires txEnd <= pfbEnd <= |square|
  {
    match Parse(square[..txEnd])
    case Err(e) => Err(e)
    case Ok(txs) =>
      match Parse(square[txEnd..pfbEnd])
      case Err(e) => Err(e)
      case Ok(wrapped) => Prepend(txs, UnwrapAll(codec, decoder, square, wrapped))
  }

  function Deconstructed(codec: WrapperCodec, decoder: Decoder, square: seq<Share>): (r: Result<seq<Bytes>>)
  {
    if square == EMPTY_SQUARE then Ok([])
    else
      match RangeFor(square, TX_NAMESPACE)
      case Err(e) => Err(e)
      case Ok(txRange) =>
        if txRange.start != 0 then Err(TxsDoNotStartAtZero)
        else
          match RangeFor(square[txRange.end..], PAY_FOR_BLOB_NAMESPACE)
          case Err(e) => Err(e)
          case Ok(pfbRange) =>
            if pfbRange == ShareRange.EMPTY_RANGE then Parse(square[..txRange.end])
            else if pfbRange.start != 0 then Err(PfbsDoNotFollowTxs)
            else FromParts(codec, decoder, square, txRange.end, txRange.end + pfbRange.end)
  }

  /** The wrapped PFBs that Deconstruct reads from the square; none when it fails before. */
  function ParsedPfbs(square: seq<Share>): (r: seq<Bytes>)
  {
    var txRange := RangeFor(square, TX_NAMESPACE);
    if txRange.Err? then []
    else
      var rest := square[txRange.value.end..];
      var pfbRange := RangeFor(rest, PAY_FOR_BLOB_NAMESPACE);
      if pfbRange.Err? || Parse(rest[..pfbRange.value.end]).Err? then []
      else Parse(rest[..pfbRange.value.end]).value
  }

  /** The blob sizes that the decoder finds for those PFBs are 32-bit lengths for which SparseSharesNeeded
      returns. */
  ghost predicate CountablePfbs(codec: WrapperCodec, decoder: Decoder, wrapped: seq<Bytes>) {
    forall i, j :: 0 <= i < |wrapped| && codec.decode(wrapped[i]).Some?
                   && SizesFor(decoder, codec.decode(wrapped[i]).value).Ok?
                   && 0 <= j < |SizesFor(decoder, codec.decode(wrapped[i]).value).value| ==>
      Returns32(SizesFor(decoder, codec.decode(wrapped[i]).value).value[j])
  }

  method Deconstruct(codec: WrapperCodec, decoder: Decoder, square: seq<Share>) returns (r: Result<seq<Bytes>>)
    requires CountablePfbs(codec, decoder, ParsedPfbs(square))
    ensures r == Deconstructed(codec, decoder, square)
  {
    hide RangeFor, Parse, UnwrapAll, CountablePfbs, EMPTY_SQUARE;
    if square == EMPTY_SQUARE {
      return Ok([]);
    }
    var txShareRange := GetShareRangeForNamespace(square, TX_NAMESPACE);
    if txShareRange.Err? {
      return Err(txShareRange.error);
    }
    var txEnd := txShareRange.value.end;
    if txShareRange.value.start != 0 {
      return Err(TxsDoNotStartAtZero);
    }
    var wpfbShareRange := GetShareRangeForNamespace(square[txEnd..], PAY_FOR_BLOB_NAMESPACE);
    if wpfbShareRange.Err? {
      return Err(wpfbShareRange.error);
    }
    if wpfbShareRange.value == ShareRange.EMPTY_RANGE {
      r := ParseCompactShares(square[..txEnd]);
      return;
    }
    if wpfbShareRange.value.start != 0 {
      return Err(PfbsDoNotFollowTxs);
    }
    var txs := ParseCompactShares(square[..txEnd]);
    if txs.Err? {
      return Err(txs.error);
    }
    assert square[txEnd..txEnd + wpfbShareRange.value.end] == square[txEnd..][..wpfbShareRange.value.end];
    var wpfbs := ParseCompactShares(square[txEnd..txEnd + wpfbShareRange.value.end]);
    if wpfbs.Err? {
      return Err(wpfbs.error);
    }
    r := UnwrapPfbs(codec, decoder, square, txs.value, wpfbs.value);
  }

  /** The loop over the wrapped PFBs. */
  method UnwrapPfbs(codec: WrapperCodec, decoder: Decoder, square: seq<Share>, txs0: seq<Bytes>, wpfbs: seq<Bytes>)
    returns (r: Result<seq<Bytes>>)
    requires CountablePfbs(codec, decoder, wpfbs)
    ensures r == Prepend(txs0, UnwrapAll(codec, decoder, square, wpfbs))
  {
    hide SizesFor, ReadBlobs, Returns32;
    var txs := txs0;
    assert wpfbs[0..] == wpfbs;
    for i := 0 to |wpfbs|
      invariant Prepend(txs0, UnwrapAll(codec, decoder, square, wpfbs))
             == Prepend(txs, UnwrapAll(codec, decoder, square, wpfbs[i..]))
    {
      assert wpfbs[i..][1..] == wpfbs[i + 1..];
      var wpfb := codec.decode(wpfbs[i]);
      if wpfb.None? {
        return Err(NotAWrappedPfb);
      }
      var sizes := SizesFor(decoder, wpfb.value);
      if sizes.Err? {
        return Err(sizes.error);
      }
      var blobs := CollectBlobs(square, wpfb.value.shareIndexes, sizes.value);
      if blobs.Err? {
        return Err(blobs.error);
      }
      var tx := BlobWire.Marshal(BlobTx(wpfb.value.tx, blobs.value, BlobUnmarshal.BLOB_TX_TYPE_ID));
      PrependPrepend(txs, [tx], UnwrapAll(codec, decoder, square, wpfbs[i + 1..]));
      txs := txs + [tx];
    }
    assert wpfbs[|wpfbs|..] == [] && txs + [] == txs;
    return Ok(txs);
  }

  /** The loop over the share indexes of one PFB. */
  method CollectBlobs(square: seq<Share>, indexes: seq<nat>, sizes: seq<nat>) returns (r: Result<seq<Blob>>)
    requires |indexes| == |sizes| && forall j :: 0 <= j < |sizes| ==> Returns32(sizes[j])
    ensures r == ReadBlobs(square, indexes, sizes)
  {
    hide ParseBlobs, SharesNeeded32;
    var blobs: seq<Blob> := [];
    PrependNothing(ReadBlobs(square, indexes, sizes));
    assert indexes[0..] == indexes && sizes[0..] == sizes;
    for j := 0 to |indexes|
      invariant ReadBlobs(square, indexes, sizes) == Prepend(blobs, ReadBlobs(square, indexes[j..], sizes[j..]))
    {
      assert indexes[j..][1..] == indexes[j + 1..] && sizes[j..][1..] == sizes[j + 1..];
      var n := SparseSharesNeeded(sizes[j]);
      var end := indexes[j] + n;
      if end > |square| {
        return Err(IndexOutOfRange);
      }
      var parsed := ParseSparseShares(square[indexes[j]..end]);
      if parsed.Err? {
        return Err(parsed.error);
      }
      if |parsed.value| != 1 {
        return Err(NotASingleBlob);
      }
      PrependPrepend(blobs, [parsed.value[0]], ReadBlobs(square, indexes[j + 1..], sizes[j + 1..]));
      blobs := blobs + [parsed.value[0]];
    }
    assert indexes[|indexes|..] == [] && blobs + [] == blobs;
    return Ok(blobs);
  }
}
