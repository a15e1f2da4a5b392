/** Which inputs the parsers accept, and what the others are refused for (pkg/shares/parse_compact_shares.go,
    pkg/shares/parse_sparse_shares.go, pkg/shares/parse.go, Deconstruct in pkg/square/square.go). */
module Acceptance {
  import opened Blobs
  import BlobUnmarshal
  import BlobWire
  import opened ByteSeqs
  import opened CompactParser
  import opened Deconstruction
  import opened NamespaceRange
  import opened Namespaces
  import opened Results
  import opened ShareFormat
  import opened ShareRange
  import opened ShareSequences
  import opened SparseParser
  import opened SquareLayout
  import opened Varint

  // ----- compact shares -----

  ghost predicate AllSupported(shares: seq<Share>) {
    forall i :: 0 <= i < |shares| ==> Supported(NamespaceBytes(shares[i]))
  }

  /** The pointer of a compact share lies inside the share. */
  predicate PointerInside(s: Share) {
    IsCompact(s) ==>
      var at := HeaderSize(false, IsSequenceStart(s));
      ParseU32(s[at..at + RESERVED_BYTES]) < SHARE_SIZE
  }

  lemma {:induction false} RestExtracted(shares: seq<Share>)
    ensures ExtractRest(shares).Ok? <==> AllSupported(shares)
    ensures ExtractRest(shares).Err? ==> ExtractRest(shares).error == UnsupportedNamespace
  {
    hide NamespaceBytes, Supported;
    if shares != [] {
      RestExtracted(shares[1..]);
      assert forall i :: 0 < i < |shares| ==> shares[i] == shares[1..][i - 1];
    }
  }

  /** Content is extracted exactly from shares of supported namespaces with a pointer inside the first one. */
  lemma ExtractAccepts(shares: seq<Share>)
    ensures Extract(shares).Ok? <==> AllSupported(shares) && (shares != [] ==> PointerInside(shares[0]))
  {
    hide NamespaceBytes, Supported;
    if shares != [] {
      RestExtracted(shares[1..]);
      assert forall i :: 0 < i < |shares| ==> shares[i] == shares[1..][i - 1];
    }
  }

  lemma {:induction false} UnitsError(raw: Bytes)
    ensures ParseUnits(raw).Err? ==> ParseUnits(raw).error == DelimiterOverflow
    decreases |raw|
  {
    hide ReadUvarint;
    var d := ParseDelimiter(raw);
    if d.Ok? && d.value.1 != 0 && d.value.1 <= |d.value.0| {
      UnitsError(d.value.0[d.value.1..]);
    }
  }

  /** Compact shares are refused for a share version first, then for namespaces and pointers, then for an
      overlong delimiter, and for nothing else. */
  lemma ParseAccepts(shares: seq<Share>)
    ensures Parse(shares) == Err(UnsupportedShareVersion)
       <==> exists i :: 0 <= i < |shares| && Version(shares[i]) != 0
    ensures (forall i :: 0 <= i < |shares| ==> Version(shares[i]) == 0) ==>
              if AllSupported(shares) && (shares != [] ==> PointerInside(shares[0]))
              then Extract(shares).Ok? && (shares != [] ==> Parse(shares) == ParseUnits(Extract(shares).value))
              else Parse(shares).Err?
  {
    hide NamespaceBytes, Supported, ExtractRest, RawDataUsingReserved, Version, PointerInside, ParseUnits;
    ExtractAccepts(shares);
    ExtractErrors(shares);
    if Extract(shares).Ok? {
      UnitsError(Extract(shares).value);
    }
  }

  lemma ExtractErrors(shares: seq<Share>)
    ensures Extract(shares).Err? ==> Extract(shares).error == UnsupportedNamespace || Extract(shares).error == ReservedBytesOutOfRange
  {
    hide NamespaceBytes, Supported;
    if shares != [] {
      RestExtracted(shares[1..]);
    }
  }

  // ----- sparse shares -----

  ghost predicate AllReadable(shares: seq<Share>) {
    forall i :: 0 <= i < |shares| ==> Version(shares[i]) == 0 && Supported(NamespaceBytes(shares[i]))
  }

  /** The first share that is not padding starts a sequence. */
  ghost predicate StartsWithStart(shares: seq<Share>)
  {
    forall i :: 0 <= i < |shares| && IsPadding(shares[i]) != Ok(true)
                && (forall k :: 0 <= k < i ==> IsPadding(shares[k]) == Ok(true)) ==>
      IsSequenceStart(shares[i])
  }

  /** The shares that start a blob. */
  function StartCount(shares: seq<Share>): (n: nat)
  {
    if shares == [] then 0
    else (if IsSequenceStart(shares[0]) && IsPadding(shares[0]) != Ok(true) then 1 else 0) + StartCount(shares[1..])
  }

  /** Sparse shares are grouped exactly when all have version 0 and a supported namespace and no continuation
      comes before the first start; every start gives one sequence. */
  lemma {:induction false} FoldAccepts(found: seq<Sequence>, shares: seq<Share>)
    ensures Fold(found, shares).Ok? <==> AllReadable(shares) && (found != [] || StartsWithStart(shares))
    ensures Fold(found, shares).Ok? ==> |Fold(found, shares).value| == |found| + StartCount(shares)
    decreases |shares|
  {
    hide NamespaceBytes, Supported, IsPadding, RawData, IsSequenceStart, Version;
    if shares != [] {
      var s, rest := shares[0], shares[1..];
      TakeShareAccepts(found, s);
      StartsTail(shares);
      assert AllReadable(shares) <==> Version(s) == 0 && Supported(NamespaceBytes(s)) && AllReadable(rest) by {
        assert forall i :: 0 < i < |shares| ==> shares[i] == rest[i - 1];
      }
      hide TakeShare, AllReadable, StartsWithStart;
      if TakeShare(found, s).Ok? {
        FoldAccepts(TakeShare(found, s).value, rest);
      }
    }
  }

  lemma TakeShareAccepts(found: seq<Sequence>, s: Share)
    ensures TakeShare(found, s).Ok? <==>
              && Version(s) == 0 && Supported(NamespaceBytes(s))
              && (IsPadding(s) == Ok(true) || IsSequenceStart(s) || found != [])
    ensures TakeShare(found, s).Ok? ==>
              |TakeShare(found, s).value| == |found| + if IsSequenceStart(s) && IsPadding(s) != Ok(true) then 1 else 0
  {
    hide NamespaceBytes, Supported, SequenceLen;
  }

  lemma StartsTail(shares: seq<Share>)
    requires shares != []
    ensures StartsWithStart(shares)
       <==> if IsPadding(shares[0]) == Ok(true) then StartsWithStart(shares[1..]) else IsSequenceStart(shares[0])
  {
    hide IsPadding, IsSequenceStart;
    var rest := shares[1..];
    if IsPadding(shares[0]) == Ok(true) {
      if StartsWithStart(shares) {
        forall i | 0 <= i < |rest| && IsPadding(rest[i]) != Ok(true)
                   && (forall k :: 0 <= k < i ==> IsPadding(rest[k]) == Ok(true))
          ensures IsSequenceStart(rest[i])
        {
          assert forall k :: 0 < k < i + 1 ==> shares[k] == rest[k - 1];
          assert shares[i + 1] == rest[i];
        }
      }
      if StartsWithStart(rest) {
        forall i | 0 <= i < |shares| && IsPadding(shares[i]) != Ok(true)
                   && (forall k :: 0 <= k < i ==> IsPadding(shares[k]) == Ok(true))
          ensures IsSequenceStart(shares[i])
        {
          assert forall k :: 0 <= k < i - 1 ==> rest[k] == shares[k + 1];
          assert i > 0 ==> rest[i - 1] == shares[i];
        }
      }
    }
  }

  /** Sequences are cut to their lengths exactly when all hold enough data, and then to just that. */
  lemma {:induction false} TrimAccepts(sequences: seq<Sequence>)
    ensures TrimAll(sequences).Ok? <==> forall i :: 0 <= i < |sequences| ==> sequences[i].sequenceLen <= |sequences[i].blob.data|
    ensures TrimAll(sequences).Ok? ==>
              && |TrimAll(sequences).value| == |sequences|
              && forall i :: 0 <= i < |sequences| ==> |TrimAll(sequences).value[i].data| == sequences[i].sequenceLen
  {
    if sequences != [] {
      TrimAccepts(sequences[1..]);
      assert forall i :: 0 < i < |sequences| ==> sequences[i] == sequences[1..][i - 1];
    }
  }

  /** Shares in the two padding namespaces are ignored whatever they hold. */
  lemma PaddingNamespacesIgnored(found: seq<Sequence>, s: Share)
    requires Version(s) == 0
    requires NamespaceBytes(s) == TAIL_PADDING_NAMESPACE || NamespaceBytes(s) == PRIMARY_RESERVED_PADDING_NAMESPACE
    ensures TakeShare(found, s) == Ok(found)
  {
    ReservedAreSupported();
    hide Supported, SequenceLen, NamespaceBytes;
  }

  // ----- share sequences -----

  /** The groups are well-formed; one that has not begun has the zero value. */
  ghost predicate GoodGroups(g: Groups) {
    && (forall i :: 0 <= i < |g.finished| ==> Block(g.finished[i]))
    && (g.current == NO_SEQUENCE || Block(g.current))
  }

  lemma JoinKeepsShares(g: Groups, s: Bytes)
    requires GoodGroups(g) && Join(g, s).Ok?
    ensures |s| == SHARE_SIZE
    ensures var next := Join(g, s).value;
            GoodGroups(next) && Flat(Close(next)) == Flat(Close(g)) + [s]
  {
    hide NamespaceBytes, Supported, IsSequenceStart, Flat;
    var next := Join(g, s).value;
    FlatOne(next.current);
    if IsSequenceStart(s) {
      FlatAppend(Close(g), [next.current]);
    } else {
      FlatOne(g.current);
      FlatAppend(g.finished, [g.current]);
      FlatAppend(g.finished, [next.current]);
      assert Flat(g.finished) + (g.current.shares + [s]) == (Flat(g.finished) + g.current.shares) + [s];
    }
  }

  lemma FlatOne(q: ShareSequence)
    ensures Flat([q]) == q.shares
  {
    assert [q][1..] == [] && q.shares + [] == q.shares;
  }

  lemma {:induction false} JoinAllKeepsShares(g: Groups, shares: seq<Bytes>)
    requires GoodGroups(g) && JoinAll(g, shares).Ok?
    ensures GoodGroups(JoinAll(g, shares).value) && Flat(Close(JoinAll(g, shares).value)) == Flat(Close(g)) + shares
    decreases |shares|
  {
    hide Join, Close, GoodGroups, Flat;
    if shares == [] {
      assert Flat(Close(g)) + shares == Flat(Close(g));
    } else {
      JoinKeepsShares(g, shares[0]);
      JoinAllKeepsShares(Join(g, shares[0]).value, shares[1..]);
      assert (Flat(Close(g)) + [shares[0]]) + shares[1..] == Flat(Close(g)) + shares;
    }
  }

  ghost predicate AreBlocks(blocks: seq<ShareSequence>) {
    forall i :: 0 <= i < |blocks| ==> Block(blocks[i])
  }

  lemma GroupsAreBlocks(shares: seq<Bytes>)
    requires Grouped(shares).Ok?
    ensures Flat(Grouped(shares).value) == shares && AreBlocks(Grouped(shares).value)
  {
    hide Block, JoinAll, Flat, Join;
    var g := Groups([], NO_SEQUENCE);
    assert Close(g) == [] && GoodGroups(g);
    NothingFlat();
    JoinAllKeepsShares(g, shares);
    assert [] + shares == shares;
  }

  /** Shares are grouped exactly when they are well-formed sequences one after the other; the groups are
      those sequences, so no share is lost, added or moved. */
  lemma GroupedExactly(shares: seq<Bytes>, blocks: seq<ShareSequence>)
    ensures Grouped(shares) == Ok(blocks) <==> Flat(blocks) == shares && AreBlocks(blocks)
  {
    hide Block, JoinAll, Flat;
    if Grouped(shares) == Ok(blocks) {
      GroupsAreBlocks(shares);
    }
    if Flat(blocks) == shares && AreBlocks(blocks) {
      GroupedBlocks(blocks);
    }
  }

  lemma NothingFlat()
    ensures Flat([]) == []
  {
  }

  /** A sequence with as many shares as its length needs, unless it is padding. */
  predicate HasNeededShares(q: ShareSequence) {
    IsPaddingSequence(q) == Ok(true) || (|q.shares| > 0 && |q.shares| == SharesNeeded(q.shares[0]))
  }

  lemma {:induction false} AllValidMeans(blocks: seq<ShareSequence>)
    requires AreBlocks(blocks)
    ensures AllValid(blocks).Ok? <==> forall i :: 0 <= i < |blocks| ==> HasNeededShares(blocks[i])
    ensures Kept(blocks, false) == Ok(blocks)
    decreases |blocks|
  {
    hide SharesNeeded, IsPadding;
    if blocks != [] {
      BlockIsSupported(blocks[0]);
      hide Block, IsPaddingSequence;
      AllValidMeans(blocks[1..]);
      assert forall i :: 0 < i < |blocks| ==> blocks[i] == blocks[1..][i - 1];
      assert blocks == [blocks[0]] + blocks[1..];
    }
  }

  lemma BlockIsSupported(q: ShareSequence)
    requires Block(q)
    ensures |q.shares| > 0 && Supported(NamespaceBytes(q.shares[0])) && IsPaddingSequence(q).Ok?
    ensures ValidSequenceLen(q).Ok? <==> HasNeededShares(q)
  {
    hide SharesNeeded, NamespaceBytes, SequenceLen, IsSequenceStart;
    assert NamespaceBytes(q.shares[0]) == q.namespace;
  }

  /** ParseShares succeeds exactly on well-formed sequences with the right numbers of shares, and returns
      just these. */
  lemma SequencesExactly(shares: seq<Bytes>, blocks: seq<ShareSequence>)
    ensures Sequences(shares, false) == Ok(blocks)
       <==> && Flat(blocks) == shares && AreBlocks(blocks)
            && forall i :: 0 <= i < |blocks| ==> HasNeededShares(blocks[i])
  {
    hide Grouped, Flat, AllValid, Kept, HasNeededShares, Block, AreBlocks;
    GroupedExactly(shares, blocks);
    if Grouped(shares).Ok? {
      var found := Grouped(shares).value;
      GroupsAreBlocks(shares);
      AllValidMeans(found);
    }
  }

  // ----- deconstructing -----

  /** A blob is read exactly when its shares lie in the square and hold one blob. */
  lemma ReadBlobAccepts(square: seq<Share>, index: nat, size: nat, b: Blob)
    ensures ReadBlob(square, index, size) == Ok(b)
       <==> && index + SharesNeeded32(size) <= |square|
            && ParseBlobs(square[index..index + SharesNeeded32(size)]) == Ok([b])
  {
    hide ParseBlobs, SharesNeeded32;
    if index + SharesNeeded32(size) <= |square| {
      var parsed := ParseBlobs(square[index..index + SharesNeeded32(size)]);
      assert parsed.Ok? && |parsed.value| == 1 ==> parsed.value == [parsed.value[0]];
    }
  }

  lemma {:induction false} ReadBlobsAccepts(square: seq<Share>, indexes: seq<nat>, sizes: seq<nat>, blobs: seq<Blob>)
    requires |indexes| == |sizes|
    ensures ReadBlobs(square, indexes, sizes) == Ok(blobs)
       <==> |blobs| == |indexes| && forall j :: 0 <= j < |indexes| ==> ReadBlob(square, indexes[j], sizes[j]) == Ok(blobs[j])
    decreases |indexes|
  {
    hide ReadBlob;
    if indexes != [] {
      var first := ReadBlob(square, indexes[0], sizes[0]);
      if blobs == [] {
        assert ReadBlobs(square, indexes, sizes) != Ok([]);
      } else {
        ReadBlobsAccepts(square, indexes[1..], sizes[1..], blobs[1..]);
        PrependIs(first, ReadBlobs(square, indexes[1..], sizes[1..]), blobs);
        assert forall j :: 0 < j < |indexes| ==> indexes[j] == indexes[1..][j - 1] && sizes[j] == sizes[1..][j - 1];
        assert forall j :: 0 < j < |blobs| ==> blobs[j] == blobs[1..][j - 1];
        assert forall j :: 0 <= j < |indexes[1..]| ==> indexes[1..][j] == indexes[j + 1] && sizes[1..][j] == sizes[j + 1];
        assert forall j :: 0 <= j < |blobs[1..]| ==> blobs[1..][j] == blobs[j + 1];
      }
    }
  }

  lemma PrependIs<T>(first: Result<T>, rest: Result<seq<T>>, all: seq<T>)
    requires all != []
    ensures first.Ok? ==> (Prepend([first.value], rest) == Ok(all) <==> first == Ok(all[0]) && rest == Ok(all[1..]))
  {
    if first.Ok? && rest.Ok? {
      var made := [first.value] + rest.value;
      assert made[0] == first.value && made[1..] == rest.value;
      assert all == [all[0]] + all[1..];
    }
  }

  /** The PFB's transaction must hold one message, a MsgPayForBlobs with a size for every share index. */
  lemma SizesAccepted(decoder: Decoder, pfb: IndexWrapper, sizes: seq<nat>)
    ensures SizesFor(decoder, pfb) == Ok(sizes)
       <==> sizes != [] && |sizes| == |pfb.shareIndexes| && decoder(pfb.tx) == Ok([PayForBlobs(sizes)])
  {
    if SizesFor(decoder, pfb) == Ok(sizes) {
      var msgs := decoder(pfb.tx).value;
      assert msgs == [msgs[0]];
    }
  }

  /** A wrapped PFB gives a transaction exactly when it decodes, its sizes are accepted and its blobs are read. */
  lemma UnwrapAccepts(codec: WrapperCodec, decoder: Decoder, square: seq<Share>, wrapped: Bytes, tx: Bytes)
    ensures Unwrap(codec, decoder, square, wrapped) == Ok(tx)
       <==> exists pfb, sizes, blobs ::
              && codec.decode(wrapped) == Some(pfb) && SizesFor(decoder, pfb) == Ok(sizes)
              && ReadBlobs(square, pfb.shareIndexes, sizes) == Ok(blobs)
              && tx == BlobWire.EncodeBlobTx(BlobTx(pfb.tx, blobs, BlobUnmarshal.BLOB_TX_TYPE_ID))
  {
    hide SizesFor, ReadBlobs, BlobWire.EncodeBlobTx;
  }

  lemma {:induction false} UnwrapAllAccepts(
    codec: WrapperCodec, decoder: Decoder, square: seq<Share>, wrapped: seq<Bytes>, txs: seq<Bytes>)
    ensures UnwrapAll(codec, decoder, square, wrapped) == Ok(txs)
       <==> |txs| == |wrapped| && forall i :: 0 <= i < |wrapped| ==> Unwrap(codec, decoder, square, wrapped[i]) == Ok(txs[i])
    decreases |wrapped|
  {
    hide Unwrap;
    if wrapped != [] {
      var first := Unwrap(codec, decoder, square, wrapped[0]);
      if txs == [] {
        assert UnwrapAll(codec, decoder, square, wrapped) != Ok([]);
      } else {
        UnwrapAllAccepts(codec, decoder, square, wrapped[1..], txs[1..]);
        PrependIs(first, UnwrapAll(codec, decoder, square, wrapped[1..]), txs);
        assert forall j :: 0 < j < |wrapped| ==> wrapped[j] == wrapped[1..][j - 1];
        assert forall j :: 0 < j < |txs| ==> txs[j] == txs[1..][j - 1];
        assert forall j :: 0 <= j < |wrapped[1..]| ==> wrapped[1..][j] == wrapped[j + 1];
        assert forall j :: 0 <= j < |txs[1..]| ==> txs[1..][j] == txs[j + 1];
      }
    }
  }

  /** The compact shares at the front of a square: transactions, then PFBs. */
  ghost predicate CompactFront(square: seq<Share>, txEnd: nat, pfbEnd: nat) {
    && txEnd <= pfbEnd <= |square|
    && RangeFor(square, TX_NAMESPACE) == Ok(Range(0, txEnd))
    && RangeFor(square[txEnd..], PAY_FOR_BLOB_NAMESPACE) == Ok(Range(0, pfbEnd - txEnd))
  }

  /** The transactions are in front and the PFBs directly behind them, both parse, and every PFB gives a
      transaction. */
  ghost predicate TakesApart(codec: WrapperCodec, decoder: Decoder, square: seq<Share>, txs: seq<Bytes>,
                             txEnd: nat, pfbEnd: nat, normal: seq<Bytes>, wrapped: seq<Bytes>) {
    && CompactFront(square, txEnd, pfbEnd)
    && Parse(square[..txEnd]) == Ok(normal) && Parse(square[txEnd..pfbEnd]) == Ok(wrapped)
    && |txs| == |normal| + |wrapped| && normal <= txs
    && UnwrapAll(codec, decoder, square, wrapped) == Ok(txs[|normal|..])
  }

  /** A square that is not the empty one gives transactions exactly when it can be taken apart into them. */
  lemma DeconstructAccepts(codec: WrapperCodec, decoder: Decoder, square: seq<Share>, txs: seq<Bytes>)
    requires square != EMPTY_SQUARE
    ensures Deconstructed(codec, decoder, square) == Ok(txs)
       <==> exists txEnd: nat, pfbEnd: nat, normal: seq<Bytes>, wrapped: seq<Bytes> ::
              TakesApart(codec, decoder, square, txs, txEnd, pfbEnd, normal, wrapped)
  {
    hide Deconstructed, TakesApart;
    if Deconstructed(codec, decoder, square) == Ok(txs) {
      DeconstructedTakesApart(codec, decoder, square, txs);
    }
    if exists txEnd: nat, pfbEnd: nat, normal: seq<Bytes>, wrapped: seq<Bytes> ::
         TakesApart(codec, decoder, square, txs, txEnd, pfbEnd, normal, wrapped) {
      var txEnd: nat, pfbEnd: nat, normal: seq<Bytes>, wrapped: seq<Bytes> :|
        TakesApart(codec, decoder, square, txs, txEnd, pfbEnd, normal, wrapped);
      TakesApartDeconstructed(codec, decoder, square, txs, txEnd, pfbEnd, normal, wrapped);
    }
  }

  lemma DeconstructedTakesApart(codec: WrapperCodec, decoder: Decoder, square: seq<Share>, txs: seq<Bytes>)
    requires square != EMPTY_SQUARE && Deconstructed(codec, decoder, square) == Ok(txs)
    ensures exists txEnd: nat, pfbEnd: nat, normal: seq<Bytes>, wrapped: seq<Bytes> ::
              TakesApart(codec, decoder, square, txs, txEnd, pfbEnd, normal, wrapped)
  {
    hide RangeFor, Parse, UnwrapAll, EMPTY_SQUARE;
    NothingParses();
    var txEnd := RangeFor(square, TX_NAMESPACE).value.end;
    var pfbEnd := txEnd + RangeFor(square[txEnd..], PAY_FOR_BLOB_NAMESPACE).value.end;
    var normal := Parse(square[..txEnd]).value;
    assert square[txEnd..txEnd] == [];
    var wrapped := Parse(square[txEnd..pfbEnd]).value;
    NothingUnwraps(codec, decoder, square);
    UnwrappedLength(codec, decoder, square, wrapped);
    assert txs == normal + UnwrapAll(codec, decoder, square, wrapped).value;
    assert TakesApart(codec, decoder, square, txs, txEnd, pfbEnd, normal, wrapped);
  }

  lemma TakesApartDeconstructed(codec: WrapperCodec, decoder: Decoder, square: seq<Share>, txs: seq<Bytes>,
                                txEnd: nat, pfbEnd: nat, normal: seq<Bytes>, wrapped: seq<Bytes>)
    requires square != EMPTY_SQUARE
    requires TakesApart(codec, decoder, square, txs, txEnd, pfbEnd, normal, wrapped)
    ensures Deconstructed(codec, decoder, square) == Ok(txs)
  {
    hide RangeFor, Parse, UnwrapAll, EMPTY_SQUARE;
    NothingParses();
    NothingUnwraps(codec, decoder, square);
    assert square[txEnd..txEnd] == [] && txs == normal + txs[|normal|..];
    if txEnd == pfbEnd {
      assert wrapped == [] && txs == normal;
    } else {
      assert Deconstructed(codec, decoder, square) == FromParts(codec, decoder, square, txEnd, pfbEnd);
    }
  }

  lemma NothingParses()
    ensures Parse([]) == Ok([])
  {
  }

  lemma NothingUnwraps(codec: WrapperCodec, decoder: Decoder, square: seq<Share>)
    ensures UnwrapAll(codec, decoder, square, []) == Ok([])
  {
  }

  lemma UnwrappedLength(codec: WrapperCodec, decoder: Decoder, square: seq<Share>, wrapped: seq<Bytes>)
    ensures UnwrapAll(codec, decoder, square, wrapped).Ok? ==> |UnwrapAll(codec, decoder, square, wrapped).value| == |wrapped|
  {
    hide UnwrapAll, Unwrap;
    if UnwrapAll(codec, decoder, square, wrapped).Ok? {
      UnwrapAllAccepts(codec, decoder, square, wrapped, UnwrapAll(codec, decoder, square, wrapped).value);
    }
  }
}
