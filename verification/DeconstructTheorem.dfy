/** Deconstruct undoes Construct (pkg/square/square.go). */
module DeconstructTheorem {
  import opened Blobs
  import opened BlobUnmarshal
  import BlobWire
  import opened ByteSeqs
  import opened CompactParser
  import opened CompactSplitter
  import opened CompactStream
  import opened Counter
  import opened Deconstruction
  import opened NamespaceRange
  import opened Namespaces
  import PowersOfTwo
  import opened Results
  import opened ShareFormat
  import opened ShareRange
  import opened SparseParser
  import SparseSplitter
  import opened Square
  import opened SquareAgreement
  import opened SquareLayout
  import opened SquarePlacement
  import opened SquareTheorems
  import Varint

  // ----- blobs -----

  function BlobSizes(blobs: seq<Blob>): (r: seq<nat>)
    ensures |r| == |blobs|
  {
    seq(|blobs|, j requires 0 <= j < |blobs| => |blobs[j].data|)
  }

  lemma ReadBlobBack(square: seq<Share>, at: nat, b: Blob)
    requires StandsAt(square, at, b)
    ensures ReadBlob(square, at, |b.data|) == Ok(b)
  {
    hide ParseBlobs, SparseSplitter.BlobShares, SparseCount, SharesNeeded32;
    ValidBlobCount(b);
    ParseOneBlob(b);
  }

  lemma {:induction false} ReadBlobsBack(square: seq<Share>, indexes: seq<nat>, blobs: seq<Blob>)
    requires |indexes| == |blobs|
    requires forall j :: 0 <= j < |blobs| ==> StandsAt(square, indexes[j], blobs[j])
    ensures ReadBlobs(square, indexes, BlobSizes(blobs)) == Ok(blobs)
    decreases |blobs|
  {
    hide ReadBlob, StandsAt;
    if blobs != [] {
      ReadBlobBack(square, indexes[0], blobs[0]);
      assert BlobSizes(blobs)[1..] == BlobSizes(blobs[1..]);
      ReadBlobsBack(square, indexes[1..], blobs[1..]);
      assert blobs == [blobs[0]] + blobs[1..];
    }
  }

  // ----- PFBs -----

  /** The decoder finds in the transaction one MsgPayForBlobs with the sizes of its blobs. */
  ghost predicate ListsSizes(decoder: Decoder, t: BlobTx) {
    t.blobs != [] && decoder(t.tx) == Ok([PayForBlobs(BlobSizes(t.blobs))])
  }

  /** The bytes that MarshalBlobTx gives for a blob transaction. */
  function Canonical(t: BlobTx): (r: Bytes)
  {
    BlobWire.EncodeBlobTx(BlobTx(t.tx, t.blobs, BLOB_TX_TYPE_ID))
  }

  function CanonicalTxs(blobTxs: seq<BlobTx>): (r: seq<Bytes>)
    ensures |r| == |blobTxs|
  {
    seq(|blobTxs|, p requires 0 <= p < |blobTxs| => Canonical(blobTxs[p]))
  }

  lemma UnwrapBack(env: Env, maxSquareSize: nat, decoder: Decoder, txs: seq<Bytes>, blobTxs: seq<BlobTx>, p: nat)
    requires Admissible(env, maxSquareSize, txs, blobTxs) && p < |blobTxs| && ListsSizes(decoder, blobTxs[p])
    ensures Unwrap(env.codec, decoder, SquareShares(env, txs, blobTxs), PfbUnits(env, txs, blobTxs)[p])
         == Ok(Canonical(blobTxs[p]))
  {
    hide Admissible, SquareShares, FinalPfbs, ReadBlobs, BlobWire.EncodeBlobTx, StandsAt;
    DecodedPfb(env, maxSquareSize, txs, blobTxs, p);
    var pfb, t := FinalPfbs(env, txs, blobTxs)[p], blobTxs[p];
    var square := SquareShares(env, txs, blobTxs);
    FinalPfbAt(env, txs, blobTxs, p, 0);
    forall j | 0 <= j < |t.blobs| ensures StandsAt(square, pfb.shareIndexes[j], t.blobs[j]) {
      BlobFound(env, maxSquareSize, txs, blobTxs, p, j);
    }
    ReadBlobsBack(square, pfb.shareIndexes, t.blobs);
  }

  lemma DecodedPfb(env: Env, maxSquareSize: nat, txs: seq<Bytes>, blobTxs: seq<BlobTx>, p: nat)
    requires Admissible(env, maxSquareSize, txs, blobTxs) && p < |blobTxs|
    ensures ValidBlobTxs(blobTxs)
    ensures env.codec.decode(PfbUnits(env, txs, blobTxs)[p]) == Some(FinalPfbs(env, txs, blobTxs)[p])
    ensures PfbUnits(env, txs, blobTxs)[p] != []
  {
    hide FinalPfbs, Cost, ValidBlobTxs;
    FinalPfbNoLonger(env, maxSquareSize, txs, blobTxs, p);
  }

  lemma {:induction false} UnwrapAllBack(
    env: Env, maxSquareSize: nat, decoder: Decoder, txs: seq<Bytes>, blobTxs: seq<BlobTx>, p: nat)
    requires Admissible(env, maxSquareSize, txs, blobTxs) && p <= |blobTxs|
    requires forall q :: 0 <= q < |blobTxs| ==> ListsSizes(decoder, blobTxs[q])
    ensures UnwrapAll(env.codec, decoder, SquareShares(env, txs, blobTxs), PfbUnits(env, txs, blobTxs)[p..])
         == Ok(CanonicalTxs(blobTxs)[p..])
    decreases |blobTxs| - p
  {
    hide Admissible, SquareShares, FinalPfbs, Unwrap, ListsSizes, Canonical, PfbUnits;
    AdmissibleBlobs(env, maxSquareSize, txs, blobTxs);
    var units, want := PfbUnits(env, txs, blobTxs), CanonicalTxs(blobTxs);
    if p < |blobTxs| {
      UnwrapBack(env, maxSquareSize, decoder, txs, blobTxs, p);
      UnwrapAllBack(env, maxSquareSize, decoder, txs, blobTxs, p + 1);
      assert units[p..][1..] == units[p + 1..] && want[p..] == [want[p]] + want[p + 1..];
    } else {
      assert units[p..] == [] && want[p..] == [];
    }
  }

  // ----- the units in the compact shares -----

  lemma {:induction false} UnitWithinStream(units: seq<Bytes>, i: nat)
    requires i < |units|
    ensures |units[i]| < |Stream(units)|
  {
    StartOf(units, i);
  }

  lemma PfbUnitsAreUnits(env: Env, maxSquareSize: nat, txs: seq<Bytes>, blobTxs: seq<BlobTx>)
    requires Admissible(env, maxSquareSize, txs, blobTxs)
    ensures Units(PfbUnits(env, txs, blobTxs))
  {
    hide PfbUnits, Stream, SharesFor, Admissible, StreamLen;
    var units := PfbUnits(env, txs, blobTxs);
    CostBound(env, maxSquareSize, txs, blobTxs);
    PfbCounterCovers(env, maxSquareSize, txs, blobTxs);
    forall i | 0 <= i < |units| ensures 0 < |units[i]| < Varint.U64_LIMIT {
      DecodedPfb(env, maxSquareSize, txs, blobTxs, i);
      UnitWithinStream(units, i);
    }
  }

  lemma CostBound(env: Env, maxSquareSize: nat, txs: seq<Bytes>, blobTxs: seq<BlobTx>)
    requires Admissible(env, maxSquareSize, txs, blobTxs)
    ensures StreamLen(Lengths(txs)) < U32_LIMIT && StreamLen(WorstLens(env, blobTxs)) < U32_LIMIT
  {
    hide StreamLen, SumOffsets, AllElements, Lawful, ValidBlobTxs;
    PowersOfTwo.SquareMonotone(maxSquareSize, SquareSizeUpperBound(env.appVersion));
    assert Cost(env, txs, blobTxs) <= 512 * 512;
    assert SharesFor(StreamLen(Lengths(txs))) <= 512 * 512;
    assert SharesFor(StreamLen(WorstLens(env, blobTxs))) <= 512 * 512;
  }

  // ----- the whole square -----

  lemma NotBelow(shares: seq<Share>, lo: Bytes, hi: Bytes, ns: Bytes)
    requires Within(shares, lo, hi) && Less(ns, lo)
    ensures forall i :: 0 <= i < |shares| ==> NamespaceBytes(shares[i]) != ns
  {
    hide NamespaceBytes, Supported;
    forall i | 0 <= i < |shares| ensures NamespaceBytes(shares[i]) != ns {
      CompareAntisymmetric(ns, lo);
    }
  }

  lemma TxRange(env: Env, txs: seq<Bytes>, blobTxs: seq<BlobTx>)
    requires ValidBlobTxs(blobTxs)
    ensures RangeFor(SquareShares(env, txs, blobTxs), TX_NAMESPACE) == Ok(Range(0, |TxShares(txs)|))
  {
    hide Within, SquareShares, TxShares, PfbShares, BehindPfbs, RangeFor, ValidBlobTxs, Less;
    NamespacesInOrder(env, txs, blobTxs);
    BehindTxsWithin(env, txs, blobTxs);
    SquareInParts(env, txs, blobTxs);
    ReservedOrder();
    var rest := PfbShares(env, txs, blobTxs) + BehindPfbs(env, txs, blobTxs);
    NotBelow(rest, PAY_FOR_BLOB_NAMESPACE, TAIL_PADDING_NAMESPACE, TX_NAMESPACE);
    WithinIsInOrder(SquareShares(env, txs, blobTxs), TX_NAMESPACE, TAIL_PADDING_NAMESPACE);
    RangeOfFront(TxShares(txs), TX_NAMESPACE, rest);
  }

  lemma PfbRange(env: Env, txs: seq<Bytes>, blobTxs: seq<BlobTx>)
    requires ValidBlobTxs(blobTxs)
    ensures RangeFor(PfbShares(env, txs, blobTxs) + BehindPfbs(env, txs, blobTxs), PAY_FOR_BLOB_NAMESPACE)
         == Ok(Range(0, |PfbShares(env, txs, blobTxs)|))
  {
    hide Within, PfbShares, BehindPfbs, RangeFor, ValidBlobTxs, Less;
    BehindTxsWithin(env, txs, blobTxs);
    BehindPfbsWithin(env, txs, blobTxs);
    ReservedOrder();
    NotBelow(BehindPfbs(env, txs, blobTxs), PRIMARY_RESERVED_PADDING_NAMESPACE, TAIL_PADDING_NAMESPACE,
             PAY_FOR_BLOB_NAMESPACE);
    WithinIsInOrder(PfbShares(env, txs, blobTxs) + BehindPfbs(env, txs, blobTxs), PAY_FOR_BLOB_NAMESPACE,
                    TAIL_PADDING_NAMESPACE);
    RangeOfFront(PfbShares(env, txs, blobTxs), PAY_FOR_BLOB_NAMESPACE, BehindPfbs(env, txs, blobTxs));
  }

  /** A square with transactions in it is not the empty square. */
  lemma EmptyOnlyWithoutTxs(env: Env, txs: seq<Bytes>, blobTxs: seq<BlobTx>)
    requires ValidBlobTxs(blobTxs) && SquareShares(env, txs, blobTxs) == EMPTY_SQUARE
    ensures txs == [] && blobTxs == []
  {
    hide SquareShares, TxShares, PfbShares, BehindPfbs, ValidBlobTxs, NamespaceBytes, Less, Within, SparseSplitter.PaddingShare;
    SquareInParts(env, txs, blobTxs);
    NamespacesInOrder(env, txs, blobTxs);
    BehindTxsWithin(env, txs, blobTxs);
    SomeShares(env, txs, blobTxs);
    ReservedAreSupported();
    PaddingShareFields(TAIL_PADDING_NAMESPACE);
    assert EMPTY_SQUARE == [SparseSplitter.PaddingShare(TAIL_PADDING_NAMESPACE, 0)];
    var square := TxShares(txs) + (PfbShares(env, txs, blobTxs) + BehindPfbs(env, txs, blobTxs));
    assert NamespaceBytes(square[0]) == TAIL_PADDING_NAMESPACE;
  }

  lemma SomeShares(env: Env, txs: seq<Bytes>, blobTxs: seq<BlobTx>)
    ensures txs != [] <==> TxShares(txs) != []
    ensures blobTxs != [] <==> PfbShares(env, txs, blobTxs) != []
  {
    hide PfbUnits, SharesOf;
    var units := PfbUnits(env, txs, blobTxs);
    if txs != [] {
      UnitWithinStream(txs, 0);
    }
    if units != [] {
      UnitWithinStream(units, 0);
    }
  }

  /** Taking the exported square apart gives the normal transactions in front of the first empty one, in
      order, and then the canonical encodings of the blob transactions, in order. */
  lemma DeconstructExported(env: Env, maxSquareSize: nat, decoder: Decoder, txs: seq<Bytes>, blobTxs: seq<BlobTx>)
    requires Admissible(env, maxSquareSize, txs, blobTxs) && Sized(txs)
    requires forall p :: 0 <= p < |blobTxs| ==> ListsSizes(decoder, blobTxs[p])
    ensures ValidBlobTxs(blobTxs)
    ensures Deconstructed(env.codec, decoder, SquareShares(env, txs, blobTxs)) == Ok(Complete(txs) + CanonicalTxs(blobTxs))
  {
    hide Admissible, SquareShares, TxShares, PfbShares, BehindPfbs, ValidBlobTxs, RangeFor, FromParts, Parse, EMPTY_SQUARE,
         ListsSizes, Canonical, Sized;
    AdmissibleBlobs(env, maxSquareSize, txs, blobTxs);
    var square := SquareShares(env, txs, blobTxs);
    assert blobTxs == [] ==> Complete(txs) + CanonicalTxs(blobTxs) == Complete(txs);
    if square == EMPTY_SQUARE {
      EmptyOnlyWithoutTxs(env, txs, blobTxs);
    } else {
      var tx, pfb, rest := TxShares(txs), PfbShares(env, txs, blobTxs), BehindPfbs(env, txs, blobTxs);
      SquareInParts(env, txs, blobTxs);
      TxRange(env, txs, blobTxs);
      PfbRange(env, txs, blobTxs);
      SomeShares(env, txs, blobTxs);
      Slices(tx, pfb, rest);
      ParseTxShares(txs);
      PartsBack(env, maxSquareSize, decoder, txs, blobTxs);
    }
  }

  lemma Slices<T>(a: seq<T>, b: seq<T>, c: seq<T>)
    ensures var s := a + (b + c);
            s[..|a|] == a && s[|a|..] == b + c && s[|a|..|a| + |b|] == b
  {
  }

  lemma ParseTxShares(txs: seq<Bytes>)
    requires Sized(txs)
    ensures Parse(TxShares(txs)) == Ok(Complete(txs))
  {
    hide Parse, CompactShares;
    ParseSplit(TX_NAMESPACE, txs);
  }

  lemma UnitsAreSized(units: seq<Bytes>)
    requires Units(units)
    ensures Sized(units)
  {
  }

  lemma PartsBack(env: Env, maxSquareSize: nat, decoder: Decoder, txs: seq<Bytes>, blobTxs: seq<BlobTx>)
    requires Admissible(env, maxSquareSize, txs, blobTxs) && Sized(txs)
    requires forall p :: 0 <= p < |blobTxs| ==> ListsSizes(decoder, blobTxs[p])
    ensures ValidBlobTxs(blobTxs)
    ensures var n, m := |TxShares(txs)|, |PfbShares(env, txs, blobTxs)|;
            && n + m <= |SquareShares(env, txs, blobTxs)|
            && FromParts(env.codec, decoder, SquareShares(env, txs, blobTxs), n, n + m) == Ok(Complete(txs) + CanonicalTxs(blobTxs))
  {
    hide Admissible, SquareShares, CompactShares, BehindPfbs, ValidBlobTxs, Parse, ListsSizes, Canonical, Sized, UnwrapAll, Complete;
    AdmissibleBlobs(env, maxSquareSize, txs, blobTxs);
    var units := PfbUnits(env, txs, blobTxs);
    SquareInParts(env, txs, blobTxs);
    Slices(TxShares(txs), PfbShares(env, txs, blobTxs), BehindPfbs(env, txs, blobTxs));
    ParseTxShares(txs);
    PfbUnitsAreUnits(env, maxSquareSize, txs, blobTxs);
    UnitsAreSized(units);
    ParseSplit(PAY_FOR_BLOB_NAMESPACE, units);
    UnwrapAllBack(env, maxSquareSize, decoder, txs, blobTxs, 0);
    assert units[0..] == units && CanonicalTxs(blobTxs)[0..] == CanonicalTxs(blobTxs);
  }

  // ----- from the list of transactions -----

  /** `normal` in front of transactions that decode to `blobTxs`. */
  ghost predicate Splits(txs: seq<Bytes>, normal: seq<Bytes>, blobTxs: seq<BlobTx>) {
    && Processable(txs) && |normal| + |blobTxs| == |txs|
    && (forall i :: 0 <= i < |normal| ==> txs[i] == normal[i] && !IsBlobTx(txs[i]))
    && (forall i :: 0 <= i < |blobTxs| ==> AsBlobTx(txs[|normal| + i]) == Some(blobTxs[i]))
  }

  lemma SplitsSnoc(txs: seq<Bytes>, normal: seq<Bytes>, blobTxs: seq<BlobTx>, tx: Bytes)
    requires Splits(txs, normal, blobTxs) && ProcessableTx(tx)
    ensures IsBlobTx(tx) ==> Splits(txs + [tx], normal, blobTxs + [AsBlobTx(tx).value])
    ensures !IsBlobTx(tx) && blobTxs == [] ==> Splits(txs + [tx], normal + [tx], blobTxs)
  {
    hide AsBlobTx;
  }

  /** A list without problems is made of normal transactions followed by blob transactions, and fits. */
  lemma {:induction false} AcceptedSplits(env: Env, capacity: nat, txs: seq<Bytes>)
    requires Processable(txs) && Problem(env, capacity, txs) == None
    ensures Cost(env, NormalTxs(txs), BlobTxs(txs)) <= capacity
    ensures Splits(txs, NormalTxs(txs), BlobTxs(txs))
  {
    hide Cost, AsBlobTx, Splits, NormalTxs, BlobTxs;
    if txs == [] {
      NoCost(env);
      NothingSplits();
    } else {
      var n := |txs| - 1;
      assert txs == txs[..n] + [txs[n]];
      AcceptedSplits(env, capacity, txs[..n]);
      SplitsSnoc(txs[..n], NormalTxs(txs[..n]), BlobTxs(txs[..n]), txs[n]);
      BlobTxsSnoc(txs[..n], txs[n]);
    }
  }

  lemma NothingSplits()
    ensures NormalTxs([]) == [] && Splits([], NormalTxs([]), BlobTxs([]))
  {
  }

  /** A normal transaction, or a blob transaction with valid blobs whose PFB lists their sizes. */
  ghost predicate Submittable(decoder: Decoder, tx: Bytes)
    requires ProcessableTx(tx)
  {
    match AsBlobTx(tx)
    case None => true
    case Some(t) => ListsSizes(decoder, t) && forall j :: 0 <= j < |t.blobs| ==> ValidBlob(t.blobs[j])
  }

  /** What a square keeps of a transaction determines it: it is not empty, and a blob transaction is encoded
      as MarshalBlobTx does it. */
  predicate Recoverable(tx: Bytes)
    requires |tx| < BlobWire.INT64_LIMIT
  {
    match AsBlobTx(tx)
    case None => tx != []
    case Some(t) => tx == Canonical(t)
  }

  lemma SplitsAreValid(decoder: Decoder, txs: seq<Bytes>, normal: seq<Bytes>, blobTxs: seq<BlobTx>)
    requires Splits(txs, normal, blobTxs) && forall i :: 0 <= i < |txs| ==> Submittable(decoder, txs[i])
    ensures Sized(normal) && ValidBlobTxs(blobTxs)
    ensures forall p :: 0 <= p < |blobTxs| ==> ListsSizes(decoder, blobTxs[p])
  {
    hide AsBlobTx, ValidBlob, ListsSizes;
    forall p | 0 <= p < |blobTxs|
      ensures ListsSizes(decoder, blobTxs[p])
      ensures forall j :: 0 <= j < |blobTxs[p].blobs| ==> ValidBlob(blobTxs[p].blobs[j])
    {
      assert Submittable(decoder, txs[|normal| + p]);
    }
  }

  lemma BackIsRecoverable(txs: seq<Bytes>, normal: seq<Bytes>, blobTxs: seq<BlobTx>)
    requires Splits(txs, normal, blobTxs) && Sized(normal) && Complete(normal) + CanonicalTxs(blobTxs) == txs
    ensures forall i :: 0 <= i < |txs| ==> Recoverable(txs[i])
  {
    hide AsBlobTx, Canonical, Complete, Recoverable, Splits, CanonicalTxs;
    CompleteAll(normal);
    SplitLength(txs, normal, blobTxs);
    assert |Complete(normal)| == |normal| && Complete(normal) == normal;
    forall i | 0 <= i < |txs| ensures Recoverable(txs[i]) {
      if i < |normal| {
        assert txs[i] == normal[i] && 0 < |normal[i]|;
        NormalRecoverable(txs, normal, blobTxs, i);
      } else {
        assert txs[i] == CanonicalTxs(blobTxs)[i - |normal|];
        BlobTxRecoverable(txs, normal, blobTxs, i);
      }
    }
  }

  lemma SplitLength(txs: seq<Bytes>, normal: seq<Bytes>, blobTxs: seq<BlobTx>)
    requires Splits(txs, normal, blobTxs)
    ensures |normal| + |blobTxs| == |txs| && forall i :: 0 <= i < |txs| ==> |txs[i]| < BlobWire.INT64_LIMIT
  {
    hide AsBlobTx;
  }

  lemma NormalRecoverable(txs: seq<Bytes>, normal: seq<Bytes>, blobTxs: seq<BlobTx>, i: nat)
    requires Splits(txs, normal, blobTxs) && i < |normal|
    ensures |txs[i]| < BlobWire.INT64_LIMIT && (Recoverable(txs[i]) <==> txs[i] != [])
  {
    hide AsBlobTx, Canonical;
  }

  lemma BlobTxRecoverable(txs: seq<Bytes>, normal: seq<Bytes>, blobTxs: seq<BlobTx>, i: nat)
    requires Splits(txs, normal, blobTxs) && |normal| <= i < |txs|
    ensures |txs[i]| < BlobWire.INT64_LIMIT && (Recoverable(txs[i]) <==> txs[i] == CanonicalTxs(blobTxs)[i - |normal|])
  {
    hide AsBlobTx, Canonical;
    assert AsBlobTx(txs[|normal| + (i - |normal|)]) == Some(blobTxs[i - |normal|]);
  }

  /** The recovered list is the original one exactly when every transaction is recoverable. */
  lemma SplitsBack(txs: seq<Bytes>, normal: seq<Bytes>, blobTxs: seq<BlobTx>)
    requires Splits(txs, normal, blobTxs) && Sized(normal)
    ensures Complete(normal) + CanonicalTxs(blobTxs) == txs <==> forall i :: 0 <= i < |txs| ==> Recoverable(txs[i])
  {
    hide AsBlobTx, Canonical, Complete, Recoverable, CanonicalTxs;
    CompleteAll(normal);
    if Complete(normal) + CanonicalTxs(blobTxs) == txs {
      BackIsRecoverable(txs, normal, blobTxs);
    }
    if forall i :: 0 <= i < |txs| ==> Recoverable(txs[i]) {
      forall i | 0 <= i < |normal| ensures 0 < |normal[i]| {
        NormalRecoverable(txs, normal, blobTxs, i);
      }
      forall i | |normal| <= i < |txs| ensures txs[i] == CanonicalTxs(blobTxs)[i - |normal|] {
        BlobTxRecoverable(txs, normal, blobTxs, i);
      }
    }
  }

  lemma AcceptedIsAdmissible(env: Env, maxSquareSize: nat, decoder: Decoder, txs: seq<Bytes>)
    requires Processable(txs) && Lawful(env.codec)
    requires PowersOfTwo.IsPow2(maxSquareSize) && maxSquareSize <= SquareSizeUpperBound(env.appVersion)
    requires Problem(env, maxSquareSize * maxSquareSize, txs) == None
    requires forall i :: 0 <= i < |txs| ==> Submittable(decoder, txs[i])
    ensures Admissible(env, maxSquareSize, NormalTxs(txs), BlobTxs(txs)) && Sized(NormalTxs(txs))
    ensures forall p :: 0 <= p < |BlobTxs(txs)| ==> ListsSizes(decoder, BlobTxs(txs)[p])
    ensures Complete(NormalTxs(txs)) + CanonicalTxs(BlobTxs(txs)) == txs
            <==> forall i :: 0 <= i < |txs| ==> Recoverable(txs[i])
  {
    hide Cost, AsBlobTx, Lawful, NormalTxs, BlobTxs, Problem, ValidBlob, Canonical, ListsSizes, Splits, Complete, Recoverable;
    AcceptedSplits(env, maxSquareSize * maxSquareSize, txs);
    SplitsAreValid(decoder, txs, NormalTxs(txs), BlobTxs(txs));
    SplitsBack(txs, NormalTxs(txs), BlobTxs(txs));
  }

  /** Deconstruct(Construct(txs)) == txs for every accepted list, exactly when no normal transaction is empty
      and every blob transaction is canonically encoded. Otherwise the normal transactions from the first
      empty one on are lost, and blob transactions come back in their canonical encoding. */
  lemma DeconstructUndoesConstruct(env: Env, maxSquareSize: nat, decoder: Decoder, txs: seq<Bytes>)
    requires Processable(txs) && Lawful(env.codec)
    requires PowersOfTwo.IsPow2(maxSquareSize) && maxSquareSize <= SquareSizeUpperBound(env.appVersion)
    requires Problem(env, maxSquareSize * maxSquareSize, txs) == None
    requires forall i :: 0 <= i < |txs| ==> Submittable(decoder, txs[i])
    ensures var r := ConstructedSquare(env, maxSquareSize, txs);
            && r.Ok? && (forall i :: 0 <= i < |r.value| ==> |r.value[i]| == SHARE_SIZE)
            && Deconstructed(env.codec, decoder, r.value) == Ok(Complete(NormalTxs(txs)) + CanonicalTxs(BlobTxs(txs)))
            && (Deconstructed(env.codec, decoder, r.value) == Ok(txs)
                <==> forall i :: 0 <= i < |txs| ==> Recoverable(txs[i]))
  {
    hide Cost, Lawful, NormalTxs, BlobTxs, Problem, ValidBlob, ListsSizes, Deconstructed, SquareShares, Submittable,
         CanonicalTxs, ExportedSquare, Admissible, Sized, Complete, Recoverable;
    AcceptedIsAdmissible(env, maxSquareSize, decoder, txs);
    DeconstructExported(env, maxSquareSize, decoder, NormalTxs(txs), BlobTxs(txs));
    ExportSucceeds(env, maxSquareSize, NormalTxs(txs), BlobTxs(txs));
  }

  // ----- the two operations themselves -----

  lemma ParsedPfbsBack(env: Env, maxSquareSize: nat, txs: seq<Bytes>, blobTxs: seq<BlobTx>)
    requires Admissible(env, maxSquareSize, txs, blobTxs)
    ensures ValidBlobTxs(blobTxs)
    ensures ParsedPfbs(SquareShares(env, txs, blobTxs)) == PfbUnits(env, txs, blobTxs)
  {
    hide Admissible, SquareShares, CompactShares, BehindPfbs, ValidBlobTxs, RangeFor, Parse, Units, PfbUnits;
    AdmissibleBlobs(env, maxSquareSize, txs, blobTxs);
    var tx, pfb, rest := TxShares(txs), PfbShares(env, txs, blobTxs), BehindPfbs(env, txs, blobTxs);
    SquareInParts(env, txs, blobTxs);
    TxRange(env, txs, blobTxs);
    PfbRange(env, txs, blobTxs);
    Slices(tx, pfb, rest);
    assert (pfb + rest)[..|pfb|] == pfb;
    PfbUnitsAreUnits(env, maxSquareSize, txs, blobTxs);
    UnitsAreSized(PfbUnits(env, txs, blobTxs));
    ParseSplit(PAY_FOR_BLOB_NAMESPACE, PfbUnits(env, txs, blobTxs));
  }

  /** The sizes that a PFB of the square lists are those of its valid blobs. */
  lemma SquareIsCountable(env: Env, maxSquareSize: nat, decoder: Decoder, txs: seq<Bytes>, blobTxs: seq<BlobTx>)
    requires Admissible(env, maxSquareSize, txs, blobTxs)
    requires forall p :: 0 <= p < |blobTxs| ==> ListsSizes(decoder, blobTxs[p])
    ensures ValidBlobTxs(blobTxs)
    ensures CountablePfbs(env.codec, decoder, ParsedPfbs(SquareShares(env, txs, blobTxs)))
  {
    hide Admissible, SquareShares, ValidBlobTxs, PfbUnits, FinalPfbs, ParsedPfbs, Returns32, ValidBlob;
    AdmissibleBlobs(env, maxSquareSize, txs, blobTxs);
    ParsedPfbsBack(env, maxSquareSize, txs, blobTxs);
    var units := PfbUnits(env, txs, blobTxs);
    forall i, j | 0 <= i < |units| && env.codec.decode(units[i]).Some?
                  && SizesFor(decoder, env.codec.decode(units[i]).value).Ok?
                  && 0 <= j < |SizesFor(decoder, env.codec.decode(units[i]).value).value|
      ensures Returns32(SizesFor(decoder, env.codec.decode(units[i]).value).value[j])
    {
      DecodedPfb(env, maxSquareSize, txs, blobTxs, i);
      FinalPfbAt(env, txs, blobTxs, i, 0);
      ListedSizeReturns(blobTxs, i, j);
    }
  }

  lemma ListedSizeReturns(blobTxs: seq<BlobTx>, p: nat, j: nat)
    requires ValidBlobTxs(blobTxs) && p < |blobTxs| && j < |blobTxs[p].blobs|
    ensures Returns32(|blobTxs[p].blobs[j].data|)
  {
    hide ValidBlob;
    ValidBlobCount(blobTxs[p].blobs[j]);
  }

  /** Running Construct and then Deconstruct on an accepted list gives the list back exactly when every
      transaction is recoverable. */
  method ConstructThenDeconstruct(env: Env, maxSquareSize: nat, decoder: Decoder, txs: seq<Bytes>)
    returns (r: Result<seq<Bytes>>)
    requires Processable(txs) && Lawful(env.codec)
    requires PowersOfTwo.IsPow2(maxSquareSize) && maxSquareSize <= SquareSizeUpperBound(env.appVersion)
    requires Problem(env, maxSquareSize * maxSquareSize, txs) == None
    requires forall i :: 0 <= i < |txs| ==> Submittable(decoder, txs[i])
    ensures r == Ok(Complete(NormalTxs(txs)) + CanonicalTxs(BlobTxs(txs)))
    ensures r == Ok(txs) <==> forall i :: 0 <= i < |txs| ==> Recoverable(txs[i])
  {
    hide Cost, Lawful, NormalTxs, BlobTxs, Problem, ValidBlob, ListsSizes, Deconstructed, SquareShares, Submittable,
         CanonicalTxs, ExportedSquare, Admissible, Sized, Complete, Recoverable, CountablePfbs, ParsedPfbs, ProcessableTx;
    DeconstructUndoesConstruct(env, maxSquareSize, decoder, txs);
    AcceptedIsAdmissible(env, maxSquareSize, decoder, txs);
    ExportSucceeds(env, maxSquareSize, NormalTxs(txs), BlobTxs(txs));
    SquareIsCountable(env, maxSquareSize, decoder, NormalTxs(txs), BlobTxs(txs));
    var square := Construct(env, maxSquareSize, txs);
    match square {
      case Err(e) =>
        r := Err(e);
      case Ok(shares) =>
        r := Deconstruct(env.codec, decoder, shares);
    }
  }
}
