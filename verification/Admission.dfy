/** Which transactions a proposer admits (Build in pkg/square/square.go). */
module Admission {
  import opened Blobs
  import opened BlobUnmarshal
  import opened ByteSeqs
  import opened CompactStream
  import opened Counter
  import PowersOfTwo
  import opened Results
  import opened Square
  import opened SquareAgreement
  import opened SquareElements
  import opened SquareLayout

  /** The estimate with one more transaction. */
  function CostWith(env: Env, normal: seq<Bytes>, blobTxs: seq<BlobTx>, tx: Bytes): (n: nat)
    requires ProcessableTx(tx)
  {
    if IsBlobTx(tx) then Cost(env, normal, blobTxs + [AsBlobTx(tx).value]) else Cost(env, normal + [tx], blobTxs)
  }

  // ----- more admitted transactions never make room -----

  /** The position of a blob transaction in the list makes no difference to the room for its blobs. */
  lemma {:induction false} OffsetsOfTx(t: BlobTx, p: nat, q: nat, n: nat)
    requires n <= |t.blobs|
    ensures SumOffsets(ElementsOf(t, p)[..n]) == SumOffsets(ElementsOf(t, q)[..n])
  {
    if n > 0 {
      OffsetsOfTx(t, p, q, n - 1);
      assert ElementsOf(t, p)[..n][..n - 1] == ElementsOf(t, p)[..n - 1];
      assert ElementsOf(t, q)[..n][..n - 1] == ElementsOf(t, q)[..n - 1];
    }
  }

  lemma CostOfBlobTx(env: Env, txs: seq<Bytes>, blobTxs: seq<BlobTx>, t: BlobTx)
    ensures Cost(env, txs, blobTxs + [t])
         == TxShareCount(txs)
            + SharesFor(StreamLen(WorstLens(env, blobTxs)) + WorstLen(env, t) + Varint.DelimLen(WorstLen(env, t)))
            + SumOffsets(AllElements(blobTxs)) + SumOffsets(ElementsOf(t, 0))
  {
    hide SharesFor, StreamLen, NewElement, SumOffsets, AllElements, ElementsOf, WorstLens;
    WorstLensSnoc(env, blobTxs, t);
    StreamLenSnoc(WorstLens(env, blobTxs), WorstLen(env, t));
    AllElementsSnoc(blobTxs, t);
    SumOffsetsAppend(AllElements(blobTxs), ElementsOf(t, |blobTxs|));
    OffsetsOfTx(t, |blobTxs|, 0, |t.blobs|);
    assert ElementsOf(t, 0)[..|t.blobs|] == ElementsOf(t, 0) && ElementsOf(t, |blobTxs|)[..|t.blobs|] == ElementsOf(t, |blobTxs|);
  }

  lemma CostOfTx(env: Env, txs: seq<Bytes>, blobTxs: seq<BlobTx>, tx: Bytes)
    ensures Cost(env, txs + [tx], blobTxs)
         == SharesFor(StreamLen(Lengths(txs)) + |tx| + Varint.DelimLen(|tx|)) + PfbShareCount(env, blobTxs)
            + SumOffsets(AllElements(blobTxs))
  {
    hide SharesFor, StreamLen, SumOffsets, AllElements;
    LengthsSnoc(txs, tx);
    StreamLenSnoc(Lengths(txs), |tx|);
  }

  /** A transaction that costs too much still does behind more transactions. */
  lemma CostWithMonotone(
    env: Env, normal: seq<Bytes>, moreNormal: seq<Bytes>, blobTxs: seq<BlobTx>, moreBlobTxs: seq<BlobTx>, tx: Bytes)
    requires ProcessableTx(tx)
    ensures CostWith(env, normal, blobTxs, tx) <= CostWith(env, normal + moreNormal, blobTxs + moreBlobTxs, tx)
  {
    hide SharesFor, StreamLen, SumOffsets, AllElements, WorstLens, AsBlobTx, Cost, ElementsOf;
    assert Lengths(normal + moreNormal) == Lengths(normal) + Lengths(moreNormal);
    StreamLenPrefix(Lengths(normal), Lengths(moreNormal));
    WorstLensAppend(env, blobTxs, moreBlobTxs);
    StreamLenPrefix(WorstLens(env, blobTxs), WorstLens(env, moreBlobTxs));
    OffsetsMonotone(blobTxs, moreBlobTxs);
    SharesForMonotone(StreamLen(Lengths(normal)), StreamLen(Lengths(normal + moreNormal)));
    SharesForMonotone(StreamLen(WorstLens(env, blobTxs)), StreamLen(WorstLens(env, blobTxs + moreBlobTxs)));
    if IsBlobTx(tx) {
      var t := AsBlobTx(tx).value;
      CostOfBlobTx(env, normal, blobTxs, t);
      CostOfBlobTx(env, normal + moreNormal, blobTxs + moreBlobTxs, t);
      var n := WorstLen(env, t) + Varint.DelimLen(WorstLen(env, t));
      SharesForMonotone(StreamLen(WorstLens(env, blobTxs)) + n, StreamLen(WorstLens(env, blobTxs + moreBlobTxs)) + n);
    } else {
      CostOfTx(env, normal, blobTxs, tx);
      CostOfTx(env, normal + moreNormal, blobTxs + moreBlobTxs, tx);
      var n := |tx| + Varint.DelimLen(|tx|);
      SharesForMonotone(StreamLen(Lengths(normal)) + n, StreamLen(Lengths(normal + moreNormal)) + n);
    }
  }

  lemma WorstLensAppend(env: Env, a: seq<BlobTx>, b: seq<BlobTx>)
    ensures WorstLens(env, a + b) == WorstLens(env, a) + WorstLens(env, b)
  {
    hide WorstLen;
  }

  // ----- what the proposer leaves out -----

  /** One step of the proposer. */
  lemma StepOfProposer(env: Env, capacity: nat, normal: seq<Bytes>, blob: seq<Bytes>, tx: Bytes)
    requires Processable(normal) && Processable(blob) && ProcessableTx(tx)
    ensures CostWith(env, normal, BlobTxs(blob), tx) > capacity ==>
              AdmittedNext(env, capacity, normal, blob, tx) == (normal, blob)
    ensures CostWith(env, normal, BlobTxs(blob), tx) <= capacity && IsBlobTx(tx) ==>
              && AdmittedNext(env, capacity, normal, blob, tx) == (normal, blob + [tx]) && Processable(blob + [tx])
              && BlobTxs(blob + [tx]) == BlobTxs(blob) + [AsBlobTx(tx).value]
    ensures CostWith(env, normal, BlobTxs(blob), tx) <= capacity && !IsBlobTx(tx) ==>
              AdmittedNext(env, capacity, normal, blob, tx) == (normal + [tx], blob)
  {
    hide Cost, AsBlobTx, BlobTxs;
    BlobTxsSnoc(blob, tx);
  }

  /** Whatever occurs more often in the list than among what is admitted does not fit on top of that. */
  ghost predicate LeftOutDoesNotFit(
    env: Env, capacity: nat, txs: seq<Bytes>, normal: seq<Bytes>, blob: seq<Bytes>)
    requires Processable(blob)
  {
    forall tx: Bytes :: multiset(normal + blob)[tx] < multiset(txs)[tx] ==>
      ProcessableTx(tx) && CostWith(env, normal, BlobTxs(blob), tx) > capacity
  }

  lemma {:induction false} NothingElseFits(env: Env, capacity: nat, txs: seq<Bytes>)
    requires Processable(txs)
    ensures var (normal, blob) := Admitted(env, capacity, txs);
            LeftOutDoesNotFit(env, capacity, txs, normal, blob)
    decreases |txs|
  {
    hide Cost, AsBlobTx, BlobTxs, CostWith, AdmittedNext, ProcessableTx, IsBlobTx;
    if txs != [] {
      var k := |txs| - 1;
      NothingElseFits(env, capacity, txs[..k]);
      AdmittedFromList(env, capacity, txs[..k]);
      var (normal, blob) := Admitted(env, capacity, txs[..k]);
      LeaveOutOne(env, capacity, txs[..k], normal, blob, txs[k]);
      assert txs == txs[..k] + [txs[k]];
    }
  }

  lemma LeaveOutOne(
    env: Env, capacity: nat, txs: seq<Bytes>, normal: seq<Bytes>, blob: seq<Bytes>, last: Bytes)
    requires Processable(normal) && Processable(blob) && ProcessableTx(last)
    requires LeftOutDoesNotFit(env, capacity, txs, normal, blob) && multiset(normal + blob) <= multiset(txs)
    ensures var (n, b) := AdmittedNext(env, capacity, normal, blob, last);
            Processable(b) && LeftOutDoesNotFit(env, capacity, txs + [last], n, b)
  {
    hide Cost, AsBlobTx, BlobTxs, CostWith, AdmittedNext, LeftOutDoesNotFit, IsBlobTx;
    StepOfProposer(env, capacity, normal, blob, last);
    if CostWith(env, normal, BlobTxs(blob), last) > capacity {
      LastDoesNotFit(env, capacity, txs, normal, blob, last);
    } else if IsBlobTx(last) {
      LastIsBlobTx(env, capacity, txs, normal, blob, last);
    } else {
      LastIsNormal(env, capacity, txs, normal, blob, last);
    }
  }

  lemma LastDoesNotFit(
    env: Env, capacity: nat, txs: seq<Bytes>, normal: seq<Bytes>, blob: seq<Bytes>, last: Bytes)
    requires Processable(blob) && ProcessableTx(last) && CostWith(env, normal, BlobTxs(blob), last) > capacity
    requires LeftOutDoesNotFit(env, capacity, txs, normal, blob)
    ensures LeftOutDoesNotFit(env, capacity, txs + [last], normal, blob)
  {
    hide Cost, AsBlobTx, BlobTxs, CostWith, Processable;
    forall tx: Bytes | multiset(normal + blob)[tx] < multiset(txs + [last])[tx]
      ensures ProcessableTx(tx) && CostWith(env, normal, BlobTxs(blob), tx) > capacity
    {
      CountSnoc(txs, last, tx);
    }
  }

  lemma LastIsBlobTx(
    env: Env, capacity: nat, txs: seq<Bytes>, normal: seq<Bytes>, blob: seq<Bytes>, last: Bytes)
    requires Processable(blob) && Processable(blob + [last]) && ProcessableTx(last) && IsBlobTx(last)
    requires BlobTxs(blob + [last]) == BlobTxs(blob) + [AsBlobTx(last).value]
    requires LeftOutDoesNotFit(env, capacity, txs, normal, blob)
    ensures LeftOutDoesNotFit(env, capacity, txs + [last], normal, blob + [last])
  {
    hide Cost, AsBlobTx, BlobTxs, CostWith, Processable;
    forall tx: Bytes | multiset(normal + (blob + [last]))[tx] < multiset(txs + [last])[tx]
      ensures ProcessableTx(tx) && CostWith(env, normal, BlobTxs(blob + [last]), tx) > capacity
    {
      CountSnoc(txs, last, tx);
      CountSnoc(normal + blob, last, tx);
      assert normal + (blob + [last]) == (normal + blob) + [last];
      CostWithMonotone(env, normal, [], BlobTxs(blob), [AsBlobTx(last).value], tx);
      assert normal + [] == normal;
    }
  }

  lemma LastIsNormal(
    env: Env, capacity: nat, txs: seq<Bytes>, normal: seq<Bytes>, blob: seq<Bytes>, last: Bytes)
    requires Processable(blob) && LeftOutDoesNotFit(env, capacity, txs, normal, blob)
    ensures LeftOutDoesNotFit(env, capacity, txs + [last], normal + [last], blob)
  {
    hide Cost, AsBlobTx, BlobTxs, CostWith, Processable;
    forall tx: Bytes | multiset(normal + [last] + blob)[tx] < multiset(txs + [last])[tx]
      ensures ProcessableTx(tx) && CostWith(env, normal + [last], BlobTxs(blob), tx) > capacity
    {
      CountSnoc(txs, last, tx);
      CountSnoc(normal, last, tx);
      assert multiset(normal + [last] + blob) == multiset(normal + [last]) + multiset(blob);
      assert multiset(normal + blob) == multiset(normal) + multiset(blob);
      CostWithMonotone(env, normal, [last], BlobTxs(blob), [], tx);
      assert BlobTxs(blob) + [] == BlobTxs(blob);
    }
  }

  lemma CountSnoc(s: seq<Bytes>, last: Bytes, tx: Bytes)
    ensures multiset(s + [last])[tx] == multiset(s)[tx] + if tx == last then 1 else 0
  {
  }

  // ----- when everything fits -----

  /** The blob transactions of a list as they were sent, in order. */
  function RawBlobTxs(txs: seq<Bytes>): (r: seq<Bytes>)
    requires Processable(txs)
    ensures Processable(r)
  {
    if txs == [] then []
    else
      var init, last := txs[..|txs| - 1], txs[|txs| - 1];
      if IsBlobTx(last) then RawBlobTxs(init) + [last] else RawBlobTxs(init)
  }

  lemma {:induction false} RawDecodes(txs: seq<Bytes>)
    requires Processable(txs)
    ensures BlobTxs(RawBlobTxs(txs)) == BlobTxs(txs)
  {
    hide AsBlobTx;
    if txs != [] {
      var init, last := txs[..|txs| - 1], txs[|txs| - 1];
      RawDecodes(init);
      BlobTxsSnoc(RawBlobTxs(init), last);
    }
  }

  lemma PrefixCostsLess(env: Env, txs: seq<Bytes>)
    requires Processable(txs) && txs != []
    ensures var init := txs[..|txs| - 1];
            Cost(env, NormalTxs(init), BlobTxs(init)) <= Cost(env, NormalTxs(txs), BlobTxs(txs))
  {
    hide Cost, AsBlobTx;
    var init, last := txs[..|txs| - 1], txs[|txs| - 1];
    if IsBlobTx(last) {
      CostMonotone(env, NormalTxs(init), [], BlobTxs(init), [AsBlobTx(last).value]);
      assert NormalTxs(init) + [] == NormalTxs(init);
    } else {
      CostMonotone(env, NormalTxs(init), [last], BlobTxs(init), []);
      assert BlobTxs(init) + [] == BlobTxs(init);
    }
  }

  /** A list that fits as a whole is admitted as a whole, in its order. */
  lemma {:induction false} AllAdmitted(env: Env, capacity: nat, txs: seq<Bytes>)
    requires Processable(txs) && Cost(env, NormalTxs(txs), BlobTxs(txs)) <= capacity
    ensures Admitted(env, capacity, txs) == (NormalTxs(txs), RawBlobTxs(txs))
    decreases |txs|
  {
    hide Cost, AsBlobTx;
    if txs != [] {
      var init, last := txs[..|txs| - 1], txs[|txs| - 1];
      PrefixCostsLess(env, txs);
      AllAdmitted(env, capacity, init);
      RawDecodes(init);
    }
  }

  /** Build admits greedily: nothing that is left out fits on top of what is admitted, and a list that fits
      comes back complete, its normal and its blob transactions each in the order of the list. */
  method BuildAdmitsWhatFits(env: Env, maxSquareSize: nat, txs: seq<Bytes>)
    returns (r: Result<seq<Bytes>>, ordered: seq<Bytes>)
    requires Processable(txs) && PowersOfTwo.IsPow2(maxSquareSize)
    ensures Processable(ordered)
    ensures forall tx: Bytes :: multiset(ordered)[tx] < multiset(txs)[tx] ==>
              ProcessableTx(tx)
              && CostWith(env, NormalTxs(ordered), BlobTxs(ordered), tx) > maxSquareSize * maxSquareSize
    ensures Cost(env, NormalTxs(txs), BlobTxs(txs)) <= maxSquareSize * maxSquareSize ==>
              ordered == NormalTxs(txs) + RawBlobTxs(txs)
    ensures r == ExportedSquare(env, NormalTxs(ordered), BlobTxs(ordered))
  {
    hide Cost, CostWith, NormalTxs, BlobTxs, RawBlobTxs, ExportedSquare, Admitted, ProcessableTx;
    r, ordered := Build(env, maxSquareSize, txs);
    var capacity := maxSquareSize * maxSquareSize;
    ProposerAndValidatorAgree(env, maxSquareSize, txs);
    AdmittedFits(env, capacity, txs);
    OrderedSplits(Admitted(env, capacity, txs).0, Admitted(env, capacity, txs).1);
    NothingElseFits(env, capacity, txs);
    if Cost(env, NormalTxs(txs), BlobTxs(txs)) <= capacity {
      AllAdmitted(env, capacity, txs);
    }
  }
}
