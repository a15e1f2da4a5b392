/** What the builder's estimate is: the most room that the admitted transactions can take up, whatever
    stands in front of each blob (maxShareOffset, newElement and worstCaseShareIndexes in
    pkg/square/builder.go). */
module Estimate {
  import opened Blobs
  import opened ByteSeqs
  import opened CommitmentRules
  import CompactSplitter
  import opened CompactStream
  import opened Counter
  import opened Namespaces
  import PowersOfTwo
  import SquareElements
  import opened SquareLayout

  /** From `cursor` to the end of a blob that is placed from there on: its padding and its shares. */
  function RoomFrom(b: Blob, cursor: nat): (n: nat)
  {
    var numShares := SharesNeeded32(|b.data|);
    NextShareIndex(cursor, numShares, SUBTREE_ROOT_THRESHOLD) + numShares - cursor
  }

  /** The offset of a blob's element is the most room that the blob takes up from any cursor. */
  lemma OffsetIsMostRoom(b: Blob, p: nat, j: nat)
    ensures forall cursor: nat :: RoomFrom(b, cursor) <= MaxShareOffset(NewElement(b, p, j))
    ensures exists cursor: nat :: RoomFrom(b, cursor) == MaxShareOffset(NewElement(b, p, j))
  {
    hide SubTreeWidth, SharesNeeded32;
    var numShares := SharesNeeded32(|b.data|);
    var w := SubTreeWidth(numShares, SUBTREE_ROOT_THRESHOLD);
    NextFromOne(numShares);
    assert RoomFrom(b, 1) == MaxShareOffset(NewElement(b, p, j));
  }

  /** From share 1 on a blob needs all of its padding. */
  lemma NextFromOne(n: nat)
    ensures NextShareIndex(1, n, SUBTREE_ROOT_THRESHOLD) == SubTreeWidth(n, SUBTREE_ROOT_THRESHOLD)
  {
    hide SubTreeWidth;
    var w := SubTreeWidth(n, SUBTREE_ROOT_THRESHOLD);
    if w > 1 {
      PowersOfTwo.DivModUnique(1, 0, 1, w);
    }
  }

  // ----- all blobs -----

  /** The room that the elements' blobs take up when each is placed from a cursor of its own. */
  function TotalRoom(elements: seq<Element>, cursors: seq<nat>): (n: nat)
    requires |cursors| == |elements|
  {
    if elements == [] then 0
    else
      var k := |elements| - 1;
      TotalRoom(elements[..k], cursors[..k]) + RoomFrom(elements[k].blob, cursors[k])
  }

  ghost predicate Made(elements: seq<Element>) {
    forall i :: 0 <= i < |elements| ==>
      elements[i] == NewElement(elements[i].blob, elements[i].pfbIndex, elements[i].blobIndex)
  }

  lemma {:induction false} OffsetsBoundRoom(elements: seq<Element>, cursors: seq<nat>)
    requires Made(elements) && |cursors| == |elements|
    ensures TotalRoom(elements, cursors) <= SumOffsets(elements)
  {
    hide NewElement, RoomFrom, MaxShareOffset;
    if elements != [] {
      var k := |elements| - 1;
      OffsetsBoundRoom(elements[..k], cursors[..k]);
      OffsetIsMostRoom(elements[k].blob, elements[k].pfbIndex, elements[k].blobIndex);
    }
  }

  lemma {:induction false} OffsetsReached(elements: seq<Element>) returns (cursors: seq<nat>)
    requires Made(elements)
    ensures |cursors| == |elements| && TotalRoom(elements, cursors) == SumOffsets(elements)
  {
    hide NewElement, RoomFrom, MaxShareOffset;
    if elements == [] {
      cursors := [];
    } else {
      var k := |elements| - 1;
      var before := OffsetsReached(elements[..k]);
      var e := elements[k];
      OffsetIsMostRoom(e.blob, e.pfbIndex, e.blobIndex);
      var cursor: nat :| RoomFrom(e.blob, cursor) == MaxShareOffset(NewElement(e.blob, e.pfbIndex, e.blobIndex));
      cursors := before + [cursor];
      assert cursors[..k] == before;
    }
  }

  lemma AllElementsMade(blobTxs: seq<BlobTx>)
    ensures Made(AllElements(blobTxs))
  {
    hide NewElement;
    forall i | 0 <= i < |AllElements(blobTxs)|
      ensures var e := AllElements(blobTxs)[i]; e == NewElement(e.blob, e.pfbIndex, e.blobIndex)
    {
      SquareElements.ElementsDescribe(blobTxs, i);
      var e := AllElements(blobTxs)[i];
      MadeAgain(blobTxs[e.pfbIndex].blobs[e.blobIndex], e.pfbIndex, e.blobIndex);
    }
  }

  lemma MadeAgain(b: Blob, p: nat, j: nat)
    ensures NewElement(b, p, j).blob == b && NewElement(b, p, j).pfbIndex == p && NewElement(b, p, j).blobIndex == j
  {
  }

  // ----- compact shares -----

  /** The PFBs as they are counted, with the worst share indexes. */
  function WorstUnits(env: Env, blobTxs: seq<BlobTx>): (r: seq<Bytes>)
    ensures |r| == |blobTxs|
  {
    seq(|blobTxs|, i requires 0 <= i < |blobTxs| => env.codec.encode(WorstWrapper(env, blobTxs[i])))
  }

  /** The shares that writing the transactions and the worst PFBs really takes. */
  function CompactRoom(env: Env, txs: seq<Bytes>, blobTxs: seq<BlobTx>): (n: nat)
  {
    |CompactSplitter.CompactShares(TX_NAMESPACE, txs)|
    + |CompactSplitter.CompactShares(PAY_FOR_BLOB_NAMESPACE, WorstUnits(env, blobTxs))|
  }

  lemma CountedIsWritten(env: Env, txs: seq<Bytes>, blobTxs: seq<BlobTx>)
    ensures SparseStart(env, txs, blobTxs) == CompactRoom(env, txs, blobTxs)
  {
    hide SharesFor, StreamLen, Stream;
    StreamLenOfUnits(txs);
    StreamLenOfUnits(WorstUnits(env, blobTxs));
    assert Lengths(WorstUnits(env, blobTxs)) == WorstLens(env, blobTxs);
  }

  /** The worst share index is the first number that is not the index of a share in any square. */
  lemma WorstIndexIsFirstOutside(blobs: nat, appVersion: nat, i: nat, index: nat)
    requires i < blobs
    ensures index < WorstCaseShareIndexes(blobs, appVersion)[i]
       <==> exists side: nat :: side <= SquareSizeUpperBound(appVersion) && index < side * side
  {
    var limit := SquareSizeUpperBound(appVersion);
    if index < limit * limit {
      assert limit <= limit && index < limit * limit;
    }
    forall side: nat | side <= limit && index < side * side ensures index < limit * limit {
      PowersOfTwo.SquareMonotone(side, limit);
    }
  }

  // ----- the estimate -----

  /** Some cursors make the blobs take up more room than the capacity leaves. */
  ghost predicate CanOverflow(env: Env, capacity: nat, txs: seq<Bytes>, blobTxs: seq<BlobTx>) {
    exists cursors: seq<nat> ::
      |cursors| == |AllElements(blobTxs)| && CompactRoom(env, txs, blobTxs) + TotalRoom(AllElements(blobTxs), cursors) > capacity
  }

  /** The builder rejects transactions only when there are cursors from which their blobs would not fit
      behind the compact shares: its estimate is the most room that they can take up. */
  lemma RejectedOnlyIfTooLarge(env: Env, capacity: nat, txs: seq<Bytes>, blobTxs: seq<BlobTx>)
    ensures Cost(env, txs, blobTxs) > capacity <==> CanOverflow(env, capacity, txs, blobTxs)
  {
    hide TotalRoom, SumOffsets, AllElements, CompactRoom, SharesFor, StreamLen, Made;
    CountedIsWritten(env, txs, blobTxs);
    AllElementsMade(blobTxs);
    var elements := AllElements(blobTxs);
    if Cost(env, txs, blobTxs) > capacity {
      var cursors := OffsetsReached(elements);
      assert CompactRoom(env, txs, blobTxs) + TotalRoom(elements, cursors) > capacity;
    }
    forall cursors: seq<nat> | |cursors| == |elements|
      ensures TotalRoom(elements, cursors) <= SumOffsets(elements)
    {
      OffsetsBoundRoom(elements, cursors);
    }
  }

  /** In particular a single blob is rejected only when some start leaves no room for it. */
  lemma SingleBlobRejected(env: Env, capacity: nat, txs: seq<Bytes>, t: BlobTx)
    requires |t.blobs| == 1
    ensures Cost(env, txs, [t]) > capacity
       <==> exists cursor: nat :: CompactRoom(env, txs, [t]) + RoomFrom(t.blobs[0], cursor) > capacity
  {
    hide CompactRoom, RoomFrom, NewElement, SharesFor, StreamLen, MaxShareOffset;
    CountedIsWritten(env, txs, [t]);
    OffsetIsMostRoom(t.blobs[0], 0, 0);
    SingleElement(t);
  }

  lemma SingleElement(t: BlobTx)
    requires |t.blobs| == 1
    ensures SumOffsets(AllElements([t])) == MaxShareOffset(NewElement(t.blobs[0], 0, 0))
  {
    hide NewElement, MaxShareOffset;
    assert [t][..0] == [] && AllElements([]) == [];
    assert AllElements([t]) == [NewElement(t.blobs[0], 0, 0)];
  }
}
