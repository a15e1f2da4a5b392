/** Facts about the elements of a square and the share indexes recorded for them. */
module SquareElements {
  import opened Blobs
  import opened ByteSeqs
  import CompactStream
  import opened Counter
  import Sorting
  import opened SquareLayout

  /** The element describes blob `blobIndex` of blob transaction `pfbIndex`. */
  ghost predicate Describes(e: Element, blobTxs: seq<BlobTx>) {
    && e.pfbIndex < |blobTxs| && e.blobIndex < |blobTxs[e.pfbIndex].blobs|
    && e == NewElement(blobTxs[e.pfbIndex].blobs[e.blobIndex], e.pfbIndex, e.blobIndex)
  }

  lemma {:induction false} ElementsDescribe(blobTxs: seq<BlobTx>, i: nat)
    requires i < |AllElements(blobTxs)|
    ensures Describes(AllElements(blobTxs)[i], blobTxs)
  {
    hide NewElement;
    var init := blobTxs[..|blobTxs| - 1];
    if i < |AllElements(init)| {
      ElementsDescribe(init, i);
    } else {
      var j := i - |AllElements(init)|;
      NewElementIndexes(blobTxs[|init|].blobs[j], |init|, j);
    }
  }

  lemma {:induction false} ElementsCover(blobTxs: seq<BlobTx>, p: nat, j: nat)
    requires p < |blobTxs| && j < |blobTxs[p].blobs|
    ensures NewElement(blobTxs[p].blobs[j], p, j) in AllElements(blobTxs)
  {
    hide NewElement;
    var init, last := blobTxs[..|blobTxs| - 1], blobTxs[|blobTxs| - 1];
    if p < |init| {
      ElementsCover(init, p, j);
    } else {
      assert ElementsOf(last, |init|)[j] == NewElement(last.blobs[j], p, j);
    }
  }

  /** Sorting changes neither property. */
  lemma SortedDescribe(blobTxs: seq<BlobTx>, i: nat)
    requires i < |SortedElements(blobTxs)|
    ensures Describes(SortedElements(blobTxs)[i], blobTxs)
  {
    var all, sorted := AllElements(blobTxs), SortedElements(blobTxs);
    Sorting.StableSortSorts(ElementKey, all);
    assert sorted[i] in multiset(all);
    var k :| 0 <= k < |all| && all[k] == sorted[i];
    ElementsDescribe(blobTxs, k);
  }

  lemma SortedCover(blobTxs: seq<BlobTx>, p: nat, j: nat)
    requires p < |blobTxs| && j < |blobTxs[p].blobs|
    ensures NewElement(blobTxs[p].blobs[j], p, j) in SortedElements(blobTxs)
  {
    ElementsCover(blobTxs, p, j);
    Sorting.StableSortSorts(ElementKey, AllElements(blobTxs));
    assert NewElement(blobTxs[p].blobs[j], p, j) in multiset(SortedElements(blobTxs));
  }

  // ----- the over-estimate -----

  lemma {:induction false} SumOffsetsAppend(a: seq<Element>, b: seq<Element>)
    ensures SumOffsets(a + b) == SumOffsets(a) + SumOffsets(b)
    decreases |b|
  {
    if b == [] {
      assert a + b == a;
    } else {
      var init := b[..|b| - 1];
      SumOffsetsAppend(a, init);
      assert (a + b)[..|a + b| - 1] == a + init;
    }
  }

  lemma AllElementsSnoc(blobTxs: seq<BlobTx>, t: BlobTx)
    ensures AllElements(blobTxs + [t]) == AllElements(blobTxs) + ElementsOf(t, |blobTxs|)
  {
    assert (blobTxs + [t])[..|blobTxs|] == blobTxs;
  }

  lemma WorstLensSnoc(env: Env, blobTxs: seq<BlobTx>, t: BlobTx)
    ensures WorstLens(env, blobTxs + [t]) == WorstLens(env, blobTxs) + [WorstLen(env, t)]
  {
  }

  lemma LengthsSnoc(txs: seq<Bytes>, tx: Bytes)
    ensures Lengths(txs + [tx]) == Lengths(txs) + [|tx|]
  {
  }

  /** Fewer transactions never cost more: every prefix of an accepted list is accepted. */
  lemma CostMonotone(env: Env, txs: seq<Bytes>, moreTxs: seq<Bytes>, blobTxs: seq<BlobTx>, moreBlobTxs: seq<BlobTx>)
    ensures Cost(env, txs, blobTxs) <= Cost(env, txs + moreTxs, blobTxs + moreBlobTxs)
  {
    hide CompactStream.SharesFor, StreamLen;
    assert Lengths(txs + moreTxs) == Lengths(txs) + Lengths(moreTxs);
    StreamLenPrefix(Lengths(txs), Lengths(moreTxs));
    CompactStream.SharesForMonotone(StreamLen(Lengths(txs)), StreamLen(Lengths(txs + moreTxs)));
    assert WorstLens(env, blobTxs + moreBlobTxs) == WorstLens(env, blobTxs) + WorstLens(env, moreBlobTxs);
    StreamLenPrefix(WorstLens(env, blobTxs), WorstLens(env, moreBlobTxs));
    CompactStream.SharesForMonotone(StreamLen(WorstLens(env, blobTxs)), StreamLen(WorstLens(env, blobTxs + moreBlobTxs)));
    OffsetsMonotone(blobTxs, moreBlobTxs);
  }

  lemma {:induction false} OffsetsMonotone(blobTxs: seq<BlobTx>, more: seq<BlobTx>)
    ensures SumOffsets(AllElements(blobTxs)) <= SumOffsets(AllElements(blobTxs + more))
    decreases |more|
  {
    hide ElementsOf;
    if more == [] {
      assert blobTxs + more == blobTxs;
    } else {
      var init, last := more[..|more| - 1], more[|more| - 1];
      OffsetsMonotone(blobTxs, init);
      assert blobTxs + more == (blobTxs + init) + [last];
      AllElementsSnoc(blobTxs + init, last);
      SumOffsetsAppend(AllElements(blobTxs + init), ElementsOf(last, |blobTxs + init|));
    }
  }

  // ----- recording share indexes -----

  /** The wrapped PFBs belong to the blob transactions, with whatever share indexes. */
  ghost predicate SameShape(pfbs: seq<IndexWrapper>, blobTxs: seq<BlobTx>) {
    && |pfbs| == |blobTxs|
    && forall p :: 0 <= p < |pfbs| ==>
         pfbs[p].tx == blobTxs[p].tx && |pfbs[p].shareIndexes| == |blobTxs[p].blobs|
  }

  lemma SameCount(pfbs: seq<IndexWrapper>, blobTxs: seq<BlobTx>)
    requires SameShape(pfbs, blobTxs)
    ensures |pfbs| == |blobTxs|
  {
  }

  lemma SameShapeSnoc(env: Env, pfbs: seq<IndexWrapper>, blobTxs: seq<BlobTx>, t: BlobTx)
    requires SameShape(pfbs, blobTxs)
    ensures SameShape(pfbs + [WorstWrapper(env, t)], blobTxs + [t])
  {
  }

  /** Appending to elements of which some may already be sorted leads to the same order. */
  lemma SortedSnoc(elements: seq<Element>, blobTxs: seq<BlobTx>, t: BlobTx)
    requires Sorting.StableSort(ElementKey, elements) == SortedElements(blobTxs)
    ensures Sorting.StableSort(ElementKey, elements + ElementsOf(t, |blobTxs|)) == SortedElements(blobTxs + [t])
  {
    hide Sorting.StableSort, ElementsOf, AllElements;
    AllElementsSnoc(blobTxs, t);
    Sorting.SortPrefixFirst(ElementKey, elements, ElementsOf(t, |blobTxs|));
    Sorting.SortPrefixFirst(ElementKey, AllElements(blobTxs), ElementsOf(t, |blobTxs|));
  }

  ghost predicate Covered(elements: seq<Element>, p: nat, j: nat) {
    exists i :: 0 <= i < |elements| && elements[i].pfbIndex == p && elements[i].blobIndex == j
  }

  /** Every blob that an element describes has its index recorded. */
  ghost predicate Recorded(pfbs: seq<IndexWrapper>, elements: seq<Element>, indexes: seq<nat>)
    requires |indexes| == |elements|
  {
    forall p, j :: 0 <= p < |pfbs| && 0 <= j < |pfbs[p].shareIndexes| && Covered(elements, p, j) ==>
      pfbs[p].shareIndexes[j] == IndexFor(elements, indexes, p, j)
  }

  function Record(pfbs: seq<IndexWrapper>, e: Element, index: nat): (r: seq<IndexWrapper>)
    requires e.pfbIndex < |pfbs| && e.blobIndex < |pfbs[e.pfbIndex].shareIndexes|
    ensures |r| == |pfbs|
  {
    var w := pfbs[e.pfbIndex];
    pfbs[e.pfbIndex := w.(shareIndexes := w.shareIndexes[e.blobIndex := index % U32_LIMIT])]
  }

  lemma RecordStep(
    pfbs: seq<IndexWrapper>, blobTxs: seq<BlobTx>, elements: seq<Element>, indexes: seq<nat>, e: Element, index: nat)
    requires SameShape(pfbs, blobTxs) && |indexes| == |elements| && Recorded(pfbs, elements, indexes)
    requires e.pfbIndex < |pfbs| && e.blobIndex < |pfbs[e.pfbIndex].shareIndexes|
    ensures SameShape(Record(pfbs, e, index), blobTxs)
    ensures Recorded(Record(pfbs, e, index), elements + [e], indexes + [index])
  {
    var after := Record(pfbs, e, index);
    forall p, j | 0 <= p < |after| && 0 <= j < |after[p].shareIndexes| && Covered(elements + [e], p, j)
      ensures after[p].shareIndexes[j] == IndexFor(elements + [e], indexes + [index], p, j)
    {
      assert (elements + [e])[..|elements|] == elements && (indexes + [index])[..|elements|] == indexes;
      if !(e.pfbIndex == p && e.blobIndex == j) {
        var i :| 0 <= i < |elements + [e]| && (elements + [e])[i].pfbIndex == p && (elements + [e])[i].blobIndex == j;
        assert elements[i].pfbIndex == p;
        assert Covered(elements, p, j);
      }
    }
  }

  /** Once all elements are recorded the PFBs are determined, whatever they held before. */
  lemma AllRecorded(pfbs: seq<IndexWrapper>, blobTxs: seq<BlobTx>, indexes: seq<nat>)
    requires SameShape(pfbs, blobTxs) && |indexes| == |SortedElements(blobTxs)|
    requires Recorded(pfbs, SortedElements(blobTxs), indexes)
    ensures pfbs == WrappedPfbs(blobTxs, SortedElements(blobTxs), indexes)
  {
    hide SortedElements, IndexFor, NewElement;
    var elements := SortedElements(blobTxs);
    var want := WrappedPfbs(blobTxs, elements, indexes);
    forall p | 0 <= p < |blobTxs| ensures pfbs[p] == want[p] {
      forall j | 0 <= j < |blobTxs[p].blobs|
        ensures pfbs[p].shareIndexes[j] == want[p].shareIndexes[j]
      {
        SortedCover(blobTxs, p, j);
        NewElementIndexes(blobTxs[p].blobs[j], p, j);
        assert Covered(elements, p, j);
      }
    }
  }

  lemma NewElementIndexes(blob: Blob, p: nat, j: nat)
    ensures NewElement(blob, p, j).pfbIndex == p && NewElement(blob, p, j).blobIndex == j
  {
  }
}
