/** The part of a square that holds the blobs, in closed form (the blob loop of Export in
    pkg/square/builder.go). */
module BlobArea {
  import opened Blobs
  import opened ByteSeqs
  import opened CommitmentRules
  import opened Namespaces
  import opened Results
  import opened ShareFormat
  import opened SparseParser
  import opened SparseSplitter
  import opened SquareLayout

  /** Elements made of valid blobs. */
  ghost predicate Placeable(elements: seq<Element>) {
    forall i :: 0 <= i < |elements| ==> ValidElement(elements[i])
  }

  ghost predicate ValidElement(e: Element) {
    ValidBlob(e.blob) && e == NewElement(e.blob, e.pfbIndex, e.blobIndex)
  }

  lemma ValidElementFacts(e: Element)
    requires ValidElement(e)
    ensures |e.blob.namespaceId| == NAMESPACE_ID_SIZE && e.blob.shareVersion == 0
    ensures |e.blob.data| < U32_LIMIT
    ensures e.blob.Validate() == Ok(())
    ensures IsUserNamespace(ElementKey(e)) && |ElementKey(e)| == NAMESPACE_SIZE && Supported(ElementKey(e))
    ensures |BlobShares(e.blob)| == e.numShares >= 1
    ensures e.maxPadding == SubTreeWidth(e.numShares, SUBTREE_ROOT_THRESHOLD) - 1
  {
    hide SubTreeWidth, SparseCount, SharesNeeded32, Supported, Less;
    ValidBlobCount(e.blob);
    BlobSharesCount(e.blob);
  }

  function AlignedStart(end: nat, e: Element): (r: nat)
    ensures r >= end
  {
    NextShareIndex(end, e.numShares, SUBTREE_ROOT_THRESHOLD)
  }

  /** The shares from `end` on, behind a blob of namespace `ns`: padding in the namespace of the
      blob in front of it, then the next blob. */
  ghost function Laid(ns: Bytes, end: nat, elements: seq<Element>): (r: seq<Share>)
    requires |ns| == NAMESPACE_SIZE && Placeable(elements)
    decreases |elements|
  {
    if elements == [] then []
    else
      var e, start := elements[0], AlignedStart(end, elements[0]);
      ValidElementFacts(e);
      PaddingShares(ns, 0, start - end) + (BlobShares(e.blob) + Laid(ElementKey(e), start + e.numShares, elements[1..]))
  }

  /** All blob shares when the compact shares end at `end`; the first blob has no padding of its own. */
  ghost function Area(end: nat, elements: seq<Element>): (r: seq<Share>)
    requires Placeable(elements)
  {
    if elements == [] then []
    else
      var e := elements[0];
      ValidElementFacts(e);
      BlobShares(e.blob) + Laid(ElementKey(e), AlignedStart(end, e) + e.numShares, elements[1..])
  }

  lemma {:induction false} LaidLength(ns: Bytes, end: nat, elements: seq<Element>)
    requires |ns| == NAMESPACE_SIZE && Placeable(elements)
    ensures |Laid(ns, end, elements)| == BlobsEnd(end, SUBTREE_ROOT_THRESHOLD, NumShares(elements)) - end
    decreases |elements|
  {
    hide ValidElement, BlobShares, PaddingShares, Laid, BlobsEnd, NextShareIndex;
    if elements == [] {
      LoopEnds([], ns, end);
      EndStep(end, elements);
    } else {
      var e, start := elements[0], AlignedStart(end, elements[0]);
      ValidElementFacts(e);
      LaidStep(ns, end, elements);
      EndStep(end, elements);
      LaidLength(ElementKey(e), start + e.numShares, elements[1..]);
    }
  }

  lemma EndStep(end: nat, elements: seq<Element>)
    ensures elements == [] ==> BlobsEnd(end, SUBTREE_ROOT_THRESHOLD, NumShares(elements)) == end
    ensures elements != [] ==>
              BlobsEnd(end, SUBTREE_ROOT_THRESHOLD, NumShares(elements))
              == BlobsEnd(AlignedStart(end, elements[0]) + elements[0].numShares, SUBTREE_ROOT_THRESHOLD,
                          NumShares(elements[1..]))
  {
    hide NextShareIndex;
    if elements != [] {
      assert NumShares(elements)[1..] == NumShares(elements[1..]);
    }
  }

  lemma LaidStep(ns: Bytes, end: nat, elements: seq<Element>)
    requires |ns| == NAMESPACE_SIZE && Placeable(elements) && elements != []
    ensures var e, start := elements[0], AlignedStart(end, elements[0]);
            && |e.blob.namespaceId| == NAMESPACE_ID_SIZE && e.blob.shareVersion == 0
            && Laid(ns, end, elements)
               == PaddingShares(ns, 0, start - end)
                  + (BlobShares(e.blob) + Laid(ElementKey(e), start + e.numShares, elements[1..]))
  {
    hide ValidElement, BlobShares, PaddingShare, NextShareIndex;
    ValidElementFacts(elements[0]);
  }

  lemma IndexStep(end: nat, elements: seq<Element>, i: nat)
    requires i < |elements|
    ensures var start := AlignedStart(end, elements[0]);
            && (i == 0 ==> StartIndexes(end, elements)[i] == start)
            && (i > 0 ==> StartIndexes(end, elements)[i]
                          == StartIndexes(start + elements[0].numShares, elements[1..])[i - 1])
  {
    hide NextShareIndex;
    assert NumShares(elements)[1..] == NumShares(elements[1..]);
  }

  /** Every blob is found at its index. */
  lemma {:induction false} LaidAt(ns: Bytes, end: nat, elements: seq<Element>, i: nat)
    requires |ns| == NAMESPACE_SIZE && Placeable(elements) && i < |elements|
    ensures |elements[i].blob.namespaceId| == NAMESPACE_ID_SIZE && elements[i].blob.shareVersion == 0
    ensures var at := StartIndexes(end, elements)[i] - end;
            && 0 <= at && at + elements[i].numShares <= |Laid(ns, end, elements)|
            && Laid(ns, end, elements)[at..at + elements[i].numShares] == BlobShares(elements[i].blob)
    decreases |elements|
  {
    hide ValidElement, BlobShares, PaddingShares, AlignedStart, Laid, StartIndexes;
    var e, start := elements[0], AlignedStart(end, elements[0]);
    ValidElementFacts(e);
    LaidStep(ns, end, elements);
    IndexStep(end, elements, i);
    var padding, rest := PaddingShares(ns, 0, start - end), Laid(ElementKey(e), start + e.numShares, elements[1..]);
    if i == 0 {
      SliceMiddle(padding, BlobShares(e.blob), rest);
    } else {
      LaidAt(ElementKey(e), start + e.numShares, elements[1..], i - 1);
      var at := StartIndexes(start + e.numShares, elements[1..])[i - 1] - (start + e.numShares);
      SliceBehind(padding, BlobShares(e.blob), rest, at, elements[i].numShares);
    }
  }

  lemma SliceMiddle<T>(a: seq<T>, b: seq<T>, c: seq<T>)
    ensures (a + (b + c))[|a|..|a| + |b|] == b
  {
  }

  lemma SliceBehind<T>(a: seq<T>, b: seq<T>, c: seq<T>, at: nat, n: nat)
    requires at + n <= |c|
    ensures (a + (b + c))[|a| + |b| + at..|a| + |b| + at + n] == c[at..at + n]
  {
    assert a + (b + c) == (a + b) + c;
  }

  lemma AreaLength(end: nat, elements: seq<Element>)
    requires Placeable(elements)
    ensures elements == [] ==> Area(end, elements) == []
    ensures elements != [] ==> Area(end, elements) != []
    ensures elements != [] ==>
              |Area(end, elements)| == BlobsEnd(end, SUBTREE_ROOT_THRESHOLD, NumShares(elements)) - StartIndexes(end, elements)[0]
  {
    hide ValidElement, BlobShares, Laid, NextShareIndex;
    if elements != [] {
      var e := elements[0];
      ValidElementFacts(e);
      LaidLength(ElementKey(e), AlignedStart(end, e) + e.numShares, elements[1..]);
      assert NumShares(elements)[1..] == NumShares(elements[1..]);
    }
  }

  lemma AreaAt(end: nat, elements: seq<Element>, i: nat)
    requires Placeable(elements) && i < |elements|
    ensures |elements[i].blob.namespaceId| == NAMESPACE_ID_SIZE && elements[i].blob.shareVersion == 0
    ensures var ix := StartIndexes(end, elements);
            && ix[0] <= ix[i] && ix[i] - ix[0] + elements[i].numShares <= |Area(end, elements)|
            && Area(end, elements)[ix[i] - ix[0]..ix[i] - ix[0] + elements[i].numShares] == BlobShares(elements[i].blob)
  {
    hide ValidElement, BlobShares, Laid, AlignedStart, StartIndexes, Area, PaddingShares;
    var e, start := elements[0], AlignedStart(end, elements[0]);
    ValidElementFacts(e);
    IndexStep(end, elements, 0);
    AreaIsLaid(end, elements);
    AlignedTwice(end, elements);
    LaidAt(ElementKey(e), start, elements, i);
    SameIndexes(end, elements);
  }

  /** The area is what is laid out from its own first index on, without padding in front. */
  lemma AreaIsLaid(end: nat, elements: seq<Element>)
    requires Placeable(elements) && elements != []
    ensures |ElementKey(elements[0])| == NAMESPACE_SIZE
    ensures Area(end, elements) == Laid(ElementKey(elements[0]), AlignedStart(end, elements[0]), elements)
  {
    hide ValidElement, BlobShares, Laid, AlignedStart, PaddingShares;
    var e, start := elements[0], AlignedStart(end, elements[0]);
    ValidElementFacts(e);
    AlignedTwice(end, elements);
    LaidStep(ElementKey(e), start, elements);
    assert PaddingShares(ElementKey(e), 0, 0) == [];
    assert [] + Area(end, elements) == Area(end, elements);
  }

  lemma AlignedTwice(end: nat, elements: seq<Element>)
    requires elements != []
    ensures AlignedStart(AlignedStart(end, elements[0]), elements[0]) == AlignedStart(end, elements[0])
  {
    hide SubTreeWidth;
  }

  lemma SameIndexes(end: nat, elements: seq<Element>)
    requires elements != []
    ensures StartIndexes(AlignedStart(end, elements[0]), elements) == StartIndexes(end, elements)
  {
    hide NextShareIndex;
    AlignedTwice(end, elements);
  }

  // ----- the blob loop never fails on valid blobs -----

  /** What the last share of a blob tells the padding that follows it. */
  lemma {:induction false} LastShare(ns: Bytes, first: bool, len: nat, data: Bytes)
    requires Supported(ns) && !IsCompactNamespace(ns) && len < U32_LIMIT
    ensures var shares := DataShares(ns, 0, first, len, data);
            NamespaceBytes(shares[|shares| - 1]) == ns && Version(shares[|shares| - 1]) == 0
    decreases |data|
  {
    DataShareFields(ns, first, len, data);
    hide DataShare, Supported, NamespaceBytes, Version;
    if |data| > Room(ns, first) {
      LastShare(ns, false, 0, data[Room(ns, first)..]);
    }
  }

  lemma LastShareOfBlob(b: Blob, shares: seq<Share>)
    requires ValidBlob(b)
    ensures var all := shares + BlobShares(b);
            NamespaceBytes(all[|all| - 1]) == b.NamespaceOf() && Version(all[|all| - 1]) == 0
  {
    UserNamespaceIsNotReserved(b.NamespaceOf());
    LastShare(b.NamespaceOf(), true, |b.data|, b.data);
    hide Supported, IsCompactNamespace, DataShares, NamespaceBytes, Version;
    var own := BlobShares(b);
    assert (shares + own)[|shares + own| - 1] == own[|own| - 1];
  }

  lemma LoopEnds(shares: seq<Share>, ns: Bytes, end: nat)
    requires |ns| == NAMESPACE_SIZE
    ensures BlobPart(shares, end, [], false) == Ok(shares) && Laid(ns, end, []) == []
  {
  }

  lemma LoopStep(shares: seq<Share>, ns: Bytes, end: nat, elements: seq<Element>)
    requires Placeable(elements) && Supported(ns) && elements != []
    requires shares != [] && NamespaceBytes(shares[|shares| - 1]) == ns && Version(shares[|shares| - 1]) == 0
    ensures var e, start := elements[0], AlignedStart(end, elements[0]);
            && |e.blob.namespaceId| == NAMESPACE_ID_SIZE && e.blob.shareVersion == 0
            && BlobPart(shares, end, elements, false)
               == BlobPart(shares + PaddingShares(ns, 0, start - end) + BlobShares(e.blob), start + e.numShares,
                           elements[1..], false)
  {
    hide ValidElement, BlobShares, PaddingShares, NamespaceBytes, Version, Supported, SubTreeWidth, RoundUpByMultipleOf;
    var e, start := elements[0], AlignedStart(end, elements[0]);
    ValidElementFacts(e);
    hide NextShareIndex;
    assert start - end == 0 ==> shares + PaddingShares(ns, 0, start - end) == shares;
    assert PadTo(shares, start - end) == Ok(shares + PaddingShares(ns, 0, start - end));
  }

  /** The padding stays within its bound, the namespaces are supported, the blobs are accepted. */
  lemma {:induction false} BlobLoopLays(shares: seq<Share>, ns: Bytes, end: nat, elements: seq<Element>)
    requires Placeable(elements) && Supported(ns)
    requires shares != [] && NamespaceBytes(shares[|shares| - 1]) == ns && Version(shares[|shares| - 1]) == 0
    ensures BlobPart(shares, end, elements, false) == Ok(shares + Laid(ns, end, elements))
    decreases |elements|
  {
    hide ValidElement, BlobShares, PaddingShares, AlignedStart, NamespaceBytes, Version, Supported, BlobPart, Laid;
    if elements == [] {
      assert shares + [] == shares;
      LoopEnds(shares, ns, end);
    } else {
      var e, start := elements[0], AlignedStart(end, elements[0]);
      ValidElementFacts(e);
      LoopStep(shares, ns, end, elements);
      LaidStep(ns, end, elements);
      var padding := PaddingShares(ns, 0, start - end);
      var padded := shares + padding;
      var written := padded + BlobShares(e.blob);
      ElementIsValid(e);
      LastShareOfBlob(e.blob, padded);
      BlobLoopLays(written, ElementKey(e), start + e.numShares, elements[1..]);
      Regroup(shares, padding, BlobShares(e.blob), Laid(ElementKey(e), start + e.numShares, elements[1..]));
    }
  }

  lemma ElementIsValid(e: Element)
    requires ValidElement(e)
    ensures ValidBlob(e.blob)
  {
  }

  lemma Regroup<T>(a: seq<T>, b: seq<T>, c: seq<T>, d: seq<T>)
    ensures a + b + c + d == a + (b + (c + d))
  {
  }

  lemma BlobLoopFillsArea(end: nat, elements: seq<Element>)
    requires Placeable(elements)
    ensures BlobPart([], end, elements, true) == Ok(Area(end, elements))
  {
    hide ValidElement, BlobShares, AlignedStart, NamespaceBytes, Version, Supported, BlobPart, Laid;
    if elements == [] {
      FirstStep(end, elements);
    } else {
      var e := elements[0];
      FirstStep(end, elements);
      ValidElementFacts(e);
      ElementIsValid(e);
      LastShareOfBlob(e.blob, []);
      assert [] + BlobShares(e.blob) == BlobShares(e.blob);
      BlobLoopLays(BlobShares(e.blob), ElementKey(e), AlignedStart(end, e) + e.numShares, elements[1..]);
    }
  }

  /** In front of the first blob the loop writes no padding. */
  lemma FirstStep(end: nat, elements: seq<Element>)
    requires Placeable(elements)
    ensures elements == [] ==> BlobPart([], end, elements, true) == Ok([])
    ensures elements != [] ==>
              var e := elements[0];
              && |e.blob.namespaceId| == NAMESPACE_ID_SIZE && e.blob.shareVersion == 0
              && BlobPart([], end, elements, true)
                 == BlobPart(BlobShares(e.blob), AlignedStart(end, e) + e.numShares, elements[1..], false)
  {
    hide ValidElement, BlobShares, SubTreeWidth;
    if elements != [] {
      ValidElementFacts(elements[0]);
      assert [] + BlobShares(elements[0].blob) == BlobShares(elements[0].blob);
    }
  }
}
