/** Blob share commitment rules: where a blob may start in the square
    (pkg/inclusion/blob_share_commitment_rules.go). */
module CommitmentRules {
  import opened ByteSeqs
  import opened PowersOfTwo

  /** The side of the smallest power-of-two square with room for `shareCount` shares. */
  function BlobMinSquareSize(shareCount: nat): (side: nat)
    ensures side >= 1
  {
    RoundUp(CeilSqrt(shareCount))
  }

  lemma BlobMinSquareSizeFits(shareCount: nat)
    ensures IsPow2(BlobMinSquareSize(shareCount))
    ensures BlobMinSquareSize(shareCount) * BlobMinSquareSize(shareCount) >= shareCount
  {
    RoundUpIsPow2(CeilSqrt(shareCount));
    SquareMonotone(CeilSqrt(shareCount), BlobMinSquareSize(shareCount));
  }

  /** No smaller power-of-two square has room. */
  lemma BlobMinSquareSizeLeast(shareCount: nat, side: nat)
    requires IsPow2(side) && side * side >= shareCount
    ensures BlobMinSquareSize(shareCount) <= side
  {
    CeilSqrtLeast(shareCount, side);
    RoundUpLeast(CeilSqrt(shareCount), side);
  }

  /** da.SquareSize inverts squaring on power-of-two sides. */
  lemma SquareSizeOfSquare(side: nat)
    requires IsPow2(side)
    ensures BlobMinSquareSize(side * side) == side
  {
    BlobMinSquareSizeLeast(side * side, side);
    BlobMinSquareSizeFits(side * side);
    var r := BlobMinSquareSize(side * side);
    if r < side {
      StrictSquare(r, side);
    }
  }

  function CeilDiv(a: nat, b: nat): (r: nat)
    requires b > 0
  {
    if a % b != 0 then a / b + 1 else a / b
  }

  function SubTreeWidth(shareCount: nat, subtreeRootThreshold: nat): (w: nat)
    requires subtreeRootThreshold > 0
    ensures 1 <= w <= BlobMinSquareSize(shareCount)
  {
    var s := RoundUp(CeilDiv(shareCount, subtreeRootThreshold));
    var m := BlobMinSquareSize(shareCount);
    if s < m then s else m
  }

  lemma SubTreeWidthIsPow2(shareCount: nat, threshold: nat)
    requires threshold > 0
    ensures IsPow2(SubTreeWidth(shareCount, threshold))
  {
    RoundUpIsPow2(CeilDiv(shareCount, threshold));
    BlobMinSquareSizeFits(shareCount);
  }

  /** What the width means: the least power of two with which at most `threshold` subtrees of that width
      cover the shares, or the side of the smallest square for them where that is less. */
  lemma SubTreeWidthIsLeast(shareCount: nat, threshold: nat, p: nat)
    requires threshold > 0 && IsPow2(p)
    ensures var w := SubTreeWidth(shareCount, threshold);
            && w <= BlobMinSquareSize(shareCount)
            && (w == BlobMinSquareSize(shareCount) || shareCount <= threshold * w)
            && (shareCount <= threshold * p ==> w <= p)
  {
    hide BlobMinSquareSize;
    var c := CeilDiv(shareCount, threshold);
    CeilDivIsLeast(shareCount, threshold, RoundUp(c));
    CeilDivIsLeast(shareCount, threshold, p);
    if c <= p {
      RoundUpLeast(c, p);
    }
  }

  /** The rounded-up quotient is the least number of `b`s that cover `a`. */
  lemma CeilDivIsLeast(a: nat, b: nat, n: nat)
    requires b > 0
    ensures a <= b * n <==> CeilDiv(a, b) <= n
  {
    var q, r := a / b, a % b;
    assert a == q * b + r && 0 <= r < b;
    assert b * n == n * b;
    if n < q {
      MulSucc(n, q, b);
    } else if n == q {
    } else {
      MulSucc(q, n, b);
    }
  }

  /** A blob that fits in a square has a subtree width that divides the square's side. */
  lemma SubTreeWidthDividesSide(shareCount: nat, threshold: nat, side: nat) returns (q: nat)
    requires threshold > 0 && IsPow2(side) && shareCount <= side * side
    ensures side == q * SubTreeWidth(shareCount, threshold)
  {
    BlobMinSquareSizeLeast(shareCount, side);
    SubTreeWidthIsPow2(shareCount, threshold);
    q := Pow2Divides(SubTreeWidth(shareCount, threshold), side);
  }

  function RoundUpByMultipleOf(cursor: nat, v: nat): (r: nat)
    requires v > 0
    ensures cursor <= r < cursor + v
    ensures r % v == 0
  {
    if cursor % v == 0 then cursor
    else
      DivModUnique((cursor / v + 1) * v, cursor / v + 1, 0, v);
      assert cursor == (cursor / v) * v + cursor % v;
      (cursor / v + 1) * v
  }

  /** Where a blob goes: the first multiple of its subtree width at or after the
      cursor, and so at most width - 1 shares of padding further on. */
  function NextShareIndex(cursor: nat, blobShareLen: nat, threshold: nat): (r: nat)
    requires threshold > 0
    ensures cursor <= r < cursor + SubTreeWidth(blobShareLen, threshold)
    ensures r % SubTreeWidth(blobShareLen, threshold) == 0
    ensures cursor % SubTreeWidth(blobShareLen, threshold) == 0 ==> r == cursor
  {
    RoundUpByMultipleOf(cursor, SubTreeWidth(blobShareLen, threshold))
  }

  /** The start of every blob when blobs of the given lengths follow each other from `cursor`. */
  function BlobIndexes(cursor: nat, threshold: nat, lens: seq<nat>): (r: seq<nat>)
    requires threshold > 0
    ensures |r| == |lens|
    decreases |lens|
  {
    if lens == [] then []
    else
      var start := NextShareIndex(cursor, lens[0], threshold);
      [start] + BlobIndexes(start + lens[0], threshold, lens[1..])
  }

  /** The first share after the last of those blobs. */
  function BlobsEnd(cursor: nat, threshold: nat, lens: seq<nat>): (r: nat)
    requires threshold > 0
    ensures r >= cursor
    decreases |lens|
  {
    if lens == [] then cursor
    else BlobsEnd(NextShareIndex(cursor, lens[0], threshold) + lens[0], threshold, lens[1..])
  }

  lemma {:induction false} BlobIndexesSnoc(cursor: nat, threshold: nat, lens: seq<nat>, n: nat)
    requires threshold > 0
    ensures BlobIndexes(cursor, threshold, lens + [n])
         == BlobIndexes(cursor, threshold, lens) + [NextShareIndex(BlobsEnd(cursor, threshold, lens), n, threshold)]
    ensures BlobsEnd(cursor, threshold, lens + [n])
         == NextShareIndex(BlobsEnd(cursor, threshold, lens), n, threshold) + n
    decreases |lens|
  {
    hide NextShareIndex, SubTreeWidth, BlobIndexes, BlobsEnd;
    NoBlobIndexes(cursor, threshold);
    if lens == [] {
      assert lens + [n] == [n] + [];
      BlobIndexesCons(cursor, threshold, n, []);
      NoBlobIndexes(NextShareIndex(cursor, n, threshold) + n, threshold);
    } else {
      var first, rest := lens[0], lens[1..];
      var after := NextShareIndex(cursor, first, threshold) + first;
      assert lens == [first] + rest && lens + [n] == [first] + (rest + [n]);
      BlobIndexesCons(cursor, threshold, first, rest);
      BlobIndexesCons(cursor, threshold, first, rest + [n]);
      BlobIndexesSnoc(after, threshold, rest, n);
    }
  }

  lemma NoBlobIndexes(cursor: nat, threshold: nat)
    requires threshold > 0
    ensures BlobIndexes(cursor, threshold, []) == [] && BlobsEnd(cursor, threshold, []) == cursor
  {
  }

  lemma BlobIndexesCons(cursor: nat, threshold: nat, first: nat, rest: seq<nat>)
    requires threshold > 0
    ensures var start := NextShareIndex(cursor, first, threshold);
            && BlobIndexes(cursor, threshold, [first] + rest) == [start] + BlobIndexes(start + first, threshold, rest)
            && BlobsEnd(cursor, threshold, [first] + rest) == BlobsEnd(start + first, threshold, rest)
  {
    hide NextShareIndex, SubTreeWidth;
    assert ([first] + rest)[1..] == rest;
  }

  /** Every blob's start comes from the end of the blobs before it. */
  lemma {:induction false} BlobIndexAt(cursor: nat, threshold: nat, lens: seq<nat>, i: nat)
    requires threshold > 0 && i < |lens|
    ensures BlobIndexes(cursor, threshold, lens)[i]
         == NextShareIndex(BlobsEnd(cursor, threshold, lens[..i]), lens[i], threshold)
    ensures BlobsEnd(cursor, threshold, lens[..i + 1]) == BlobIndexes(cursor, threshold, lens)[i] + lens[i]
    ensures BlobsEnd(cursor, threshold, lens[..i + 1]) <= BlobsEnd(cursor, threshold, lens)
    decreases |lens|
  {
    var n := |lens| - 1;
    assert lens == lens[..n] + [lens[n]];
    BlobIndexesSnoc(cursor, threshold, lens[..n], lens[n]);
    if i == n {
      assert lens[..i + 1] == lens;
    } else {
      BlobIndexAt(cursor, threshold, lens[..n], i);
      assert lens[..n][..i] == lens[..i] && lens[..n][..i + 1] == lens[..i + 1];
    }
  }

  lemma {:induction false} BlobsEndMonotone(cursor: nat, threshold: nat, lens: seq<nat>, i: nat, j: nat)
    requires threshold > 0 && i <= j <= |lens|
    ensures BlobsEnd(cursor, threshold, lens[..i]) <= BlobsEnd(cursor, threshold, lens[..j])
    decreases j - i
  {
    if i < j {
      BlobIndexAt(cursor, threshold, lens, i);
      BlobsEndMonotone(cursor, threshold, lens, i + 1, j);
    }
  }

  /** Blobs are laid out in order without overlap, each at a multiple of its own subtree width. */
  lemma BlobIndexesLayout(cursor: nat, threshold: nat, lens: seq<nat>, i: nat, j: nat)
    requires threshold > 0 && i < j < |lens|
    ensures var ix := BlobIndexes(cursor, threshold, lens);
            && cursor <= ix[i] && ix[i] + lens[i] <= ix[j]
            && ix[i] % SubTreeWidth(lens[i], threshold) == 0
            && ix[j] % SubTreeWidth(lens[j], threshold) == 0
            && ix[j] + lens[j] <= BlobsEnd(cursor, threshold, lens)
  {
    BlobIndexAt(cursor, threshold, lens, i);
    BlobIndexAt(cursor, threshold, lens, j);
    BlobsEndMonotone(cursor, threshold, lens, i + 1, j);
  }

  /** Indexes as the source stores them, in 32 bits. */
  function AsUint32(indexes: seq<nat>): (r: seq<nat>)
    ensures |r| == |indexes|
    ensures (forall i :: 0 <= i < |indexes| ==> indexes[i] < U32_LIMIT) ==> r == indexes
  {
    seq(|indexes|, i requires 0 <= i < |indexes| => indexes[i] % U32_LIMIT)
  }

  lemma AsUint32Snoc(indexes: seq<nat>, index: nat)
    ensures AsUint32(indexes + [index]) == AsUint32(indexes) + [index % U32_LIMIT]
  {
  }

  method BlobSharesUsedNonInteractiveDefaults(cursor0: nat, threshold: nat, lens: seq<nat>)
    returns (sharesUsed: nat, indexes: seq<nat>)
    requires threshold > 0
    ensures sharesUsed == BlobsEnd(cursor0, threshold, lens) - cursor0
    ensures indexes == AsUint32(BlobIndexes(cursor0, threshold, lens))
  {
    hide NextShareIndex, SubTreeWidth, BlobIndexes, BlobsEnd, AsUint32;
    var cursor := cursor0;
    indexes := [];
    NoBlobIndexes(cursor0, threshold);
    for i := 0 to |lens|
      invariant indexes == AsUint32(BlobIndexes(cursor0, threshold, lens[..i]))
      invariant cursor == BlobsEnd(cursor0, threshold, lens[..i])
    {
      assert lens[..i + 1] == lens[..i] + [lens[i]];
      BlobIndexesSnoc(cursor0, threshold, lens[..i], lens[i]);
      cursor := NextShareIndex(cursor, lens[i], threshold);
      AsUint32Snoc(BlobIndexes(cursor0, threshold, lens[..i]), cursor);
      indexes := indexes + [cursor % U32_LIMIT];
      cursor := cursor + lens[i];
    }
    assert lens[..|lens|] == lens;
    sharesUsed := cursor - cursor0;
  }

  /** FitsInSquare: the blobs, laid out from `cursor`, end inside the square. */
  method FitsInSquare(cursor0: nat, squareSize: nat, threshold: nat, lens: seq<nat>)
    returns (fits: bool, sharesUsed: nat)
    requires threshold > 0
    ensures fits <==> BlobsEnd(cursor0, threshold, lens) <= squareSize * squareSize
    ensures lens == [] ==> sharesUsed == 0
    ensures lens != [] ==>
              sharesUsed == BlobsEnd(cursor0, threshold, lens) - BlobIndexes(cursor0, threshold, lens)[0]
  {
    if |lens| == 0 {
      return cursor0 <= squareSize * squareSize, 0;
    }
    var cursor := NextShareIndex(cursor0, lens[0], threshold);
    var indexes;
    sharesUsed, indexes := BlobSharesUsedNonInteractiveDefaults(cursor, threshold, lens);
    fits := cursor + sharesUsed <= squareSize * squareSize;
  }
}
