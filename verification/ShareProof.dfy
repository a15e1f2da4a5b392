/** Which shares an inclusion proof collects, row by row (NewShareInclusionProof in pkg/proof/proof.go). */
module ShareProof {
  import opened ByteSeqs
  import opened Commitment
  import CommitmentRules
  import Namespaces
  import opened Nmt
  import opened PowersOfTwo
  import opened Results
  import opened ShareFormat
  import opened ShareRange

  /** namespace.ParitySharesNamespace. */
  const PARITY_SHARES_NAMESPACE := Namespaces.Secondary(0xFF)

  /** The shares of a proof, the rows it spans and the leaves that are proved in every row. */
  datatype Proof = Proof(startRow: nat, endRow: nat, rowRoots: seq<Bytes>, data: seq<Share>, leafRanges: seq<Range>)

  /** ErasuredNamespacedMerkleTree.Push: a share of the original square goes behind its own namespace, any
      other share behind the parity namespace. */
  function TreeLeaf(side: nat, axisIndex: nat, shareIndex: nat, s: Share): (r: Bytes)
  {
    (if shareIndex < side && axisIndex < side then NamespaceBytes(s) else PARITY_SHARES_NAMESPACE) + s
  }

  function TreeLeaves(side: nat, axisIndex: nat, row: seq<Share>): (r: seq<Bytes>)
    ensures |r| == |row|
  {
    seq(|row|, c requires 0 <= c < |row| => TreeLeaf(side, axisIndex, c, row[c]))
  }

  /** The proof's trees are numbered from its first row on; within the original square that makes no
      difference to their leaves. */
  lemma SameLeaves(side: nat, a: nat, b: nat, row: seq<Share>)
    requires a < side && b < side
    ensures TreeLeaves(side, a, row) == TreeLeaves(side, b, row)
  {
  }

  /** The rows of a share range and the columns of its ends. */
  lemma RowsOfRange(start: nat, end: nat, side: nat)
    requires side > 0 && start < end <= side * side
    ensures 0 <= start / side <= (end - 1) / side < side
    ensures 0 <= start % side < side && 0 <= (end - 1) % side < side
    ensures Spans(start, end, side, start / side, (end - 1) / side - start / side + 1, start % side, (end - 1) % side)
  {
    DivMonotone(start, end - 1, side);
    if (end - 1) / side >= side {
      MulSucc(side, (end - 1) / side + 1, side);
    }
  }

  /** The leaves proved in each of n rows: up to the end of the row in all but the last one. */
  function LeafRanges(side: nat, n: nat, startLeaf: nat, endLeaf: nat): (r: seq<Range>)
    requires side > 0
    ensures |r| == n
  {
    seq(n, i => Range(if i > 0 then 0 else startLeaf, if i != n - 1 then side else endLeaf + 1))
  }

  /** The shares in the proved leaves of the rows, one row after the other. */
  function Collected(rows: seq<seq<Share>>, startRow: nat, ranges: seq<Range>): (r: seq<Share>)
    requires startRow + |ranges| <= |rows|
    requires forall i :: 0 <= i < |ranges| ==> ranges[i].start <= ranges[i].end <= |rows[startRow + i]|
  {
    if ranges == [] then []
    else
      var n := |ranges| - 1;
      Collected(rows, startRow, ranges[..n]) + rows[startRow + n][ranges[n].start..ranges[n].end]
  }

  /** The first share of a row. */
  function RowStart(r: nat, side: nat): (share: nat)
  {
    r * side
  }

  /** One row of the range is a run of the square. */
  lemma RowRun(rows: seq<seq<Share>>, square: seq<Share>, side: nat, r: nat, base: nat, a: nat, b: nat)
    requires Extends(rows, square, side) && r < side && base == RowStart(r, side) && a <= b <= side
    ensures base + b <= |square| && rows[r][a..b] == square[base + a..base + b]
  {
    RowInSquare(r, side, a, b - a);
    RowSlice(rows, square, side, r, base, a, b - a);
    assert rows[r][a..b] == Left(rows[r])[a..b];
  }

  /** Non-empty leaf ranges, none of which reaches into the parity half. */
  ghost predicate Original(ranges: seq<Range>, side: nat) {
    forall i :: 0 <= i < |ranges| ==> ranges[i].start < ranges[i].end <= side
  }

  /** A share range by its rows and the columns of its ends. */
  ghost predicate Spans(start: nat, end: nat, side: nat, startRow: nat, n: nat, startLeaf: nat, endLeaf: nat) {
    && start == startRow * side + startLeaf && end == (startRow + n - 1) * side + endLeaf + 1
    && start < end <= side * side && n > 0 && startRow + n <= side && startLeaf < side && endLeaf < side
  }

  lemma RangesAreOriginal(start: nat, end: nat, side: nat, startRow: nat, n: nat, startLeaf: nat, endLeaf: nat)
    requires Spans(start, end, side, startRow, n, startLeaf, endLeaf)
    ensures Original(LeafRanges(side, n, startLeaf, endLeaf), side)
  {
    if n == 1 {
      assert startLeaf <= endLeaf;
    }
  }

  lemma CollectedSnoc(rows: seq<seq<Share>>, startRow: nat, ranges: seq<Range>, side: nat, i: nat)
    requires Original(ranges, side) && i < |ranges| && startRow + |ranges| <= |rows|
    requires forall r :: 0 <= r < |rows| ==> |rows[r]| == 2 * side
    ensures Collected(rows, startRow, ranges[..i + 1])
         == Collected(rows, startRow, ranges[..i]) + rows[startRow + i][ranges[i].start..ranges[i].end]
  {
    assert ranges[..i + 1][..i] == ranges[..i];
  }

  /** Where the first i rows of the range end. */
  ghost function EndOf(end: nat, side: nat, startRow: nat, n: nat, i: nat): (r: nat)
  {
    if i == n then end else RowStart(startRow + i, side)
  }

  lemma RowBounds(start: nat, end: nat, side: nat, startRow: nat, n: nat, startLeaf: nat, endLeaf: nat, i: nat)
    requires Spans(start, end, side, startRow, n, startLeaf, endLeaf) && i < n
    ensures var base, r := RowStart(startRow + i, side), LeafRanges(side, n, startLeaf, endLeaf)[i];
            && base + r.start == (if i == 0 then start else EndOf(end, side, startRow, n, i))
            && base + r.end == EndOf(end, side, startRow, n, i + 1)
            && start <= base + r.start <= base + r.end <= RowStart(side, side)
  {
    var base := (startRow + i) * side;
    assert (startRow + i + 1) * side == base + side;
    if i > 0 {
      MulSucc(startRow, startRow + i, side);
    }
    if startRow + i < side {
      MulSucc(startRow + i, side, side);
    }
  }

  /** The first rows give the square from the start of the range to the end of those rows. */
  lemma {:induction false} CollectedIsSlice(
    rows: seq<seq<Share>>, square: seq<Share>, start: nat, end: nat, side: nat, startRow: nat, n: nat,
    startLeaf: nat, endLeaf: nat, i: nat)
    requires Extends(rows, square, side) && Spans(start, end, side, startRow, n, startLeaf, endLeaf) && 1 <= i <= n
    requires Original(LeafRanges(side, n, startLeaf, endLeaf), side)
    ensures start <= EndOf(end, side, startRow, n, i) <= |square|
    ensures Collected(rows, startRow, LeafRanges(side, n, startLeaf, endLeaf)[..i])
         == square[start..EndOf(end, side, startRow, n, i)]
    decreases i
  {
    hide EndOf, Collected, LeafRanges, Spans, Extends, RowStart;
    SpanFacts(rows, square, start, end, side, startRow, n, startLeaf, endLeaf);
    var ranges := LeafRanges(side, n, startLeaf, endLeaf);
    RowStep(rows, square, start, end, side, startRow, n, startLeaf, endLeaf, i - 1);
    if i == 1 {
      NothingCollected(rows, startRow, ranges);
      assert [] + square[start..EndOf(end, side, startRow, n, 1)] == square[start..EndOf(end, side, startRow, n, 1)];
    } else {
      CollectedIsSlice(rows, square, start, end, side, startRow, n, startLeaf, endLeaf, i - 1);
      JoinSlices(square, start, EndOf(end, side, startRow, n, i - 1), EndOf(end, side, startRow, n, i));
    }
  }

  lemma SpanFacts(
    rows: seq<seq<Share>>, square: seq<Share>, start: nat, end: nat, side: nat, startRow: nat, n: nat,
    startLeaf: nat, endLeaf: nat)
    requires Extends(rows, square, side) && Spans(start, end, side, startRow, n, startLeaf, endLeaf)
    ensures 0 < startRow + n <= side && |rows| == 2 * side && forall r :: 0 <= r < |rows| ==> |rows[r]| == 2 * side
    ensures |square| == RowStart(side, side)
  {
  }

  /** The i-th row continues the slice of the square where the rows before it end. */
  lemma RowStep(
    rows: seq<seq<Share>>, square: seq<Share>, start: nat, end: nat, side: nat, startRow: nat, n: nat,
    startLeaf: nat, endLeaf: nat, i: nat)
    requires Extends(rows, square, side) && Spans(start, end, side, startRow, n, startLeaf, endLeaf) && i < n
    requires Original(LeafRanges(side, n, startLeaf, endLeaf), side)
    ensures var ranges, from := LeafRanges(side, n, startLeaf, endLeaf), if i == 0 then start else EndOf(end, side, startRow, n, i);
            && start <= from <= EndOf(end, side, startRow, n, i + 1) <= |square|
            && Collected(rows, startRow, ranges[..i + 1])
               == Collected(rows, startRow, ranges[..i]) + square[from..EndOf(end, side, startRow, n, i + 1)]
  {
    hide EndOf, Collected, LeafRanges, Spans, Extends, RowStart;
    SpanFacts(rows, square, start, end, side, startRow, n, startLeaf, endLeaf);
    var ranges, base := LeafRanges(side, n, startLeaf, endLeaf), RowStart(startRow + i, side);
    RowBounds(start, end, side, startRow, n, startLeaf, endLeaf, i);
    CollectedSnoc(rows, startRow, ranges, side, i);
    RowRun(rows, square, side, startRow + i, base, ranges[i].start, ranges[i].end);
  }

  lemma NothingCollected(rows: seq<seq<Share>>, startRow: nat, ranges: seq<Range>)
    requires startRow <= |rows|
    ensures Collected(rows, startRow, ranges[..0]) == []
  {
  }

  /** The slicing of NewShareInclusionProof: for every non-empty range in the square the collected shares
      are exactly that slice of the square, in order, and no leaf of the parity half is proved. */
  method NewShareInclusionProof(
    h: Hasher, square: seq<Share>, rows: seq<seq<Share>>, edsRowRoots: seq<Bytes>, range: Range, ghost side: nat)
    returns (r: Result<Proof>)
    requires IsPow2(side) && IsPow2(2 * side) && Extends(rows, square, side)
    requires |edsRowRoots| == |rows|
    requires forall i :: 0 <= i < |rows| ==> edsRowRoots[i] == Root(h, TreeLeaves(side, i, rows[i]))
    requires range.start < range.end <= |square|
    ensures r.Ok? && r.value.data == square[range.start..range.end]
    ensures var p := r.value;
            && p.startRow == range.start / side && p.endRow == (range.end - 1) / side && p.startRow <= p.endRow < side
            && p.rowRoots == edsRowRoots[p.startRow..p.endRow + 1]
            && |p.leafRanges| == p.endRow - p.startRow + 1 && Original(p.leafRanges, side)
            && p.data == Collected(rows, p.startRow, p.leafRanges)
  {
    hide Root, IsPow2, CommitmentRules.BlobMinSquareSize, TreeLeaves, Collected, LeafRanges, EndOf, Extends, Original, Spans;
    CommitmentRules.SquareSizeOfSquare(side);
    SquareFacts(rows, square, side);
    var squareSize := CommitmentRules.BlobMinSquareSize(|square|);
    RowsOfRange(range.start, range.end, side);
    var startRow, endRow := range.start / squareSize, (range.end - 1) / squareSize;
    var startLeaf, endLeaf := range.start % squareSize, (range.end - 1) % squareSize;
    var n := endRow - startRow + 1;
    RangesAreOriginal(range.start, range.end, side, startRow, n, startLeaf, endLeaf);
    var rowRoots := edsRowRoots[startRow..endRow + 1];
    var collected := CollectRows(h, rows, rowRoots, squareSize, startRow, n, startLeaf, endLeaf);
    CollectedIsSlice(rows, square, range.start, range.end, side, startRow, n, startLeaf, endLeaf, n);
    EndOfRange(range.end, side, startRow, n);
    assert LeafRanges(side, n, startLeaf, endLeaf)[..n] == LeafRanges(side, n, startLeaf, endLeaf);
    return Ok(Proof(startRow, endRow, rowRoots, collected.value.0, collected.value.1));
  }

  lemma SquareFacts(rows: seq<seq<Share>>, square: seq<Share>, side: nat)
    requires IsPow2(side) && Extends(rows, square, side)
    ensures side > 0 && |square| == side * side && |rows| == 2 * side
    ensures forall r :: 0 <= r < |rows| ==> |rows[r]| == 2 * side
  {
  }

  /** The loop over the rows of the range, which also compares every row's tree with the row root. */
  method CollectRows(
    h: Hasher, rows: seq<seq<Share>>, rowRoots: seq<Bytes>, side: nat, startRow: nat, n: nat, startLeaf: nat, endLeaf: nat)
    returns (r: Result<(seq<Share>, seq<Range>)>)
    requires startRow + n <= side && side > 0 && |rows| == 2 * side && |rowRoots| == n && IsPow2(2 * side)
    requires forall k :: 0 <= k < |rows| ==> |rows[k]| == 2 * side
    requires forall i :: 0 <= i < n ==> rowRoots[i] == Root(h, TreeLeaves(side, startRow + i, rows[startRow + i]))
    requires Original(LeafRanges(side, n, startLeaf, endLeaf), side)
    ensures r.Ok? && r.value.1 == LeafRanges(side, n, startLeaf, endLeaf)
    ensures r.value.0 == Collected(rows, startRow, r.value.1)
  {
    hide Root, IsPow2, TreeLeaves, Collected, LeafRanges;
    ghost var ranges := LeafRanges(side, n, startLeaf, endLeaf);
    var rawShares: seq<Share>, leafRanges: seq<Range> := [], [];
    NothingCollected(rows, startRow, ranges);
    for i := 0 to n
      invariant leafRanges == ranges[..i] && rawShares == Collected(rows, startRow, leafRanges)
    {
      var row := rows[startRow + i];
      SameLeaves(side, i, startRow + i, row);
      if Root(h, TreeLeaves(side, i, row)) != rowRoots[i] {
        return Err(RowRootMismatch);
      }
      var startLeafPos, endLeafPos := startLeaf, endLeaf;
      if i > 0 {
        startLeafPos := 0;
      }
      if i != n - 1 {
        endLeafPos := side - 1;
      }
      CollectedSnoc(rows, startRow, ranges, side, i);
      RangeAt(side, n, startLeaf, endLeaf, i);
      rawShares := rawShares + row[startLeafPos..endLeafPos + 1];
      leafRanges := leafRanges + [Range(startLeafPos, endLeafPos + 1)];
    }
    return Ok((rawShares, leafRanges));
  }

  lemma RangeAt(side: nat, n: nat, startLeaf: nat, endLeaf: nat, i: nat)
    requires side > 0 && i < n
    ensures LeafRanges(side, n, startLeaf, endLeaf)[i]
         == Range(if i > 0 then 0 else startLeaf, if i != n - 1 then side else endLeaf + 1)
  {
  }

  lemma EndOfRange(end: nat, side: nat, startRow: nat, n: nat)
    ensures EndOf(end, side, startRow, n, n) == end
  {
  }
}
