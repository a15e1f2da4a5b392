/** From tree coordinates to walks down the rows of a square (pkg/inclusion/paths.go). */
module CommitmentPaths {
  import opened PowersOfTwo
  import opened Mountain
  import opened CommitmentRules
  import opened Paths

  /** A walk down the original half of one row: false goes left, true goes right. */
  datatype Path = Path(instructions: seq<bool>, row: nat)

  function ShiftRight(n: nat, k: nat): (r: nat)
  {
    if k == 0 then n else ShiftRight(n / 2, k - 1)
  }

  lemma {:induction false} ShiftRightStep(n: nat, k: nat)
    ensures ShiftRight(n, k) / 2 == ShiftRight(n, k + 1)
  {
    if k > 0 {
      ShiftRightStep(n / 2, k - 1);
    }
  }

  lemma {:induction false} BitAndZero(n: nat)
    ensures BitAnd(n, 1) == n % 2
  {
  }

  /** Masking with 1 << k reads bit k. */
  lemma {:induction false} MaskReadsBit(n: nat, k: nat)
    ensures BitAnd(n, Pow2(k)) == 0 <==> ShiftRight(n, k) % 2 == 0
  {
    if k == 0 {
      BitAndZero(n);
    } else {
      MaskReadsBit(n / 2, k - 1);
      assert Pow2(k) / 2 == Pow2(k - 1);
      assert n > 0 ==> BitAnd(n, Pow2(k)) == 2 * BitAnd(n / 2, Pow2(k - 1));
    }
  }

  /** The walk from the root to the node at (depth, pos): the bits of pos, highest first. */
  function PathOf(depth: nat, pos: nat): (r: seq<bool>)
    ensures |r| == depth
  {
    if depth == 0 then [] else PathOf(depth - 1, pos / 2) + [pos % 2 == 1]
  }

  /** The position that a walk arrives at. */
  function Position(path: seq<bool>): (pos: nat)
  {
    if path == [] then 0
    else 2 * Position(path[..|path| - 1]) + if path[|path| - 1] then 1 else 0
  }

  /** A walk leads to the position that it was made for. */
  lemma {:induction false} PositionOfPath(depth: nat, pos: nat)
    requires pos < Pow2(depth)
    ensures Position(PathOf(depth, pos)) == pos
  {
    if depth > 0 {
      PositionOfPath(depth - 1, pos / 2);
      assert PathOf(depth, pos)[..depth - 1] == PathOf(depth - 1, pos / 2);
    }
  }

  /** genSubTreeRootPath: the mask and shift loop yields the bits of the position, highest first. */
  method GenSubTreeRootPath(depth: nat, pos: nat) returns (instructions: seq<bool>)
    ensures instructions == PathOf(depth, pos)
  {
    instructions := [];
    var i := depth;
    while i > 0
      invariant 0 <= i <= depth
      invariant instructions == PathOf(depth - i, ShiftRight(pos, i))
    {
      i := i - 1;
      MaskReadsBit(pos, i);
      ShiftRightStep(pos, i);
      instructions := instructions + [BitAnd(pos, Pow2(i)) != 0];
    }
  }

  lemma {:induction false} FirstLeafPastLast(maxDepth: nat, depth: nat)
    requires depth <= maxDepth
    ensures FirstLeaf(maxDepth, depth, Pow2(depth)) == Pow2(maxDepth)
    decreases maxDepth - depth
  {
    if depth < maxDepth {
      FirstLeafPastLast(maxDepth, depth + 1);
    }
  }

  lemma PositionInTree(maxDepth: nat, c: Coord)
    requires c.depth <= maxDepth && Start(maxDepth, c) < Pow2(maxDepth)
    ensures c.position < Pow2(c.depth)
  {
    FirstLeafPastLast(maxDepth, c.depth);
    if c.position > Pow2(c.depth) {
      FirstLeafMonotone(maxDepth, c.depth, Pow2(c.depth), c.position);
    }
  }

  /** The path ends at a node of `size` leaves which lies within its row and whose first leaf is
      share `first` of the square. */
  ghost predicate Covers(side: nat, p: Path, first: nat, size: nat)
    requires IsPow2(side)
  {
    var depth := |p.instructions|;
    && depth <= Log2(side)
    && Width(Log2(side), depth) == size
    && FirstLeaf(Log2(side), depth, Position(p.instructions)) + size <= side
    && p.row * side + FirstLeaf(Log2(side), depth, Position(p.instructions)) == first
  }

  /** The paths end, in order, at the subtrees of the given sizes that cover the shares from `start`. */
  ghost predicate CoversAll(side: nat, paths: seq<Path>, start: nat, sizes: seq<nat>)
    requires IsPow2(side)
  {
    && |paths| == |sizes|
    && forall i :: 0 <= i < |paths| ==> Covers(side, paths[i], start + Sum(sizes[..i]), sizes[i])
  }

  lemma CoversAllAppend(side: nat, ps: seq<Path>, qs: seq<Path>, start: nat, sizes: seq<nat>, more: seq<nat>)
    requires IsPow2(side)
    requires CoversAll(side, ps, start, sizes) && CoversAll(side, qs, start + Sum(sizes), more)
    ensures CoversAll(side, ps + qs, start, sizes + more)
  {
    var all := sizes + more;
    forall i | 0 <= i < |all|
      ensures Covers(side, (ps + qs)[i], start + Sum(all[..i]), all[i])
    {
      if i < |sizes| {
        assert all[..i] == sizes[..i];
      } else {
        assert all[..i] == sizes + more[..i - |sizes|];
        SumAppend(sizes, more[..i - |sizes|]);
        assert Covers(side, qs[i - |sizes|], start + Sum(sizes) + Sum(more[..i - |sizes|]), more[i - |sizes|]);
      }
    }
  }

  function RowPaths(coords: seq<Coord>, row: nat): (r: seq<Path>)
    ensures |r| == |coords|
  {
    seq(|coords|, i requires 0 <= i < |coords| => Path(PathOf(coords[i].depth, coords[i].position), row))
  }

  lemma RowPathCovers(
    side: nat, minDepth: nat, coords: seq<Coord>, row: nat, base: nat, start: nat, end: nat, i: nat)
    requires IsPow2(side) && minDepth <= Log2(side) && end <= side
    requires Tiles(Log2(side), minDepth, coords, start, end, end)
    requires base == row * side && i < |coords|
    ensures Covers(side, RowPaths(coords, row)[i],
                   base + start + Sum(TileSizes(Log2(side), coords)[..i]), TileSizes(Log2(side), coords)[i])
  {
    TileStart(Log2(side), minDepth, coords, start, end, end, i);
    TilesInOrder(Log2(side), minDepth, coords, start, end, end, i);
    PositionInTree(Log2(side), coords[i]);
    PositionOfPath(coords[i].depth, coords[i].position);
  }

  /** A tiling of part of one row gives paths that cover that part of the square. */
  lemma RowPathsCover(side: nat, minDepth: nat, coords: seq<Coord>, row: nat, base: nat, start: nat, end: nat)
    requires IsPow2(side) && minDepth <= Log2(side) && end <= side
    requires Tiles(Log2(side), minDepth, coords, start, end, end)
    requires base == row * side
    ensures CoversAll(side, RowPaths(coords, row), base + start, TileSizes(Log2(side), coords))
  {
    forall i | 0 <= i < |coords|
      ensures Covers(side, RowPaths(coords, row)[i],
                     base + start + Sum(TileSizes(Log2(side), coords)[..i]), TileSizes(Log2(side), coords)[i])
    {
      RowPathCovers(side, minDepth, coords, row, base, start, end, i);
    }
  }

  /** The share of the row where the part of a row starts is a boundary of the widest subtrees. */
  lemma AlignedInRow(side: nat, w: nat, x: nat) returns (q: nat)
    requires IsPow2(side) && IsPow2(w) && w <= side && x % w == 0
    ensures Log2(w) <= Log2(side) && Width(Log2(side), Log2(side) - Log2(w)) == w
    ensures FirstLeaf(Log2(side), Log2(side) - Log2(w), q) == x
  {
    Log2Monotone(side, w);
    q := x / w;
    FirstLeafIsProduct(Log2(side), Log2(side) - Log2(w), q);
  }

  lemma AlignedRemainder(x: nat, side: nat, w: nat, q: nat)
    requires w > 0 && side > 0 && side == q * w && x % w == 0
    ensures (x % side) % w == 0
  {
    var a, r := x / w, x / side;
    MulAssoc(r, q, w);
    MulSub(a, r * q, w);
    DivModUnique(x % side, a - r * q, 0, w);
  }

  /** The shares between an aligned place in a row and the end of the row fill whole subtrees. */
  lemma RestOfRow(s: nat, side: nat, w: nat, q: nat)
    requires w > 0 && side == q * w && s % w == 0 && s <= side
    ensures IsMultiple(side - s, w)
  {
    MulSub(q, s / w, w);
    if q < s / w {
      MulSucc(q, s / w, w);
    }
    ProductIsMultiple(side - s, q - s / w, w);
  }

  /** The part of row `i` that a blob takes up, in terms of the whole square. */
  lemma RowPart(start: nat, len: nat, side: nat, i: nat)
    requires side > 0 && len > 0 && start / side <= i <= (start + len - 1) / side
    ensures var s := if i == start / side then start % side else 0;
            var e := if i == (start + len - 1) / side then start + len - i * side else side;
            && 0 <= s < e <= side
            && i * side + s == (if i == start / side then start else i * side)
  {
    var last := start + len - 1;
    assert start == (start / side) * side + start % side;
    assert last == (last / side) * side + last % side;
  }

  /** The body of the row loop: the walks for shares [start, end) of one row. */
  method PathsInRow(side: nat, width: nat, row: nat, ghost base: nat, start: nat, end: nat)
    returns (paths: seq<Path>)
    requires IsPow2(side) && IsPow2(width)
    requires start < end <= side && start % WidthInRow(side, width) == 0 && base == row * side
    ensures CoversAll(side, paths, base + start, Mountains(end - start, WidthInRow(side, width)))
  {
    ghost var pos := AlignedInRow(side, WidthInRow(side, width), start);
    var maxDepth := Log2(side);
    var minDepth := maxDepth - Log2(width);
    Log2Monotone(side, width);
    var coords, steps := CalculateSubTreeRootCoordinates(maxDepth, minDepth, start, end);
    paths := AppendRow(coords, row);
    RowPathsCover(side, Floor(minDepth), coords, row, base, start, end);
    TilesAreMountains(maxDepth, Floor(minDepth), coords, start, end, Floor(minDepth), pos);
  }

  /** Subtrees of a row are no wider than the row. */
  function WidthInRow(side: nat, width: nat): (w: nat)
    ensures w <= side && w <= width && (w == side || w == width)
  {
    if width <= side then width else side
  }

  lemma AlignedToRowWidth(side: nat, width: nat, start: nat)
    requires IsPow2(side) && IsPow2(width) && start % width == 0
    ensures IsPow2(WidthInRow(side, width)) && start % WidthInRow(side, width) == 0
  {
    hide IsPow2;
    if width > side {
      var q := Pow2Divides(side, width);
      MultipleOfPart(start, width, q, side);
    }
  }

  lemma MultipleOfPart(start: nat, width: nat, q: nat, side: nat)
    requires side > 0 && width > 0 && width == q * side && start % width == 0
    ensures start % side == 0
  {
    var m := start / width;
    assert start == m * width;
    MulAssoc(m, q, side);
    DivModUnique(start, m * q, 0, side);
  }

  /** What one pass over row `i`, whose first share is `base`, adds to the shares covered so far. */
  lemma RowProgress(start: nat, len: nat, side: nat, w: nat, i: nat, base: nat, covered: nat)
    requires IsPow2(side) && IsPow2(w) && w <= side && len > 0 && start % w == 0
    requires start / side <= i <= (start + len - 1) / side && base == i * side
    requires start + covered == (if i == start / side then start else base) && IsMultiple(covered, w)
    ensures var s := if i == start / side then start % side else 0;
            var e := if i == (start + len - 1) / side then start + len - base else side;
            && 0 <= s < e <= side && s % w == 0
            && base + s == start + covered
            && base + side == (i + 1) * side
            && (i == (start + len - 1) / side ==> covered + (e - s) == len)
            && (i < (start + len - 1) / side ==>
                  start + covered + (e - s) == base + side && IsMultiple(covered + (e - s), w))
  {
    var q := Pow2Divides(w, side);
    RowPart(start, len, side, i);
    AlignedRemainder(start, side, w, q);
    assert (i + 1) * side == i * side + side;
    if i < (start + len - 1) / side {
      var s := if i == start / side then start % side else 0;
      RestOfRow(s, side, w, q);
      SumIsMultiple(covered, side - s, w);
    }
  }

  lemma NothingCovered(side: nat, width: nat, start: nat)
    requires IsPow2(side) && IsPow2(width)
    ensures side > 0 && width > 0 && IsMultiple(0, width) && CoversAll(side, [], start, Mountains(0, width))
  {
  }

  /** Go's integer division, which truncates toward zero. */
  function Quotient(a: int, b: nat): (q: int)
    requires b > 0
  {
    if a < 0 then -((-a) / b) else a / b
  }

  /** When calculateCommitmentPaths returns: a blob without shares must not leave its loop an empty range
      of a row, on which calculateSubTreeRootCoordinates runs for ever. */
  predicate PathsReturn(side: nat, start: nat, blobShareLen: nat) {
    blobShareLen > 0 || (side > 0 && start % side == 0 && (start > 0 || side == 1))
  }

  lemma LastRow(side: nat, start: nat, len: nat)
    requires side > 0 && PathsReturn(side, start, len)
    ensures var endRow := Quotient(start + len - 1, side);
            && (len > 0 ==> endRow == (start + len - 1) / side && start / side <= endRow)
            && (len == 0 ==> endRow == start / side - 1)
  {
    if len > 0 {
      DivMonotone(start, start + len - 1, side);
    } else if start > 0 {
      assert start == (start / side) * side;
      assert start - 1 == (start / side - 1) * side + (side - 1);
      DivModUnique(start - 1, start / side - 1, side - 1, side);
    }
  }

  lemma SameLastRow(side: nat, start: nat)
    requires side > 0 && !PathsReturn(side, start, 0)
    ensures Quotient(start - 1, side) == start / side && start - (start / side) * side == start % side
  {
    assert start == (start / side) * side + start % side;
    if start > 0 {
      DivModUnique(start - 1, start / side, start % side - 1, side);
    }
  }

  /** Otherwise the first row's range is empty, with start and end the same, and the search for its
      subtrees never returns. */
  lemma PathsDiverge(side: nat, start: nat, maxDepth: nat, minDepth: nat, steps: nat)
    requires side > 0 && !PathsReturn(side, start, 0)
    ensures var startRow, endRow := start / side, Quotient(start - 1, side);
            && startRow == endRow && start % side == start - endRow * side
            && Run(maxDepth, minDepth, start % side, start - endRow * side, steps).Some?
  {
    hide Run;
    SameLastRow(side, start);
    EmptyRangeDiverges(maxDepth, minDepth, start % side, start % side, steps);
  }

  lemma NoSharesNoPadding(start: nat, threshold: nat)
    requires threshold > 0
    ensures NextShareIndex(start, 0, threshold) == start
  {
    BlobMinSquareSizeLeast(0, 1);
  }

  /** The row loop of calculateCommitmentPaths, for a blob that starts at a multiple of `width`. */
  method PathsInRows(side: nat, width: nat, start: nat, blobShareLen: nat) returns (paths: seq<Path>)
    requires IsPow2(side) && IsPow2(width) && start % width == 0 && PathsReturn(side, start, blobShareLen)
    ensures CoversAll(side, paths, start, Mountains(blobShareLen, WidthInRow(side, width)))
  {
    hide CoversAll, IsPow2, IsMultiple, WidthInRow, Mountains;
    ghost var w := WidthInRow(side, width);
    AlignedToRowWidth(side, width, start);
    NothingCovered(side, w, start);
    LastRow(side, start, blobShareLen);
    var startRow, endRow := start / side, Quotient(start + blobShareLen - 1, side);
    var normalizedStartIndex := start % side;
    var normalizedEndIndex := start + blobShareLen - endRow * side;
    paths := [];
    ghost var covered: nat := 0;
    var i: nat := startRow;
    ghost var base: nat := startRow * side;
    while i <= endRow
      invariant startRow <= i <= endRow + 1 && base == i * side
      invariant i <= endRow ==> start + covered == (if i == startRow then start else base)
      invariant i <= endRow ==> IsMultiple(covered, w)
      invariant i == endRow + 1 ==> covered == blobShareLen
      invariant CoversAll(side, paths, start, Mountains(covered, w))
    {
      var rowStart := if i == startRow then normalizedStartIndex else 0;
      var rowEnd := if i == endRow then normalizedEndIndex else side;
      RowProgress(start, blobShareLen, side, w, i, base, covered);
      var rowPaths := PathsInRow(side, width, i, base, rowStart, rowEnd);
      assert CoversAll(side, rowPaths, start + covered, Mountains(rowEnd - rowStart, w));
      ExtendCover(side, paths, rowPaths, start, covered, rowEnd - rowStart, w);
      paths := paths + rowPaths;
      covered, base := covered + (rowEnd - rowStart), base + side;
      i := i + 1;
    }
  }

  /** calculateCommitmentPaths: the walks lead, in order and without crossing a row, to the subtrees
      whose sizes are the Merkle mountain range of the blob. */
  method CalculateCommitmentPaths(side: nat, start0: nat, blobShareLen: nat, threshold: nat)
    returns (paths: seq<Path>)
    requires IsPow2(side) && threshold > 0 && PathsReturn(side, start0, blobShareLen)
    ensures WidthInRow(side, SubTreeWidth(blobShareLen, threshold)) > 0
    ensures CoversAll(side, paths, NextShareIndex(start0, blobShareLen, threshold),
                      Mountains(blobShareLen, WidthInRow(side, SubTreeWidth(blobShareLen, threshold))))
  {
    SubTreeWidthIsPow2(blobShareLen, threshold);
    if blobShareLen == 0 {
      NoSharesNoPadding(start0, threshold);
    }
    hide SubTreeWidth;
    var start := NextShareIndex(start0, blobShareLen, threshold);
    paths := PathsInRows(side, SubTreeWidth(blobShareLen, threshold), start, blobShareLen);
  }

  lemma ExtendCover(
    side: nat, ps: seq<Path>, qs: seq<Path>, start: nat, covered: nat, more: nat, w: nat)
    requires IsPow2(side) && IsPow2(w) && IsMultiple(covered, w)
    requires CoversAll(side, ps, start, Mountains(covered, w))
    requires CoversAll(side, qs, start + covered, Mountains(more, w))
    ensures CoversAll(side, ps + qs, start, Mountains(covered + more, w))
  {
    MountainsSplit(covered, more, w);
    MountainsShape(covered, w);
    CoversAllAppend(side, ps, qs, start, Mountains(covered, w), Mountains(more, w));
  }

  method AppendRow(coords: seq<Coord>, row: nat) returns (paths: seq<Path>)
    ensures paths == RowPaths(coords, row)
  {
    paths := [];
    for j := 0 to |coords|
      invariant paths == RowPaths(coords, row)[..j]
    {
      var instructions := GenSubTreeRootPath(coords[j].depth, coords[j].position);
      paths := paths + [Path(instructions, row)];
    }
  }
}
