/** Reading a blob's commitment back from the rows of the square (pkg/inclusion/get_commit.go). */
module Commitment {
  import opened ByteSeqs
  import opened CommitmentPaths
  import opened CommitmentRules
  import opened Mountain
  import opened Nmt
  import opened Paths
  import opened PowersOfTwo
  import opened Results
  import opened SubtreeCacher

  /** The roots of consecutive trees of the given sizes over `leaves`. */
  function SubtreeRoots(h: Hasher, leaves: seq<Bytes>, sizes: seq<nat>): (r: seq<Bytes>)
    requires Sum(sizes) == |leaves| && forall i :: 0 <= i < |sizes| ==> IsPow2(sizes[i])
    ensures |r| == |sizes|
    decreases |sizes|
  {
    if sizes == [] then []
    else [Root(h, leaves[..sizes[0]])] + SubtreeRoots(h, leaves[sizes[0]..], sizes[1..])
  }

  lemma {:induction false} SubtreeRootAt(h: Hasher, leaves: seq<Bytes>, sizes: seq<nat>, i: nat)
    requires Sum(sizes) == |leaves| && forall i :: 0 <= i < |sizes| ==> IsPow2(sizes[i])
    requires i < |sizes|
    ensures Sum(sizes[..i]) + sizes[i] <= |leaves|
    ensures SubtreeRoots(h, leaves, sizes)[i] == Root(h, leaves[Sum(sizes[..i])..Sum(sizes[..i]) + sizes[i]])
    decreases |sizes|
  {
    hide IsPow2, Root;
    SumSnoc(sizes, i);
    if i == 0 {
      assert sizes[..0] == [];
    } else {
      SubtreeRootAt(h, leaves[sizes[0]..], sizes[1..], i - 1);
      assert sizes[..i][1..] == sizes[1..][..i - 1];
      SliceOfSuffix(leaves, sizes[0], Sum(sizes[1..][..i - 1]), sizes[i]);
    }
  }

  lemma SliceOfSuffix<T>(s: seq<T>, a: nat, b: nat, n: nat)
    requires a + b + n <= |s|
    ensures s[a..][b..b + n] == s[a + b..a + b + n]
  {
  }

  /** The commitment to a run of leaves: the Merkle root over the roots of its mountain range. */
  function CommitmentOf(h: Hasher, merkle: seq<Bytes> -> Bytes, leaves: seq<Bytes>, threshold: nat): (r: Bytes)
    requires threshold > 0
  {
    var w := SubTreeWidth(|leaves|, threshold);
    SubTreeWidthIsPow2(|leaves|, threshold);
    MountainsShape(|leaves|, w);
    merkle(SubtreeRoots(h, leaves, Mountains(|leaves|, w)))
  }

  /** Rows of an extended square of the given original side. */
  ghost predicate ExtendedRows(rows: seq<seq<Bytes>>, side: nat) {
    |rows| == 2 * side && forall r :: 0 <= r < |rows| ==> |rows[r]| == 2 * side
  }

  /** `rows` are the leaves of an extended square, in which those of the original square fill the upper
      left quarter row by row. */
  ghost predicate Extends(rows: seq<seq<Bytes>>, leaves: seq<Bytes>, side: nat) {
    && |leaves| == side * side && ExtendedRows(rows, side)
    && (forall r, c :: 0 <= r < side && 0 <= c < side ==> InSquare(r, c, side) && rows[r][c] == leaves[r * side + c])
  }

  predicate InSquare(r: nat, c: nat, side: nat) {
    0 <= r * side + c < side * side
  }

  /** The left halves of the rows, one after the other. */
  function LeftLeaves(rows: seq<seq<Bytes>>): (r: seq<Bytes>)
  {
    if rows == [] then [] else LeftLeaves(rows[..|rows| - 1]) + Left(rows[|rows| - 1])
  }

  lemma {:induction false} LeftLeavesOfRow(rows: seq<seq<Bytes>>, side: nat, r: nat)
    requires r < |rows| && forall k :: 0 <= k < |rows| ==> |rows[k]| == 2 * side
    ensures |LeftLeaves(rows)| == |rows| * side && r * side + side <= |rows| * side
    ensures LeftLeaves(rows)[r * side..r * side + side] == Left(rows[r])
    decreases |rows|
  {
    hide Left;
    var n := |rows| - 1;
    assert |Left(rows[n])| == side && |rows| * side == n * side + side;
    LeftLeavesLength(rows[..n], side);
    if r < n {
      LeftLeavesOfRow(rows[..n], side, r);
    }
  }

  lemma {:induction false} LeftLeavesLength(rows: seq<seq<Bytes>>, side: nat)
    requires forall k :: 0 <= k < |rows| ==> |rows[k]| == 2 * side
    ensures |LeftLeaves(rows)| == |rows| * side
  {
    if rows != [] {
      LeftLeavesLength(rows[..|rows| - 1], side);
      assert |rows| * side == (|rows| - 1) * side + side;
    }
  }

  /** A run of leaves within the left half of one row. */
  lemma RowRunOfLeft(rows: seq<seq<Bytes>>, side: nat, r: nat, base: nat, first: nat, size: nat)
    requires ExtendedRows(rows, side) && r < |rows| && first + size <= side && base == r * side
    ensures base + first + size <= |LeftLeaves(rows)|
    ensures Left(rows[r])[first..first + size] == LeftLeaves(rows)[base + first..base + first + size]
  {
    hide Left, LeftLeaves;
    LeftLeavesOfRow(rows, side, r);
    SliceOfSlice(LeftLeaves(rows), base, side, first, size);
  }

  /** In an extended square the leaves of the original square come first among them. */
  lemma OriginalComesFirst(rows: seq<seq<Bytes>>, leaves: seq<Bytes>, side: nat)
    requires Extends(rows, leaves, side)
    ensures |leaves| <= |LeftLeaves(rows)| && LeftLeaves(rows)[..|leaves|] == leaves
  {
    hide LeftLeaves;
    LeftLeavesLength(rows, side);
    MulAssoc(2, side, side);
    forall k | 0 <= k < |leaves| ensures LeftLeaves(rows)[k] == leaves[k] {
      var r, c := k / side, k % side;
      RowOfLeaf(k, side);
      LeftLeavesOfRow(rows, side, r);
      assert LeftLeaves(rows)[r * side..r * side + side][c] == Left(rows[r])[c] == rows[r][c];
    }
  }

  lemma RowOfLeaf(k: nat, side: nat)
    requires k < side * side
    ensures side > 0 && 0 <= k / side < side && 0 <= k % side < side && k == (k / side) * side + k % side
  {
    if k / side >= side {
      MulSucc(side, k / side + 1, side);
    }
  }

  lemma RowInSquare(r: nat, side: nat, first: nat, size: nat)
    requires r < side && first + size <= side
    ensures 0 <= r * side + first && r * side + first + size <= side * side
  {
    MulSucc(r, side, side);
  }

  /** A run of leaves within one row is a run of the flat square. */
  lemma RowSlice(rows: seq<seq<Bytes>>, leaves: seq<Bytes>, side: nat, r: nat, base: nat, first: nat, size: nat)
    requires Extends(rows, leaves, side) && r < side && first + size <= side && base == r * side
    requires base + first + size <= |leaves|
    ensures Left(rows[r])[first..first + size] == leaves[base + first..base + first + size]
  {
    var a, b := Left(rows[r])[first..first + size], leaves[base + first..base + first + size];
    forall i | 0 <= i < size ensures a[i] == b[i] {
      assert InSquare(r, first + i, side);
    }
  }

  lemma DoubleSide(side: nat)
    requires IsPow2(side)
    ensures IsPow2(2 * side) && Log2(2 * side) == Log2(side) + 1
  {
    assert (2 * side) / 2 == side;
  }

  /** Following one path, through the left half of its row, finds the root of the leaves it covers. */
  lemma PathFindsRoot(
    h: Hasher, caches: map<nat, map<Bytes, Children>>, rows: seq<seq<Bytes>>, side: nat, p: Path, first: nat, size: nat)
    requires IsPow2(side) && IsPow2(size) && ExtendedRows(rows, side) && RecordsAll(h, caches, rows)
    requires Covers(side, p, first, size) && first + size <= |LeftLeaves(rows)|
    ensures p.row < |rows| && IsPow2(|rows[p.row]|) && p.row in caches && |LeftLeaves(rows)[first..first + size]| == size
    ensures Walk(caches[p.row], Root(h, rows[p.row]), [false] + p.instructions)
         == Ok(Root(h, LeftLeaves(rows)[first..first + size]))
  {
    hide IsPow2, Root, Walk, FirstLeaf, Width, Position, Records, InnerNodes, Left, LeftLeaves;
    var at := FirstLeaf(Log2(side), |p.instructions|, Position(p.instructions));
    var base := p.row * side;
    LeftLeavesLength(rows, side);
    if p.row >= |rows| {
      RowAtLeast(p.row, |rows|, side);
    }
    PathInRow(h, caches[p.row], rows[p.row], side, p.instructions);
    RowRunOfLeft(rows, side, p.row, base, at, size);
  }

  lemma RowAtLeast(row: nat, n: nat, side: nat)
    requires row >= n
    ensures row * side >= n * side
  {
    MulSucc(n, row + 1, side);
    assert (row + 1) * side == row * side + side;
  }

  lemma PathInRow(h: Hasher, cache: map<Bytes, Children>, row: seq<Bytes>, side: nat, path: seq<bool>)
    requires IsPow2(side) && |row| == 2 * side && |path| <= Log2(side)
    requires IsPow2(|row|) && Records(h, cache, InnerNodes(h, row))
    ensures var first := FirstLeaf(Log2(side), |path|, Position(path));
            var size := Width(Log2(side), |path|);
            && first + size <= side && IsPow2(size)
            && Walk(cache, Root(h, row), [false] + path) == Ok(Root(h, Left(row)[first..first + size]))
  {
    hide IsPow2, Log2, Root, Walk, FirstLeaf, Width, Position, Records, InnerNodes, Descend, Left;
    DoubleSide(side);
    WidthIsPow2(Log2(side), |path|);
    WalkFindsSubtree(h, cache, row, [false] + path);
    DescendLeft(row, path);
    DescendIsSlice(Left(row), path);
  }

  lemma WidthIsPow2(maxDepth: nat, depth: nat)
    requires depth <= maxDepth
    ensures IsPow2(Width(maxDepth, depth))
  {
    Pow2IsPow2(maxDepth - depth);
  }

  lemma DescendLeft(row: seq<Bytes>, path: seq<bool>)
    requires IsPow2(|row|) && |path| < Log2(|row|)
    ensures IsPow2(|Left(row)|) && Descend(row, [false] + path) == Descend(Left(row), path)
  {
    assert ([false] + path)[1..] == path;
  }

  /** What the walks must find for the leaves [s, s + len). */
  ghost function Wanted(h: Hasher, leaves: seq<Bytes>, s: nat, len: nat, w: nat): (r: seq<Bytes>)
    requires IsPow2(w) && s + len <= |leaves|
    ensures |r| == |Mountains(len, w)|
  {
    MountainsShape(len, w);
    SubtreeRoots(h, leaves[s..s + len], Mountains(len, w))
  }

  lemma WantedAt(h: Hasher, leaves: seq<Bytes>, s: nat, len: nat, w: nat, i: nat)
    requires IsPow2(w) && s + len <= |leaves| && i < |Mountains(len, w)|
    ensures var sizes := Mountains(len, w);
            var first := s + Sum(sizes[..i]);
            && IsPow2(sizes[i]) && first + sizes[i] <= s + len
            && Wanted(h, leaves, s, len, w)[i] == Root(h, leaves[first..first + sizes[i]])
  {
    hide IsPow2, Root, Mountains, SubtreeRoots;
    MountainsShape(len, w);
    IsPow2Positive(w);
    var sizes := Mountains(len, w);
    SubtreeRootAt(h, leaves[s..s + len], sizes, i);
    SliceOfSlice(leaves, s, len, Sum(sizes[..i]), sizes[i]);
  }

  /** Following the i-th path finds the i-th root that makes up the commitment to those shares. */
  lemma PathsFindCommitment(
    h: Hasher, caches: map<nat, map<Bytes, Children>>, rows: seq<seq<Bytes>>,
    side: nat, paths: seq<Path>, start: nat, len: nat, w: nat, i: nat)
    requires IsPow2(side) && ExtendedRows(rows, side) && RecordsAll(h, caches, rows)
    requires IsPow2(w) && start + len <= |LeftLeaves(rows)|
    requires CoversAll(side, paths, start, Mountains(len, w)) && i < |paths|
    ensures paths[i].row < |rows| && IsPow2(|rows[paths[i].row]|)
    ensures Walk(caches[paths[i].row], Root(h, rows[paths[i].row]), [false] + paths[i].instructions)
         == Ok(Wanted(h, LeftLeaves(rows), start, len, w)[i])
  {
    hide IsPow2, Root, Walk, Mountains, Covers, ExtendedRows, RecordsAll, Wanted, LeftLeaves;
    IsPow2Positive(w);
    WantedAt(h, LeftLeaves(rows), start, len, w, i);
    var sizes := Mountains(len, w);
    PathFindsRoot(h, caches, rows, side, paths[i], start + Sum(sizes[..i]), sizes[i]);
  }

  lemma SliceOfSlice<T>(s: seq<T>, a: nat, len: nat, b: nat, n: nat)
    requires b + n <= len && a + len <= |s|
    ensures s[a..a + len][b..b + n] == s[a + b..a + b + n]
  {
    var x, y := s[a..a + len][b..b + n], s[a + b..a + b + n];
    forall i | 0 <= i < n ensures x[i] == y[i] {
      assert s[a..a + len][b + i] == s[a + b + i];
    }
  }

  /** What getSubTreeRoot finds for a path: the walk starts to the left, where the original square is. */
  function ReadRoot(caches: map<nat, map<Bytes, Children>>, rowRoots: seq<Bytes>, p: Path): (r: Result<Bytes>)
    requires forall i: nat :: i < |caches| ==> i in caches
  {
    if |caches| != |rowRoots| then Err(UnexpectedRowRoots)
    else if p.row >= |caches| then Err(RowOutOfRange)
    else Walk(caches[p.row], rowRoots[p.row], [false] + p.instructions)
  }

  /** The roots at the ends of all paths, or the first error. */
  function ReadRoots(caches: map<nat, map<Bytes, Children>>, rowRoots: seq<Bytes>, paths: seq<Path>)
    : (r: Result<seq<Bytes>>)
    requires forall i: nat :: i < |caches| ==> i in caches
    decreases |paths|
  {
    if paths == [] then Ok([])
    else
      match ReadRoot(caches, rowRoots, paths[0])
      case Err(e) => Err(e)
      case Ok(root) => Prepend([root], ReadRoots(caches, rowRoots, paths[1..]))
  }

  /** The loop of GetCommitment. */
  method CollectRoots(cacher: EdsSubTreeRootCacher, rowRoots: seq<Bytes>, paths: seq<Path>)
    returns (r: Result<seq<Bytes>>)
    requires forall i: nat :: i < |cacher.caches| ==> i in cacher.caches
    ensures |cacher.Snapshot()| == |cacher.caches|
    ensures r == ReadRoots(cacher.Snapshot(), rowRoots, paths)
  {
    hide Walk;
    SameKeys(cacher);
    ghost var caches := cacher.Snapshot();
    var subTreeRoots := [];
    PrependNothing(ReadRoots(caches, rowRoots, paths));
    assert paths[0..] == paths;
    for i := 0 to |paths|
      invariant ReadRoots(caches, rowRoots, paths) == Prepend(subTreeRoots, ReadRoots(caches, rowRoots, paths[i..]))
    {
      assert paths[i..][1..] == paths[i + 1..];
      var originalSquarePath := [false] + paths[i].instructions;
      var subTreeRoot := cacher.GetSubTreeRoot(rowRoots, paths[i].row, originalSquarePath);
      assert subTreeRoot == ReadRoot(caches, rowRoots, paths[i]);
      if subTreeRoot.Err? {
        return Err(subTreeRoot.error);
      }
      PrependPrepend(subTreeRoots, [subTreeRoot.value], ReadRoots(caches, rowRoots, paths[i + 1..]));
      subTreeRoots := subTreeRoots + [subTreeRoot.value];
    }
    assert paths[|paths|..] == [] && subTreeRoots + [] == subTreeRoots;
    r := Ok(subTreeRoots);
  }

  lemma SameKeys(cacher: EdsSubTreeRootCacher)
    ensures cacher.Snapshot().Keys == cacher.caches.Keys && |cacher.Snapshot()| == |cacher.caches|
  {
    assert |cacher.Snapshot().Keys| == |cacher.Snapshot()| && |cacher.caches.Keys| == |cacher.caches|;
  }

  lemma IsPow2Positive(w: nat)
    requires IsPow2(w)
    ensures w > 0
  {
  }

  /** The row roots belong to the rows, and the caches hold all their inner nodes. */
  ghost predicate Cached(
    h: Hasher, caches: map<nat, map<Bytes, Children>>, rows: seq<seq<Bytes>>, rowRoots: seq<Bytes>)
  {
    && RecordsAll(h, caches, rows) && |caches| == |rowRoots| == |rows|
    && forall r :: 0 <= r < |rows| ==> IsPow2(|rows[r]|) && rowRoots[r] == Root(h, rows[r])
  }

  /** Complete caches give the roots of the mountain range from the i-th on. */
  lemma {:induction false} ReadRootsFinds(
    h: Hasher, caches: map<nat, map<Bytes, Children>>, rows: seq<seq<Bytes>>, rowRoots: seq<Bytes>,
    side: nat, paths: seq<Path>, s: nat, len: nat, w: nat, i: nat)
    requires IsPow2(side) && ExtendedRows(rows, side) && Cached(h, caches, rows, rowRoots)
    requires IsPow2(w) && CoversAll(side, paths, s, Mountains(len, w)) && s + len <= |LeftLeaves(rows)|
    requires i <= |paths| && forall r: nat :: r < |caches| ==> r in caches
    ensures |Wanted(h, LeftLeaves(rows), s, len, w)| == |paths|
    ensures ReadRoots(caches, rowRoots, paths[i..]) == Ok(Wanted(h, LeftLeaves(rows), s, len, w)[i..])
    decreases |paths| - i
  {
    hide IsPow2, Root, Walk, Mountains, SubtreeRoots, RecordsAll, LeftLeaves, ExtendedRows, Wanted, Covers;
    IsPow2Positive(w);
    var want := Wanted(h, LeftLeaves(rows), s, len, w);
    if i < |paths| {
      PathsFindCommitment(h, caches, rows, side, paths, s, len, w, i);
      ReadRootsFinds(h, caches, rows, rowRoots, side, paths, s, len, w, i + 1);
      assert paths[i..][1..] == paths[i + 1..] && want[i..] == [want[i]] + want[i + 1..];
    } else {
      assert paths[i..] == [] && want[i..] == [];
    }
  }

  /** An aligned blob that starts early enough ends in the rows of the extended square. */
  lemma AlignedPlaceInRows(rows: seq<seq<Bytes>>, side: nat, start: nat, len: nat, threshold: nat)
    requires ExtendedRows(rows, side) && IsPow2(side) && threshold > 0 && start + len <= side * side
    ensures SubTreeWidth(len, threshold) <= side
    ensures NextShareIndex(start, len, threshold) + len <= |LeftLeaves(rows)|
  {
    hide SubTreeWidth, BlobMinSquareSize, LeftLeaves;
    BlobMinSquareSizeLeast(len, side);
    LeftLeavesLength(rows, side);
    assert side * side >= side;
    MulAssoc(2, side, side);
  }

  /** GetCommitment: an error when the blob does not fit, otherwise the Merkle root over what is read at the
      ends of the paths that cover the blob's aligned place with its mountain range, or the first error. */
  method GetCommitment(
    merkle: seq<Bytes> -> Bytes, cacher: EdsSubTreeRootCacher, rowRoots: seq<Bytes>,
    start: nat, blobShareLen: nat, threshold: nat)
    returns (r: Result<Bytes>, ghost paths: seq<Path>)
    requires IsPow2(|rowRoots| / 2) && threshold > 0 && forall i: nat :: i < |cacher.caches| ==> i in cacher.caches
    requires var side := |rowRoots| / 2;
             start + blobShareLen > side * side || PathsReturn(side, start, blobShareLen)
    ensures var side := |rowRoots| / 2;
            start + blobShareLen > side * side ==> r == Err(BlobOutsideSquare)
    ensures var side := |rowRoots| / 2;
            start + blobShareLen <= side * side ==>
              && ReachPlace(side, paths, start, blobShareLen, threshold)
              && (forall i: nat :: i < |cacher.Snapshot()| ==> i in cacher.Snapshot())
              && r == MerkleOf(merkle, ReadRoots(cacher.Snapshot(), rowRoots, paths))
  {
    hide IsPow2, Walk, Mountains, NextShareIndex, SubTreeWidth, CoversAll, BlobMinSquareSize;
    var squareSize := |rowRoots| / 2;
    paths := [];
    if start + blobShareLen > squareSize * squareSize {
      return Err(BlobOutsideSquare), paths;
    }
    WidthWithinSide(squareSize, start, blobShareLen, threshold);
    SubTreeWidthIsPow2(blobShareLen, threshold);
    var walks := CalculateCommitmentPaths(squareSize, start, blobShareLen, threshold);
    paths := walks;
    SameKeys(cacher);
    var subTreeRoots := CollectRoots(cacher, rowRoots, walks);
    if subTreeRoots.Err? {
      return Err(subTreeRoots.error), paths;
    }
    r := Ok(merkle(subTreeRoots.value));
  }

  function MerkleOf(merkle: seq<Bytes> -> Bytes, roots: Result<seq<Bytes>>): (r: Result<Bytes>)
  {
    match roots
    case Err(e) => Err(e)
    case Ok(rs) => Ok(merkle(rs))
  }

  /** The paths lead to the subtrees of the mountain range at the blob's aligned place. */
  ghost predicate ReachPlace(side: nat, paths: seq<Path>, start: nat, len: nat, threshold: nat)
    requires IsPow2(side) && threshold > 0
  {
    CoversAll(side, paths, NextShareIndex(start, len, threshold), Mountains(len, SubTreeWidth(len, threshold)))
  }

  lemma WidthWithinSide(side: nat, start: nat, len: nat, threshold: nat)
    requires IsPow2(side) && threshold > 0 && start + len <= side * side
    ensures WidthInRow(side, SubTreeWidth(len, threshold)) == SubTreeWidth(len, threshold)
  {
    hide BlobMinSquareSize;
    BlobMinSquareSizeLeast(len, side);
  }

  /** From caches that hold the rows, what is read is the commitment to the leaves at the blob's aligned
      place in the left halves of the rows. */
  lemma CommitmentRead(
    h: Hasher, merkle: seq<Bytes> -> Bytes, caches: map<nat, map<Bytes, Children>>, rows: seq<seq<Bytes>>,
    rowRoots: seq<Bytes>, side: nat, paths: seq<Path>, start: nat, len: nat, threshold: nat)
    requires IsPow2(side) && ExtendedRows(rows, side) && Cached(h, caches, rows, rowRoots)
    requires threshold > 0 && start + len <= side * side && ReachPlace(side, paths, start, len, threshold)
    requires forall r: nat :: r < |caches| ==> r in caches
    ensures var s := NextShareIndex(start, len, threshold);
            && s + len <= |LeftLeaves(rows)|
            && MerkleOf(merkle, ReadRoots(caches, rowRoots, paths))
               == Ok(CommitmentOf(h, merkle, LeftLeaves(rows)[s..s + len], threshold))
  {
    hide IsPow2, Mountains, SubtreeRoots, Cached, NextShareIndex, SubTreeWidth, CoversAll, LeftLeaves, ExtendedRows, ReadRoots;
    AlignedPlaceInRows(rows, side, start, len, threshold);
    SubTreeWidthIsPow2(len, threshold);
    ReadRootsFinds(h, caches, rows, rowRoots, side, paths, NextShareIndex(start, len, threshold), len,
                   SubTreeWidth(len, threshold), 0);
    assert paths[0..] == paths;
    var want := Wanted(h, LeftLeaves(rows), NextShareIndex(start, len, threshold), len, SubTreeWidth(len, threshold));
    assert want[0..] == want;
  }

  /** When the aligned place ends in the original square, those are the leaves of the shares stored there. */
  lemma PlaceInOriginal(rows: seq<seq<Bytes>>, leaves: seq<Bytes>, side: nat, s: nat, len: nat)
    requires Extends(rows, leaves, side) && s + len <= side * side
    ensures s + len <= |LeftLeaves(rows)| && LeftLeaves(rows)[s..s + len] == leaves[s..s + len]
  {
    hide LeftLeaves;
    OriginalComesFirst(rows, leaves, side);
    assert LeftLeaves(rows)[..|leaves|][s..s + len] == LeftLeaves(rows)[s..s + len];
  }

  /** Otherwise the last of them is a leaf of a row at or below `side`, behind the original square. */
  lemma PlaceReachesParity(rows: seq<seq<Bytes>>, side: nat, s: nat, len: nat)
    requires ExtendedRows(rows, side) && len > 0 && side * side < s + len <= |LeftLeaves(rows)|
    ensures var i := s + len - 1;
            && side > 0 && side <= i / side < |rows| && 0 <= i % side < side
            && LeftLeaves(rows)[s..s + len][len - 1] == rows[i / side][i % side]
  {
    hide LeftLeaves;
    var i := s + len - 1;
    LeftLeavesLength(rows, side);
    RowBehind(side, i, |rows|);
    LeftLeavesOfRow(rows, side, i / side);
    assert LeftLeaves(rows)[(i / side) * side..(i / side) * side + side][i % side] == Left(rows[i / side])[i % side];
  }

  lemma RowBehind(side: nat, i: nat, n: nat)
    requires side * side <= i < n * side
    ensures side > 0 && side <= i / side < n && i == (i / side) * side + i % side
  {
    assert side > 0;
    if i / side < side {
      MulSucc(i / side, side, side);
    }
    if i / side >= n {
      MulSucc(n, i / side + 1, side);
    }
  }

  /** An aligned start stays where it is, so its place ends where the blob fits. */
  lemma AlreadyAligned(start: nat, len: nat, threshold: nat)
    requires threshold > 0 && start % SubTreeWidth(len, threshold) == 0
    ensures NextShareIndex(start, len, threshold) == start
  {
    hide SubTreeWidth;
  }

  /** Another start may move on behind the square: 65 shares that end with a square of side 16 from share 191
      on are looked for from share 192 on. */
  lemma UnalignedStartLeaves()
    ensures IsPow2(16) && 191 + 65 <= 16 * 16
    ensures NextShareIndex(191, 65, 64) == 192 && 192 + 65 > 16 * 16
  {
    hide CeilSqrt, BlobMinSquareSize;
    assert IsPow2(8);
    assert RoundUp(2) == 2 && CeilDiv(65, 64) == 2;
    BlobMinSquareSizeFits(65);
    assert BlobMinSquareSize(65) != 1;
  }
}
