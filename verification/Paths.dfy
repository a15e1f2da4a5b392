/** Paths to the subtree roots of a blob (pkg/inclusion/paths.go). */
module Paths {
  import opened PowersOfTwo
  import opened Mountain
  import opened Results

  /** A node of a balanced binary tree: depth 0 is the root, position 0 the leftmost node. */
  datatype Coord = Coord(depth: nat, position: nat) {
    function Climb(): (r: Coord)
      requires depth > 0
    {
      Coord(depth - 1, position / 2)
    }

    predicate CanClimbRight(minDepth: int) {
      position % 2 == 0 && depth > minDepth
    }
  }

  /** Number of leaves under a node at `depth` in a tree of depth `maxDepth`. */
  function Width(maxDepth: nat, depth: nat): (w: nat)
    requires depth <= maxDepth
    ensures w >= 1
  {
    Pow2(maxDepth - depth)
  }

  /** The leftmost leaf under a node: a node at (d, p) sits above (d + 1, 2p). */
  function FirstLeaf(maxDepth: nat, depth: nat, position: nat): (leaf: nat)
    requires depth <= maxDepth
    decreases maxDepth - depth
  {
    if depth == maxDepth then position else FirstLeaf(maxDepth, depth + 1, 2 * position)
  }

  function Start(maxDepth: nat, c: Coord): (leaf: nat)
    requires c.depth <= maxDepth
  {
    FirstLeaf(maxDepth, c.depth, c.position)
  }

  /** The first leaf to the right of the node. */
  function End(maxDepth: nat, c: Coord): (leaf: nat)
    requires c.depth <= maxDepth
  {
    Start(maxDepth, c) + Width(maxDepth, c.depth)
  }

  lemma {:induction false} FirstLeafNext(maxDepth: nat, depth: nat, position: nat)
    requires depth <= maxDepth
    ensures FirstLeaf(maxDepth, depth, position + 1)
         == FirstLeaf(maxDepth, depth, position) + Width(maxDepth, depth)
    decreases maxDepth - depth
  {
    if depth < maxDepth {
      FirstLeafNext(maxDepth, depth + 1, 2 * position);
      FirstLeafNext(maxDepth, depth + 1, 2 * position + 1);
    }
  }

  lemma {:induction false} FirstLeafIsProduct(maxDepth: nat, depth: nat, position: nat)
    requires depth <= maxDepth
    ensures FirstLeaf(maxDepth, depth, position) == position * Width(maxDepth, depth)
    decreases position
  {
    if position > 0 {
      FirstLeafIsProduct(maxDepth, depth, position - 1);
      FirstLeafNext(maxDepth, depth, position - 1);
      assert (position - 1) * Width(maxDepth, depth) + Width(maxDepth, depth) == position * Width(maxDepth, depth);
    } else {
      FirstLeafZero(maxDepth, depth);
    }
  }

  lemma {:induction false} FirstLeafZero(maxDepth: nat, depth: nat)
    requires depth <= maxDepth
    ensures FirstLeaf(maxDepth, depth, 0) == 0
    decreases maxDepth - depth
  {
    if depth < maxDepth {
      FirstLeafZero(maxDepth, depth + 1);
    }
  }

  lemma {:induction false} FirstLeafMonotone(maxDepth: nat, depth: nat, p: nat, q: nat)
    requires depth <= maxDepth && p < q
    ensures FirstLeaf(maxDepth, depth, p) + Width(maxDepth, depth) <= FirstLeaf(maxDepth, depth, q)
    decreases q
  {
    FirstLeafNext(maxDepth, depth, q - 1);
    if p < q - 1 {
      FirstLeafMonotone(maxDepth, depth, p, q - 1);
    }
  }

  /** A node that starts where a shallower node starts has an even position. */
  lemma {:induction false} StartsUnderShallower(maxDepth: nat, m: nat, q: nat, c: Coord)
    requires m < c.depth <= maxDepth && FirstLeaf(maxDepth, m, q) == Start(maxDepth, c)
    ensures c.position % 2 == 0
    decreases c.depth - m
  {
    if m + 1 < c.depth {
      StartsUnderShallower(maxDepth, m + 1, 2 * q, c);
    } else if c.position < 2 * q {
      FirstLeafMonotone(maxDepth, c.depth, c.position, 2 * q);
    } else if 2 * q < c.position {
      FirstLeafMonotone(maxDepth, c.depth, 2 * q, c.position);
    }
  }

  /** No ancestor that starts at the same leaf both fits before `end` and is as deep as `minDepth`. */
  predicate Maximal(maxDepth: nat, minDepth: nat, c: Coord, end: nat)
    requires c.depth <= maxDepth
  {
    c.depth == minDepth || c.position % 2 == 1 || Start(maxDepth, c) + 2 * Width(maxDepth, c.depth) > end
  }

  /** What Maximal means: every admissible node starting at the same leaf is at most as large. */
  lemma MaximalIsLargest(maxDepth: nat, minDepth: nat, c: Coord, other: Coord, end: nat)
    requires minDepth <= c.depth <= maxDepth && minDepth <= other.depth <= maxDepth
    requires Maximal(maxDepth, minDepth, c, end)
    requires Start(maxDepth, other) == Start(maxDepth, c) && End(maxDepth, other) <= end
    ensures Width(maxDepth, other.depth) <= Width(maxDepth, c.depth)
  {
    if other.depth < c.depth {
      StartsUnderShallower(maxDepth, other.depth, other.position, c);
      Pow2Monotone(maxDepth - c.depth, maxDepth - other.depth);
    } else {
      Pow2Monotone(maxDepth - other.depth, maxDepth - c.depth);
    }
  }

  /** `coords` cover [start, stop) from left to right without gap or overlap, each node being the
      largest one at its place that fits before `end`. */
  ghost predicate Tiles(maxDepth: nat, minDepth: nat, coords: seq<Coord>, start: nat, stop: nat, end: nat) {
    && (forall i :: 0 <= i < |coords| ==> minDepth <= coords[i].depth <= maxDepth)
    && (forall i :: 0 <= i < |coords| ==> Maximal(maxDepth, minDepth, coords[i], end))
    && (forall i :: 0 < i < |coords| ==> Start(maxDepth, coords[i]) == End(maxDepth, coords[i - 1]))
    && (if coords == [] then start == stop
        else Start(maxDepth, coords[0]) == start && End(maxDepth, coords[|coords| - 1]) == stop)
  }

  lemma TilesSnoc(maxDepth: nat, minDepth: nat, coords: seq<Coord>, start: nat, stop: nat, end: nat, c: Coord)
    requires Tiles(maxDepth, minDepth, coords, start, stop, end)
    requires minDepth <= c.depth <= maxDepth && Start(maxDepth, c) == stop
    requires Maximal(maxDepth, minDepth, c, end)
    ensures Tiles(maxDepth, minDepth, coords + [c], start, End(maxDepth, c), end)
  {
  }

  /** Climbing from an even position doubles the node and keeps its first leaf. */
  lemma ClimbRight(maxDepth: nat, c: Coord)
    requires 0 < c.depth <= maxDepth && c.position % 2 == 0
    ensures Start(maxDepth, c.Climb()) == Start(maxDepth, c)
    ensures Width(maxDepth, c.Climb().depth) == 2 * Width(maxDepth, c.depth)
  {
    assert 2 * (c.position / 2) == c.position;
  }

  /** A bound on the depth that lies above the root is none. */
  function Floor(minDepth: int): (depth: nat)
  {
    if minDepth < 0 then 0 else minDepth
  }

  /** calculateSubTreeRootCoordinates. A negative `minDepth` does not make the loop climb above the root
      while the range stays inside the tree. */
  method CalculateSubTreeRootCoordinates(maxDepth: nat, minDepth0: int, start: nat, end: nat)
    returns (coords: seq<Coord>, ghost steps: nat)
    requires minDepth0 <= maxDepth && start < end && (minDepth0 < 0 ==> end <= Pow2(maxDepth))
    ensures Tiles(maxDepth, Floor(minDepth0), coords, start, end, end)
    ensures Run(maxDepth, Floor(minDepth0), start, end, steps) == None
  {
    hide Run, Tiles, FirstLeaf;
    ghost var minDepth := Floor(minDepth0);
    coords, steps := [], 0;
    Runs(maxDepth, minDepth, start, end, 0);
    NoTiles(maxDepth, minDepth, start, end);
    var leafCursor, nodeCursor := start, Coord(maxDepth, start);
    var lastNodeCursor, lastLeafCursor := nodeCursor, leafCursor;
    var nodeRangeCursor := 1;
    ghost var p := start;
    while true
      invariant Run(maxDepth, minDepth, start, end, steps)
             == Some(Cursors(leafCursor, nodeCursor, lastNodeCursor, lastLeafCursor, nodeRangeCursor))
      invariant minDepth <= nodeCursor.depth <= maxDepth && start <= p < end
      invariant Tiles(maxDepth, minDepth, coords, start, p, end)
      invariant Start(maxDepth, nodeCursor) == p
      invariant nodeRangeCursor == Width(maxDepth, nodeCursor.depth)
      invariant leafCursor == p + nodeRangeCursor - 1
      invariant leafCursor + 1 > end ==>
                  && lastNodeCursor.depth == nodeCursor.depth + 1 <= maxDepth
                  && Start(maxDepth, lastNodeCursor) == p
                  && lastLeafCursor == p + Width(maxDepth, lastNodeCursor.depth) - 1
                  && lastLeafCursor + 1 < end
      decreases end - p, nodeCursor.depth
    {
      Runs(maxDepth, minDepth, start, end, steps + 1);
      steps := steps + 1;
      if leafCursor + 1 == end {
        TilesSnoc(maxDepth, minDepth, coords, start, p, end, nodeCursor);
        coords := coords + [nodeCursor];
        return;
      } else if leafCursor + 1 > end {
        TilesSnoc(maxDepth, minDepth, coords, start, p, end, lastNodeCursor);
        coords := coords + [lastNodeCursor];
        leafCursor := lastLeafCursor + 1;
        lastNodeCursor, lastLeafCursor := nodeCursor, leafCursor;
        nodeCursor, nodeRangeCursor := Coord(maxDepth, leafCursor), 1;
        LeafIsItself(maxDepth, leafCursor);
        p := leafCursor;
      } else if !nodeCursor.CanClimbRight(minDepth0) {
        TilesSnoc(maxDepth, minDepth, coords, start, p, end, nodeCursor);
        coords := coords + [nodeCursor];
        leafCursor := leafCursor + 1;
        lastNodeCursor, lastLeafCursor := nodeCursor, leafCursor;
        nodeCursor, nodeRangeCursor := Coord(maxDepth, leafCursor), 1;
        LeafIsItself(maxDepth, leafCursor);
        p := leafCursor;
      } else {
        ClimbRight(maxDepth, nodeCursor);
        lastLeafCursor, lastNodeCursor := leafCursor, nodeCursor;
        leafCursor := leafCursor + nodeRangeCursor;
        nodeRangeCursor := nodeRangeCursor * 2;
        nodeCursor := nodeCursor.Climb();
      }
    }
  }

  // ----- the loop returns exactly for start < end -----

  /** The cursors of the loop above. */
  datatype Cursors = Cursors(leaf: int, node: Coord, lastNode: Coord, lastLeaf: int, range: int)

  /** One iteration of the loop; None means that the loop returned. */
  function CursorStep(maxDepth: nat, minDepth: nat, end: int, s: Cursors): (r: Option<Cursors>)
  {
    if s.leaf + 1 == end then None
    else if s.leaf + 1 > end then
      var leaf := s.lastLeaf + 1;
      Some(Cursors(leaf, Coord(maxDepth, if leaf >= 0 then leaf else 0), s.node, leaf, 1))
    else if !s.node.CanClimbRight(minDepth) then
      var leaf := s.leaf + 1;
      Some(Cursors(leaf, Coord(maxDepth, if leaf >= 0 then leaf else 0), s.node, leaf, 1))
    else
      Some(Cursors(s.leaf + s.range, s.node.Climb(), s.node, s.leaf, s.range * 2))
  }

  /** The cursors after the given number of iterations; None once the loop has returned. */
  function Run(maxDepth: nat, minDepth: nat, start: nat, end: int, steps: nat): (r: Option<Cursors>)
  {
    if steps == 0 then Some(Cursors(start, Coord(maxDepth, start), Coord(maxDepth, start), start, 1))
    else match Run(maxDepth, minDepth, start, end, steps - 1)
      case None => None
      case Some(s) => CursorStep(maxDepth, minDepth, end, s)
  }

  lemma Runs(maxDepth: nat, minDepth: nat, start: nat, end: int, steps: nat)
    ensures steps == 0 ==>
              Run(maxDepth, minDepth, start, end, steps)
              == Some(Cursors(start, Coord(maxDepth, start), Coord(maxDepth, start), start, 1))
    ensures steps > 0 && Run(maxDepth, minDepth, start, end, steps - 1).Some? ==>
              Run(maxDepth, minDepth, start, end, steps)
              == CursorStep(maxDepth, minDepth, end, Run(maxDepth, minDepth, start, end, steps - 1).value)
  {
  }

  lemma NoTiles(maxDepth: nat, minDepth: nat, start: nat, end: nat)
    ensures Tiles(maxDepth, minDepth, [], start, start, end)
    ensures Start(maxDepth, Coord(maxDepth, start)) == start
  {
  }

  lemma LeafIsItself(maxDepth: nat, leaf: nat)
    ensures Start(maxDepth, Coord(maxDepth, leaf)) == leaf && Width(maxDepth, maxDepth) == 1
  {
  }

  /** The comment in the source allows `end >= start`; with `end == start`, or any smaller end, the
      loop never returns. */
  lemma {:induction false} EmptyRangeDiverges(maxDepth: nat, minDepth: nat, start: nat, end: int, steps: nat)
    requires end <= start
    ensures var r := Run(maxDepth, minDepth, start, end, steps);
            r.Some? && r.value.leaf == r.value.lastLeaf == start + steps
  {
    if steps > 0 {
      EmptyRangeDiverges(maxDepth, minDepth, start, end, steps - 1);
    }
  }

  // ----- subtree sizes -----

  function TileSizes(maxDepth: nat, coords: seq<Coord>): (r: seq<nat>)
    requires forall i :: 0 <= i < |coords| ==> coords[i].depth <= maxDepth
    ensures |r| == |coords|
  {
    seq(|coords|, i requires 0 <= i < |coords| => Width(maxDepth, coords[i].depth))
  }

  /** In a tiling that starts at a node boundary of depth `m` the first tile is the next mountain. */
  lemma FirstTile(maxDepth: nat, minDepth: nat, c: Coord, m: nat, q: nat, end: nat)
    requires minDepth <= m <= maxDepth && minDepth <= c.depth <= maxDepth
    requires FirstLeaf(maxDepth, m, q) == Start(maxDepth, c) && End(maxDepth, c) <= end
    requires Maximal(maxDepth, minDepth, c, end)
    requires m == minDepth || end - Start(maxDepth, c) < Width(maxDepth, m)
    ensures Width(maxDepth, c.depth) == NextTree(end - Start(maxDepth, c), Width(maxDepth, minDepth))
    ensures c.depth == minDepth || end - End(maxDepth, c) < Width(maxDepth, c.depth)
  {
    var left := end - Start(maxDepth, c);
    if c.depth < m {
      Pow2Monotone(maxDepth - m, maxDepth - c.depth);
      assert false;
    } else if c.depth > m {
      StartsUnderShallower(maxDepth, m, q, c);
      Pow2Monotone(maxDepth - c.depth, maxDepth - m);
      Pow2Monotone(maxDepth - m, maxDepth - minDepth);
      Pow2IsPow2(maxDepth - c.depth);
      RoundDownUnique(left, Width(maxDepth, c.depth));
    }
  }

  lemma TilesTail(maxDepth: nat, minDepth: nat, coords: seq<Coord>, start: nat, stop: nat, end: nat)
    requires Tiles(maxDepth, minDepth, coords, start, stop, end) && coords != []
    ensures minDepth <= coords[0].depth <= maxDepth && Start(maxDepth, coords[0]) == start
    ensures Maximal(maxDepth, minDepth, coords[0], end)
    ensures forall i :: 0 <= i < |coords| ==> coords[i].depth <= maxDepth
    ensures Tiles(maxDepth, minDepth, coords[1..], End(maxDepth, coords[0]), stop, end)
    ensures TileSizes(maxDepth, coords) == [Width(maxDepth, coords[0].depth)] + TileSizes(maxDepth, coords[1..])
  {
  }

  /** The sizes of a tiling that starts at a multiple of the widest tile are the mountain sizes. */
  lemma {:induction false} TilesAreMountains(
    maxDepth: nat, minDepth: nat, coords: seq<Coord>, start: nat, end: nat, m: nat, q: nat)
    requires minDepth <= m <= maxDepth && start <= end
    requires Tiles(maxDepth, minDepth, coords, start, end, end)
    requires FirstLeaf(maxDepth, m, q) == start
    requires m == minDepth || end - start < Width(maxDepth, m)
    ensures TileSizes(maxDepth, coords) == Mountains(end - start, Width(maxDepth, minDepth))
    decreases |coords|
  {
    hide Tiles, FirstLeaf, Mountains, NextTree, TileSizes, Maximal, Width;
    if coords != [] {
      var c := coords[0];
      TilesInOrder(maxDepth, minDepth, coords, start, end, end, 0);
      TilesTail(maxDepth, minDepth, coords, start, end, end);
      FirstTile(maxDepth, minDepth, c, m, q, end);
      FirstLeafNext(maxDepth, c.depth, c.position);
      TilesAreMountains(maxDepth, minDepth, coords[1..], End(maxDepth, c), end, c.depth, c.position + 1);
      MountainsStep(start, End(maxDepth, c), end, Width(maxDepth, minDepth));
    } else {
      NoTilesNoMountains(maxDepth, minDepth, coords, start, end);
    }
  }

  lemma NoTilesNoMountains(maxDepth: nat, minDepth: nat, coords: seq<Coord>, start: nat, end: nat)
    requires minDepth <= maxDepth && Tiles(maxDepth, minDepth, coords, start, end, end) && coords == []
    ensures start == end && TileSizes(maxDepth, coords) == Mountains(0, Width(maxDepth, minDepth))
  {
  }

  lemma MountainsStep(start: nat, mid: nat, end: nat, w: nat)
    requires w > 0 && start < mid <= end && mid - start == NextTree(end - start, w)
    ensures Mountains(end - start, w) == [mid - start] + Mountains(end - mid, w)
  {
    assert end - start - (mid - start) == end - mid;
  }

  lemma {:induction false} TilesInOrder(
    maxDepth: nat, minDepth: nat, coords: seq<Coord>, start: nat, stop: nat, end: nat, i: nat)
    requires Tiles(maxDepth, minDepth, coords, start, stop, end) && i < |coords|
    ensures End(maxDepth, coords[i]) <= stop
    decreases |coords| - i
  {
    if i + 1 < |coords| {
      TilesInOrder(maxDepth, minDepth, coords, start, stop, end, i + 1);
    }
  }

  /** The i-th tile starts after the tiles before it. */
  lemma {:induction false} TileStart(
    maxDepth: nat, minDepth: nat, coords: seq<Coord>, start: nat, stop: nat, end: nat, i: nat)
    requires Tiles(maxDepth, minDepth, coords, start, stop, end) && i < |coords|
    ensures Start(maxDepth, coords[i]) == start + Sum(TileSizes(maxDepth, coords)[..i])
  {
    if i > 0 {
      TileStart(maxDepth, minDepth, coords, start, stop, end, i - 1);
      SumSnoc(TileSizes(maxDepth, coords), i - 1);
    }
  }
}
