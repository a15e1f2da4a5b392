/** Namespaced Merkle trees over a power-of-two number of leaves, and the cache of inner nodes that
    lets a reader walk down from a root (pkg/inclusion/nmt_caching.go). The two hash functions come
    from a foreign library and stay uninterpreted. */
module Nmt {
  import opened ByteSeqs
  import opened PowersOfTwo
  import opened Paths
  import opened CommitmentPaths
  import opened Results

  datatype Hasher = Hasher(leaf: Bytes -> Bytes, node: (Bytes, Bytes) -> Bytes)

  type Children = (Bytes, Bytes)

  function Left<T>(s: seq<T>): (r: seq<T>)
    ensures |r| == |s| / 2
  {
    s[..|s| / 2]
  }

  function Right<T>(s: seq<T>): (r: seq<T>)
    ensures |r| == |s| - |s| / 2
  {
    s[|s| / 2..]
  }

  function Root(h: Hasher, leaves: seq<Bytes>): (r: Bytes)
    requires IsPow2(|leaves|)
    decreases |leaves|
  {
    if |leaves| == 1 then h.leaf(leaves[0])
    else h.node(Root(h, Left(leaves)), Root(h, Right(leaves)))
  }

  /** The children of every inner node of the tree over `leaves`. */
  ghost function InnerNodes(h: Hasher, leaves: seq<Bytes>): (r: set<Children>)
    requires IsPow2(|leaves|)
    decreases |leaves|
  {
    if |leaves| == 1 then {}
    else
      {(Root(h, Left(leaves)), Root(h, Right(leaves)))}
      + InnerNodes(h, Left(leaves)) + InnerNodes(h, Right(leaves))
  }

  /** No two of the nodes have the same hash but different children. */
  ghost predicate CollisionFree(h: Hasher, nodes: set<Children>) {
    forall a, b :: a in nodes && b in nodes && h.node(a.0, a.1) == h.node(b.0, b.1) ==> a == b
  }

  /** The cache leads from every one of the nodes to its children. */
  ghost predicate Records(h: Hasher, cache: map<Bytes, Children>, nodes: set<Children>) {
    forall n :: n in nodes ==> h.node(n.0, n.1) in cache && cache[h.node(n.0, n.1)] == n
  }

  function Walk(cache: map<Bytes, Children>, root: Bytes, path: seq<bool>): (r: Result<Bytes>)
    decreases |path|
  {
    if path == [] then Ok(root)
    else if root !in cache then Err(SubtreeRootNotFound)
    else Walk(cache, if path[0] then cache[root].1 else cache[root].0, path[1..])
  }

  /** A walk goes one step further exactly when the cache knows the node it has come to, and then to the child
      on that side. */
  lemma {:induction false} WalkStep(cache: map<Bytes, Children>, root: Bytes, path: seq<bool>, right: bool)
    ensures Walk(cache, root, path + [right])
         == match Walk(cache, root, path)
            case Err(e) => Err(e)
            case Ok(node) =>
              if node !in cache then Err(SubtreeRootNotFound)
              else Ok(if right then cache[node].1 else cache[node].0)
    decreases |path|
  {
    if path == [] {
      assert path + [right] == [right] && [right][1..] == [];
    } else {
      assert (path + [right])[1..] == path[1..] + [right];
      if root in cache {
        WalkStep(cache, if path[0] then cache[root].1 else cache[root].0, path[1..], right);
      }
    }
  }

  /** The leaves under the node that a path leads to. */
  function Descend(leaves: seq<Bytes>, path: seq<bool>): (r: seq<Bytes>)
    requires IsPow2(|leaves|) && |path| <= Log2(|leaves|)
    ensures IsPow2(|r|) && Log2(|r|) == Log2(|leaves|) - |path|
    decreases |path|
  {
    if path == [] then leaves
    else Descend(if path[0] then Right(leaves) else Left(leaves), path[1..])
  }

  /** Walking a complete cache arrives at the root of exactly those leaves. */
  lemma {:induction false} WalkFindsSubtree(
    h: Hasher, cache: map<Bytes, Children>, leaves: seq<Bytes>, path: seq<bool>)
    requires IsPow2(|leaves|) && |path| <= Log2(|leaves|)
    requires Records(h, cache, InnerNodes(h, leaves))
    ensures Walk(cache, Root(h, leaves), path) == Ok(Root(h, Descend(leaves, path)))
    decreases |path|
  {
    if path != [] {
      var n := (Root(h, Left(leaves)), Root(h, Right(leaves)));
      assert n in InnerNodes(h, leaves);
      WalkFindsSubtree(h, cache, if path[0] then Right(leaves) else Left(leaves), path[1..]);
    }
  }

  lemma {:induction false} DescendSnoc(leaves: seq<Bytes>, path: seq<bool>, b: bool)
    requires IsPow2(|leaves|) && |path| < Log2(|leaves|)
    ensures Descend(leaves, path + [b])
         == if b then Right(Descend(leaves, path)) else Left(Descend(leaves, path))
    decreases |path|
  {
    if path == [] {
      assert path + [b] == [b] && [b][1..] == [];
    } else {
      assert (path + [b])[1..] == path[1..] + [b];
      DescendSnoc(if path[0] then Right(leaves) else Left(leaves), path[1..], b);
    }
  }

  lemma HalvesOfSlice<T>(s: seq<T>, first: nat, size: nat)
    requires first + 2 * size <= |s|
    ensures Left(s[first..first + 2 * size]) == s[first..first + size]
    ensures Right(s[first..first + 2 * size]) == s[first + size..first + 2 * size]
  {
    assert |s[first..first + 2 * size]| / 2 == size;
  }

  /** Where a path leads, one step further. */
  lemma NodeStep(maxDepth: nat, init: seq<bool>, b: bool)
    requires |init| < maxDepth
    ensures var first, size := FirstLeaf(maxDepth, |init|, Position(init)), Width(maxDepth, |init| + 1);
            && Width(maxDepth, |init|) == 2 * size
            && FirstLeaf(maxDepth, |init + [b]|, Position(init + [b])) == if b then first + size else first
  {
    PositionNext(init, b);
    hide Position;
    FirstLeafNext(maxDepth, |init| + 1, 2 * Position(init));
  }

  lemma PositionNext(init: seq<bool>, b: bool)
    ensures Position(init + [b]) == 2 * Position(init) + if b then 1 else 0
  {
    assert (init + [b])[..|init|] == init;
  }

  /** Those leaves are the contiguous run given by the position of the node. */
  lemma {:induction false} DescendIsSlice(leaves: seq<Bytes>, path: seq<bool>)
    requires IsPow2(|leaves|) && |path| <= Log2(|leaves|)
    ensures var first := FirstLeaf(Log2(|leaves|), |path|, Position(path));
            var size := Width(Log2(|leaves|), |path|);
            first + size <= |leaves| && Descend(leaves, path) == leaves[first..first + size]
    decreases |path|
  {
    hide IsPow2, Position, FirstLeaf, Width;
    var maxDepth := Log2(|leaves|);
    if path == [] {
      PathToRoot(maxDepth, path);
    } else {
      var init, b := path[..|path| - 1], path[|path| - 1];
      assert path == init + [b];
      DescendIsSlice(leaves, init);
      DescendSnoc(leaves, init, b);
      NodeStep(maxDepth, init, b);
      HalvesOfSlice(leaves, FirstLeaf(maxDepth, |init|, Position(init)), Width(maxDepth, |path|));
    }
  }

  lemma PathToRoot(maxDepth: nat, path: seq<bool>)
    requires path == []
    ensures FirstLeaf(maxDepth, |path|, Position(path)) == 0
    ensures Width(maxDepth, |path|) == Pow2(maxDepth)
  {
    FirstLeafZero(maxDepth, 0);
  }
}
