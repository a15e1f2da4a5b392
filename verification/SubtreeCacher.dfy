/** Caches of the inner nodes of every row tree (pkg/inclusion/nmt_caching.go). */
module SubtreeCacher {
  import opened ByteSeqs
  import opened PowersOfTwo
  import opened Nmt
  import opened Results

  class SubTreeRootCacher {
    var cache: map<Bytes, Children>

    constructor ()
      ensures cache == map[]
    {
      cache := map[];
    }

    /** Called by the tree for every hash it computes; only inner nodes are kept. */
    method Visit(hash: Bytes, children: seq<Bytes>)
      requires |children| == 1 || |children| == 2
      modifies this
      ensures cache == if |children| == 2 then old(cache)[hash := (children[0], children[1])] else old(cache)
    {
      if |children| == 2 {
        cache := cache[hash := (children[0], children[1])];
      }
    }

    /** Computing a root visits every node, children first. Without hash collisions among the visited
        nodes the cache then leads from every inner node to its children. */
    method ComputeRoot(h: Hasher, leaves: seq<Bytes>, ghost seen: set<Children>) returns (root: Bytes)
      requires IsPow2(|leaves|)
      requires Records(h, cache, seen) && CollisionFree(h, seen + InnerNodes(h, leaves))
      modifies this
      ensures root == Root(h, leaves)
      ensures Records(h, cache, seen + InnerNodes(h, leaves))
      decreases |leaves|
    {
      if |leaves| == 1 {
        root := h.leaf(leaves[0]);
        Visit(root, [leaves[0]]);
      } else {
        ghost var before := seen + InnerNodes(h, Left(leaves)) + InnerNodes(h, Right(leaves));
        var l := ComputeRoot(h, Left(leaves), seen);
        var r := ComputeRoot(h, Right(leaves), seen + InnerNodes(h, Left(leaves)));
        root := h.node(l, r);
        assert seen + InnerNodes(h, leaves) == before + {(l, r)};
        VisitRecords(h, cache, before, (l, r));
        Visit(root, [l, r]);
      }
    }
  }

  lemma VisitRecords(h: Hasher, cache: map<Bytes, Children>, nodes: set<Children>, n: Children)
    requires Records(h, cache, nodes) && CollisionFree(h, nodes + {n})
    ensures Records(h, cache[h.node(n.0, n.1) := n], nodes + {n})
  {
  }

  lemma EmptyRecords(h: Hasher)
    ensures Records(h, map[], {})
  {
  }

  /** `caches[r]` holds the inner nodes of `rows[r]`, for every row. */
  ghost predicate RecordsAll(h: Hasher, caches: map<nat, map<Bytes, Children>>, rows: seq<seq<Bytes>>) {
    && (forall r: nat :: r in caches <==> r < |rows|)
    && forall r: nat :: r < |rows| ==> IsPow2(|rows[r]|) && Records(h, caches[r], InnerNodes(h, rows[r]))
  }

  lemma RecordsOneMore(
    h: Hasher, caches: map<nat, map<Bytes, Children>>, rows: seq<seq<Bytes>>, row: seq<Bytes>, cache: map<Bytes, Children>)
    requires RecordsAll(h, caches, rows) && IsPow2(|row|) && Records(h, cache, InnerNodes(h, row))
    ensures |rows| !in caches && RecordsAll(h, caches[|rows| := cache], rows + [row])
  {
    hide IsPow2, Root, InnerNodes, Records;
  }

  class EdsSubTreeRootCacher {
    var caches: map<nat, SubTreeRootCacher>

    constructor ()
      ensures caches == map[]
    {
      caches := map[];
    }

    ghost function Snapshot(): (r: map<nat, map<Bytes, Children>>)
      reads this, caches.Values
    {
      map r | r in caches :: caches[r].cache
    }

    /** The caches hold the inner nodes of all the given rows. */
    ghost predicate Holds(h: Hasher, rows: seq<seq<Bytes>>)
      reads this, caches.Values
    {
      |caches| == |rows| && RecordsAll(h, Snapshot(), rows)
    }

    /** The tree constructor given to the square extension: a row gets a fresh cache, a column none. */
    method Constructor(isRow: bool, axisIndex: nat) returns (c: SubTreeRootCacher)
      modifies this
      ensures fresh(c) && c.cache == map[]
      ensures caches == if isRow then old(caches)[axisIndex := c] else old(caches)
    {
      c := new SubTreeRootCacher();
      if isRow {
        caches := caches[axisIndex := c];
      }
    }

    /** Computing the row roots of an extended square with this constructor fills the caches. */
    method RowRoots(h: Hasher, rows: seq<seq<Bytes>>) returns (roots: seq<Bytes>)
      requires caches == map[]
      requires forall r :: 0 <= r < |rows| ==> IsPow2(|rows[r]|) && CollisionFree(h, InnerNodes(h, rows[r]))
      modifies this
      ensures Holds(h, rows)
      ensures |roots| == |rows|
      ensures forall r :: 0 <= r < |rows| ==> roots[r] == Root(h, rows[r])
    {
      hide IsPow2, Root, InnerNodes, Records, CollisionFree;
      roots := [];
      for i := 0 to |rows|
        invariant Holds(h, rows[..i]) && fresh(caches.Values)
        invariant |roots| == i && forall r :: 0 <= r < i ==> roots[r] == Root(h, rows[r])
      {
        assert rows[..i + 1] == rows[..i] + [rows[i]];
        var root := RowRoot(h, rows[..i], rows[i]);
        roots := roots + [root];
      }
      assert rows[..|rows|] == rows;
    }

    /** The root of the next row. */
    method RowRoot(h: Hasher, ghost rows: seq<seq<Bytes>>, row: seq<Bytes>) returns (root: Bytes)
      requires Holds(h, rows) && IsPow2(|row|) && CollisionFree(h, InnerNodes(h, row))
      modifies this
      ensures Holds(h, rows + [row]) && root == Root(h, row)
      ensures fresh(caches.Values - old(caches.Values))
    {
      hide IsPow2, Root, InnerNodes, Records, CollisionFree, RecordsAll;
      var c := Constructor(true, |caches|);
      assert {} + InnerNodes(h, row) == InnerNodes(h, row);
      EmptyRecords(h);
      root := c.ComputeRoot(h, row, {});
      assert Snapshot() == old(Snapshot())[|rows| := c.cache];
      RecordsOneMore(h, old(Snapshot()), rows, row, c.cache);
    }

    method GetSubTreeRoot(rowRoots: seq<Bytes>, row: nat, path: seq<bool>) returns (r: Result<Bytes>)
      requires forall i: nat :: i < |caches| ==> i in caches
      ensures |caches| != |rowRoots| ==> r == Err(UnexpectedRowRoots)
      ensures |caches| == |rowRoots| && row >= |caches| ==> r == Err(RowOutOfRange)
      ensures |caches| == |rowRoots| && row < |caches| ==> r == Walk(caches[row].cache, rowRoots[row], path)
    {
      if |caches| != |rowRoots| {
        return Err(UnexpectedRowRoots);
      }
      if row >= |caches| {
        return Err(RowOutOfRange);
      }
      r := Walk(caches[row].cache, rowRoots[row], path);
    }
  }
}
