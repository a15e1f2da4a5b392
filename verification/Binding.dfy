/** A commitment stands for one blob only: what the subtree roots and the root over them are for
    (pkg/inclusion/commitment.go). */
module Binding {
  import opened Blobs
  import opened ByteSeqs
  import opened Commitment
  import CommitmentRules
  import opened Inclusion
  import opened Mountain
  import Namespaces
  import opened Nmt
  import opened PowersOfTwo
  import opened ShareFormat
  import SparseParser
  import SquareLayout
  import opened SparseSplitter

  /** The hash functions have no collisions, and no leaf has the hash of an inner node. */
  ghost predicate Binds(h: Hasher) {
    && (forall x, y :: h.leaf(x) == h.leaf(y) ==> x == y)
    && (forall x, y, x', y' :: h.node(x, y) == h.node(x', y') ==> x == x' && y == y')
    && (forall x, y, z :: h.leaf(x) != h.node(y, z))
  }

  /** No two lists of subtree roots have the same root over them. */
  ghost predicate BindsLists(merkle: seq<Bytes> -> Bytes) {
    forall x, y :: merkle(x) == merkle(y) ==> x == y
  }

  /** Trees with the same root have the same leaves; not even their sizes can differ. */
  lemma {:induction false} RootBinds(h: Hasher, x: seq<Bytes>, y: seq<Bytes>)
    requires Binds(h) && IsPow2(|x|) && IsPow2(|y|) && Root(h, x) == Root(h, y)
    ensures x == y
    decreases |x|
  {
    hide Binds, IsPow2, Root;
    SameHeight(h, x, y);
    if |x| != 1 {
      ChildrenBind(h, x, y);
      RootBinds(h, Left(x), Left(y));
      RootBinds(h, Right(x), Right(y));
      assert x == Left(x) + Right(x) && y == Left(y) + Right(y);
    }
  }

  lemma SameHeight(h: Hasher, x: seq<Bytes>, y: seq<Bytes>)
    requires Binds(h) && IsPow2(|x|) && IsPow2(|y|) && Root(h, x) == Root(h, y)
    ensures |x| == 1 <==> |y| == 1
    ensures |x| == 1 ==> x == y
  {
  }

  lemma ChildrenBind(h: Hasher, x: seq<Bytes>, y: seq<Bytes>)
    requires Binds(h) && IsPow2(|x|) && IsPow2(|y|) && Root(h, x) == Root(h, y) && |x| != 1 && |y| != 1
    ensures IsPow2(|Left(x)|) && IsPow2(|Left(y)|) && IsPow2(|Right(x)|) && IsPow2(|Right(y)|)
    ensures |Left(x)| < |x| && |Right(x)| < |x|
    ensures Root(h, Left(x)) == Root(h, Left(y)) && Root(h, Right(x)) == Root(h, Right(y))
  {
    hide Binds;
    NodeBinds(h, Root(h, Left(x)), Root(h, Right(x)), Root(h, Left(y)), Root(h, Right(y)));
  }

  lemma NodeBinds(h: Hasher, x: Bytes, y: Bytes, x': Bytes, y': Bytes)
    requires Binds(h) && h.node(x, y) == h.node(x', y')
    ensures x == x' && y == y'
  {
  }

  /** Lists of subtree roots over leaves are equal only for equal leaves, however these are cut into trees. */
  lemma {:induction false} SubtreeRootsBind(h: Hasher, x: seq<Bytes>, sizes: seq<nat>, y: seq<Bytes>, sizes': seq<nat>)
    requires Binds(h)
    requires Sum(sizes) == |x| && forall i :: 0 <= i < |sizes| ==> IsPow2(sizes[i])
    requires Sum(sizes') == |y| && forall i :: 0 <= i < |sizes'| ==> IsPow2(sizes'[i])
    requires SubtreeRoots(h, x, sizes) == SubtreeRoots(h, y, sizes')
    ensures x == y && sizes == sizes'
    decreases |sizes|
  {
    hide IsPow2, Root, Binds;
    if sizes != [] {
      var roots, roots' := SubtreeRoots(h, x, sizes), SubtreeRoots(h, y, sizes');
      assert roots[0] == Root(h, x[..sizes[0]]) && roots'[0] == Root(h, y[..sizes'[0]]);
      RootBinds(h, x[..sizes[0]], y[..sizes'[0]]);
      assert roots[1..] == SubtreeRoots(h, x[sizes[0]..], sizes[1..]);
      assert roots'[1..] == SubtreeRoots(h, y[sizes'[0]..], sizes'[1..]);
      SubtreeRootsBind(h, x[sizes[0]..], sizes[1..], y[sizes'[0]..], sizes'[1..]);
      assert x == x[..sizes[0]] + x[sizes[0]..] && y == y[..sizes'[0]] + y[sizes'[0]..];
      assert sizes == [sizes[0]] + sizes[1..] && sizes' == [sizes'[0]] + sizes'[1..];
    }
  }

  lemma CommitmentOfBinds(h: Hasher, merkle: seq<Bytes> -> Bytes, x: seq<Bytes>, y: seq<Bytes>, threshold: nat)
    requires threshold > 0 && Binds(h) && BindsLists(merkle)
    requires CommitmentOf(h, merkle, x, threshold) == CommitmentOf(h, merkle, y, threshold)
    ensures x == y
  {
    hide IsPow2, Root, Binds, SubtreeRoots, Mountains, CommitmentRules.SubTreeWidth;
    var w, w' := CommitmentRules.SubTreeWidth(|x|, threshold), CommitmentRules.SubTreeWidth(|y|, threshold);
    CommitmentRules.SubTreeWidthIsPow2(|x|, threshold);
    CommitmentRules.SubTreeWidthIsPow2(|y|, threshold);
    MountainsShape(|x|, w);
    MountainsShape(|y|, w');
    SubtreeRootsBind(h, x, Mountains(|x|, w), y, Mountains(|y|, w'));
  }

  lemma LeavesBind(ns: Bytes, shares: seq<Share>, ns': Bytes, shares': seq<Share>)
    requires |ns| == |ns'| && BlobLeaves(ns, shares) == BlobLeaves(ns', shares')
    ensures shares == shares'
  {
    var leaves, leaves' := BlobLeaves(ns, shares), BlobLeaves(ns', shares');
    assert |shares| == |leaves| == |leaves'| == |shares'|;
    forall i | 0 <= i < |shares| ensures shares[i] == shares'[i] {
      assert leaves[i] == ns + shares[i] && leaves'[i] == ns' + shares'[i];
      assert shares[i] == leaves[i][|ns|..] && shares'[i] == leaves'[i][|ns'|..];
    }
  }

  /** Under hash functions without collisions two valid blobs have the same commitment exactly when they are
      the same blob: the commitment fixes the namespace, the share version and every byte of the data. */
  lemma CommitmentBinds(h: Hasher, merkle: seq<Bytes> -> Bytes, a: Blob, b: Blob)
    requires Binds(h) && BindsLists(merkle) && ValidBlob(a) && ValidBlob(b)
    ensures BlobCommitment(h, merkle, a) == BlobCommitment(h, merkle, b) <==> a == b
  {
    hide Binds, BindsLists, CommitmentOf, BlobShares, BlobLeaves, SparseParser.ParseBlobs, Namespaces.IsUserNamespace;
    if BlobCommitment(h, merkle, a) == BlobCommitment(h, merkle, b) {
      CommitmentOfBinds(h, merkle, BlobLeaves(a.NamespaceOf(), BlobShares(a)), BlobLeaves(b.NamespaceOf(), BlobShares(b)),
                        SquareLayout.SUBTREE_ROOT_THRESHOLD);
      LeavesBind(a.NamespaceOf(), BlobShares(a), b.NamespaceOf(), BlobShares(b));
      SparseParser.ParseOneBlob(a);
      SparseParser.ParseOneBlob(b);
      assert [a] == [b];
    }
  }
}
