/** The commitment to a blob, from the blob alone and from the square that holds it
    (pkg/inclusion/commitment.go, pkg/inclusion/get_commit.go). */
module Inclusion {
  import opened Blobs
  import opened ByteSeqs
  import opened Commitment
  import opened CommitmentRules
  import opened Mountain
  import opened Namespaces
  import opened Nmt
  import opened PowersOfTwo
  import opened Results
  import opened ShareFormat
  import opened ShareProof
  import opened SparseSplitter
  import opened SquareLayout
  import opened SquarePlacement
  import opened SquareTheorems
  import opened SubtreeCacher

  /** The leaves pushed for shares of one namespace: the namespace stands in front of every share. */
  function BlobLeaves(ns: Bytes, shares: seq<Share>): (r: seq<Bytes>)
    ensures |r| == |shares|
  {
    seq(|shares|, i requires 0 <= i < |shares| => ns + shares[i])
  }

  /** The leaves of the row trees in the original square: every share behind its own namespace. */
  function SquareLeaves(shares: seq<Share>): (r: seq<Bytes>)
    ensures |r| == |shares|
  {
    seq(|shares|, i requires 0 <= i < |shares| => NamespaceBytes(shares[i]) + shares[i])
  }

  /** What CreateCommitment gives for a blob that it accepts. */
  function BlobCommitment(h: Hasher, merkle: seq<Bytes> -> Bytes, b: Blob): (r: Bytes)
    requires |b.namespaceId| == NAMESPACE_ID_SIZE && b.shareVersion <= MAX_SHARE_VERSION
  {
    CommitmentOf(h, merkle, BlobLeaves(b.NamespaceOf(), BlobShares(b)), SUBTREE_ROOT_THRESHOLD)
  }

  /** The shares under the trees of the given sizes. */
  ghost predicate CutBy(shares: seq<Share>, sizes: seq<nat>, sets: seq<seq<Share>>) {
    |sets| <= |sizes| && forall k :: 0 <= k < |sets| ==>
      && 0 <= Sum(sizes[..k]) && Sum(sizes[..k]) + sizes[k] <= |shares|
      && sets[k] == shares[Sum(sizes[..k])..Sum(sizes[..k]) + sizes[k]]
  }

  /** The first loop of CreateCommitment: cuts the shares into one set per tree. */
  method CutLeafSets(shares: seq<Share>, treeSizes: seq<nat>) returns (leafSets: seq<seq<Share>>)
    requires Sum(treeSizes) == |shares|
    ensures |leafSets| == |treeSizes| && CutBy(shares, treeSizes, leafSets)
  {
    leafSets := [];
    var cursor := 0;
    assert treeSizes[..0] == [];
    for i := 0 to |treeSizes|
      invariant |leafSets| == i && CutBy(shares, treeSizes, leafSets)
      invariant cursor == Sum(treeSizes[..i])
    {
      SumSnoc(treeSizes, i);
      leafSets := leafSets + [shares[cursor..cursor + treeSizes[i]]];
      cursor := cursor + treeSizes[i];
    }
  }

  lemma SetLeaves(ns: Bytes, shares: seq<Share>, a: nat, n: nat)
    requires a + n <= |shares|
    ensures BlobLeaves(ns, shares[a..a + n]) == BlobLeaves(ns, shares)[a..a + n]
  {
  }

  /** CreateCommitment: the commitment to the blob's leaves, or why the blob is refused. */
  method CreateCommitment(h: Hasher, merkle: seq<Bytes> -> Bytes, blob: Blob) returns (r: Result<Bytes>)
    ensures blob.Validate().Err? ==> r == Err(InvalidBlob)
    ensures blob.Validate().Ok? && blob.shareVersion != 0 ==> r == Err(UnsupportedShareVersion)
    ensures blob.Validate().Ok? && blob.shareVersion == 0 ==> r == Ok(BlobCommitment(h, merkle, blob))
  {
    hide BlobShares, Mountains, SubtreeRoots, SubTreeWidth, IsPow2;
    if blob.Validate().Err? {
      return Err(InvalidBlob);
    }
    var writer := new SparseShareSplitter();
    var written := writer.Write(blob);
    if written.Err? {
      return Err(written.error);
    }
    var shares := writer.shares;
    assert [] + BlobShares(blob) == BlobShares(blob);
    var subTreeWidth := SubTreeWidth(|shares|, SUBTREE_ROOT_THRESHOLD);
    var treeSizes, steps := MerkleMountainRangeSizes(|shares|, subTreeWidth);
    SubTreeWidthIsPow2(|shares|, SUBTREE_ROOT_THRESHOLD);
    MountainsShape(|shares|, subTreeWidth);
    var leafSets := CutLeafSets(shares, treeSizes);
    var subTreeRoots := RootsOf(h, blob.NamespaceOf(), shares, treeSizes, leafSets);
    r := Ok(merkle(subTreeRoots));
  }

  /** The second loop: the root of a tree over every set. */
  method RootsOf(h: Hasher, ns: Bytes, ghost shares: seq<Share>, ghost treeSizes: seq<nat>, leafSets: seq<seq<Share>>)
    returns (subTreeRoots: seq<Bytes>)
    requires Sum(treeSizes) == |shares| && forall i :: 0 <= i < |treeSizes| ==> IsPow2(treeSizes[i])
    requires |leafSets| == |treeSizes| && CutBy(shares, treeSizes, leafSets)
    ensures subTreeRoots == SubtreeRoots(h, BlobLeaves(ns, shares), treeSizes)
  {
    hide Root, SubtreeRoots, IsPow2;
    ghost var want := SubtreeRoots(h, BlobLeaves(ns, shares), treeSizes);
    subTreeRoots := [];
    for i := 0 to |leafSets|
      invariant subTreeRoots == want[..i]
    {
      ghost var a := Sum(treeSizes[..i]);
      SetLeaves(ns, shares, a, treeSizes[i]);
      SubtreeRootAt(h, BlobLeaves(ns, shares), treeSizes, i);
      subTreeRoots := subTreeRoots + [Root(h, BlobLeaves(ns, leafSets[i]))];
    }
  }

  // ----- the two commitments agree -----

  /** In a square the leaves of a blob are those that its commitment is made from. */
  lemma LeavesInSquare(square: seq<Share>, at: nat, b: Blob)
    requires StandsAt(square, at, b)
    ensures at + SparseCount(|b.data|) <= |square|
    ensures SquareLeaves(square)[at..at + SparseCount(|b.data|)] == BlobLeaves(b.NamespaceOf(), BlobShares(b))
  {
    hide BlobShares, SparseCount, NamespaceBytes, IsUserNamespace, SubTreeWidth;
    BlobIn(b);
    var shares, n := BlobShares(b), SparseCount(|b.data|);
    forall i | 0 <= i < n ensures SquareLeaves(square)[at..at + n][i] == BlobLeaves(b.NamespaceOf(), shares)[i] {
      assert square[at + i] == square[at..at + n][i] == shares[i];
    }
  }

  /** The leaves of all row trees of an extended square. */
  function TreeRows(side: nat, rows: seq<seq<Share>>): (r: seq<seq<Bytes>>)
    ensures |r| == |rows|
  {
    seq(|rows|, r requires 0 <= r < |rows| => TreeLeaves(side, r, rows[r]))
  }

  /** In them the leaves of the original square are the shares behind their own namespaces. */
  lemma TreeRowsExtend(rows: seq<seq<Share>>, square: seq<Share>, side: nat)
    requires Extends(rows, square, side)
    ensures Extends(TreeRows(side, rows), SquareLeaves(square), side)
  {
    hide NamespaceBytes;
    forall r, c | 0 <= r < side && 0 <= c < side
      ensures InSquare(r, c, side) && TreeRows(side, rows)[r][c] == SquareLeaves(square)[r * side + c]
    {
      assert InSquare(r, c, side) && rows[r][c] == square[r * side + c];
    }
  }

  /** No hash collisions among the inner nodes of any one row tree. */
  ghost predicate RowsCollisionFree(h: Hasher, treeRows: seq<seq<Bytes>>) {
    forall r :: 0 <= r < |treeRows| ==> IsPow2(|treeRows[r]|) && CollisionFree(h, InnerNodes(h, treeRows[r]))
  }

  /** For every blob of every exported square, however it is extended, the commitment read from the cached
      row trees at the index recorded in the PFB is the commitment created from the blob alone. */
  method CommitmentsAgree(
    env: Env, ghost maxSquareSize: nat, txs: seq<Bytes>, blobTxs: seq<BlobTx>, p: nat, j: nat,
    h: Hasher, merkle: seq<Bytes> -> Bytes, rows: seq<seq<Share>>)
    returns (created: Result<Bytes>, read: Result<Bytes>)
    requires Admissible(env, maxSquareSize, txs, blobTxs) && p < |blobTxs| && j < |blobTxs[p].blobs|
    requires ValidBlobTxs(blobTxs) && Extends(rows, SquareShares(env, txs, blobTxs), Side(env, txs, blobTxs))
    requires RowsCollisionFree(h, TreeRows(Side(env, txs, blobTxs), rows))
    ensures created.Ok? && read == created
  {
    hide Admissible, SquareShares, Side, ValidBlobTxs, FinalPfbs, BlobCommitment, SubTreeWidth, SparseCount, SharesNeeded32,
         BlobShares, StandsAt, Extends, TreeRows, RowsCollisionFree, IsPow2;
    var side := Side(env, txs, blobTxs);
    var blob, at := blobTxs[p].blobs[j], RecordedFor(env, txs, blobTxs, p, j);
    ghost var square := SquareShares(env, txs, blobTxs);
    BlobFound(env, maxSquareSize, txs, blobTxs, p, j);
    PlacedBlobCount(square, at, blob);
    SidePow2(env, maxSquareSize, txs, blobTxs);
    created := CreateCommitment(h, merkle, blob);
    var n := SparseSharesNeeded(|blob.data|);
    read := ReadPlaced(h, merkle, side, rows, at, n, square, blob);
  }

  /** Computes the row roots with the caching trees and reads the commitment of a blob back. */
  method ReadPlaced(
    h: Hasher, merkle: seq<Bytes> -> Bytes, side: nat, rows: seq<seq<Share>>, at: nat, n: nat,
    ghost square: seq<Share>, ghost b: Blob)
    returns (read: Result<Bytes>)
    requires IsPow2(side) && Extends(rows, square, side) && RowsCollisionFree(h, TreeRows(side, rows))
    requires StandsAt(square, at, b) && n == SparseCount(|b.data|) && n > 0
    ensures |b.namespaceId| == NAMESPACE_ID_SIZE && b.shareVersion == 0
    ensures read == Ok(BlobCommitment(h, merkle, b))
  {
    hide SquareLeaves, InnerNodes, Root, BlobCommitment, IsPow2, CollisionFree, SubTreeWidth, SparseCount, NextShareIndex,
         BlobShares, LeftLeaves, CommitmentOf, ExtendedRows, StandsAt, Extends, TreeRows, RecordsAll, ReadRoots, ReachPlace;
    var treeRows := TreeRows(side, rows);
    TreeRowsExtend(rows, square, side);
    var cacher := new EdsSubTreeRootCacher();
    var rowRoots := cacher.RowRoots(h, treeRows);
    HoldsEveryRow(h, cacher, treeRows);
    ghost var leaves := SquareLeaves(square);
    LeafCounts(treeRows, leaves, side);
    CommitmentInSquare(h, merkle, square, at, b);
    AlreadyAligned(at, n, SUBTREE_ROOT_THRESHOLD);
    ghost var paths;
    read, paths := GetCommitment(merkle, cacher, rowRoots, at, n, SUBTREE_ROOT_THRESHOLD);
    CommitmentRead(h, merkle, cacher.Snapshot(), treeRows, rowRoots, side, paths, at, n, SUBTREE_ROOT_THRESHOLD);
    PlaceInOriginal(treeRows, leaves, side, at, n);
  }

  lemma HoldsEveryRow(h: Hasher, cacher: EdsSubTreeRootCacher, rows: seq<seq<Bytes>>)
    requires cacher.Holds(h, rows)
    ensures forall i: nat :: i < |cacher.caches| ==> i in cacher.caches
    ensures |cacher.Snapshot()| == |cacher.caches| == |rows| && RecordsAll(h, cacher.Snapshot(), rows)
    ensures forall i: nat :: i < |cacher.Snapshot()| ==> i in cacher.Snapshot()
  {
    hide IsPow2, Records, InnerNodes;
    SameKeys(cacher);
    assert forall i: nat :: i in cacher.Snapshot() <==> i in cacher.caches;
  }

  lemma LeafCounts(rows: seq<seq<Bytes>>, leaves: seq<Bytes>, side: nat)
    requires Extends(rows, leaves, side)
    ensures ExtendedRows(rows, side) && |rows| == 2 * side && |leaves| == side * side
  {
  }

  lemma PlacedBlobCount(square: seq<Share>, at: nat, b: Blob)
    requires StandsAt(square, at, b)
    ensures |b.data| < U32_LIMIT && Returns(|b.data|) && SharesNeeded32(|b.data|) == SparseCount(|b.data|) >= 1
    ensures b.Validate() == Ok(()) && b.shareVersion == 0
  {
    hide SharesNeeded32, SparseCount, HasAt, SubTreeWidth, IsUserNamespace, BlobShares;
    ValidBlobCount(b);
  }

  lemma SidePow2(env: Env, maxSquareSize: nat, txs: seq<Bytes>, blobTxs: seq<BlobTx>)
    requires Admissible(env, maxSquareSize, txs, blobTxs)
    ensures ValidBlobTxs(blobTxs) && IsPow2(Side(env, txs, blobTxs))
    ensures |SquareShares(env, txs, blobTxs)| == Side(env, txs, blobTxs) * Side(env, txs, blobTxs)
  {
    hide Admissible, SquareShares, ExportedSquare, Cost, BlobMinSquareSize, ValidBlobTxs, IsPow2;
    AdmissibleBlobs(env, maxSquareSize, txs, blobTxs);
    BlobMinSquareSizeFits(Cost(env, txs, blobTxs));
    ExportSucceeds(env, maxSquareSize, txs, blobTxs);
  }

  lemma CommitmentInSquare(h: Hasher, merkle: seq<Bytes> -> Bytes, square: seq<Share>, at: nat, b: Blob)
    requires StandsAt(square, at, b)
    ensures at + SparseCount(|b.data|) <= |square| && |b.namespaceId| == NAMESPACE_ID_SIZE && b.shareVersion == 0
    ensures b.Validate() == Ok(()) && 0 < |b.data| <= MAX_BLOB_LEN
    ensures at % SubTreeWidth(SparseCount(|b.data|), SUBTREE_ROOT_THRESHOLD) == 0
    ensures CommitmentOf(h, merkle, SquareLeaves(square)[at..at + SparseCount(|b.data|)], SUBTREE_ROOT_THRESHOLD)
         == BlobCommitment(h, merkle, b)
  {
    hide BlobShares, SparseCount, SquareLeaves, BlobLeaves, SubTreeWidth, CommitmentOf, IsUserNamespace;
    LeavesInSquare(square, at, b);
  }
}
