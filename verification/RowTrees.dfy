/** The leaves that are pushed into the row and column trees (pkg/wrapper/nmt_wrapper.go). */
module RowTrees {
  import opened Blobs
  import opened ByteSeqs
  import opened Commitment
  import opened Namespaces
  import PowersOfTwo
  import opened ShareFormat
  import opened ShareProof
  import opened SquareLayout
  import opened SquarePlacement
  import opened SquareTheorems

  /** The namespace under which the tree keeps a leaf. */
  function LeafNamespace(leaf: Bytes): (ns: Bytes)
    requires |leaf| >= NAMESPACE_SIZE
  {
    leaf[..NAMESPACE_SIZE]
  }

  function Column(rows: seq<seq<Share>>, c: nat): (column: seq<Share>)
    requires forall r :: 0 <= r < |rows| ==> c < |rows[r]|
  {
    seq(|rows|, r requires 0 <= r < |rows| => rows[r][c])
  }

  /** The tree takes the leaves: they carry a namespace, and the namespaces do not decrease. */
  ghost predicate Pushable(leaves: seq<Bytes>) {
    && (forall i :: 0 <= i < |leaves| ==> |leaves[i]| >= NAMESPACE_SIZE)
    && (forall i, j :: 0 <= i < j < |leaves| ==> Leq(LeafNamespace(leaves[i]), LeafNamespace(leaves[j])))
  }

  /** The shares of an axis that lie in the original square have supported namespaces in order. */
  ghost predicate AxisInOrder(side: nat, axis: seq<Share>) {
    && (forall i :: 0 <= i < side && i < |axis| ==> Supported(NamespaceBytes(axis[i])))
    && (forall i, j :: 0 <= i < j < side && j < |axis| ==> Leq(NamespaceBytes(axis[i]), NamespaceBytes(axis[j])))
  }

  /** The parity namespace is behind all others. */
  lemma {:induction false} ParityIsLast(a: Bytes, b: Bytes)
    requires |a| == |b| && forall i :: 0 <= i < |b| ==> b[i] == 255
    ensures Leq(a, b)
    decreases |a|
  {
    if a != [] {
      ParityIsLast(a[1..], b[1..]);
    }
  }

  /** A share of the original quarter is kept behind its own namespace, any other behind the parity
      namespace; the share itself is the rest of the leaf. */
  lemma LeafParts(side: nat, axisIndex: nat, shareIndex: nat, s: Share)
    ensures var leaf := TreeLeaf(side, axisIndex, shareIndex, s);
            && |leaf| == NAMESPACE_SIZE + SHARE_SIZE && leaf[NAMESPACE_SIZE..] == s
            && LeafNamespace(leaf) == (if shareIndex < side && axisIndex < side then NamespaceBytes(s) else Secondary(255))
            && Leq(LeafNamespace(leaf), Secondary(255))
  {
    var leaf := TreeLeaf(side, axisIndex, shareIndex, s);
    assert leaf[..NAMESPACE_SIZE] == if shareIndex < side && axisIndex < side then NamespaceBytes(s) else Secondary(255);
    ParityIsLast(LeafNamespace(leaf), Secondary(255));
  }

  lemma AxisPushable(side: nat, axisIndex: nat, axis: seq<Share>)
    requires axisIndex < side ==> AxisInOrder(side, axis)
    ensures Pushable(TreeLeaves(side, axisIndex, axis))
  {
    hide Leq, NamespaceBytes, LeafNamespace, TreeLeaf, Supported;
    var leaves := TreeLeaves(side, axisIndex, axis);
    forall i | 0 <= i < |axis| ensures |leaves[i]| >= NAMESPACE_SIZE {
      LeafParts(side, axisIndex, i, axis[i]);
    }
    forall i, j | 0 <= i < j < |axis| ensures Leq(LeafNamespace(leaves[i]), LeafNamespace(leaves[j])) {
      LeafParts(side, axisIndex, i, axis[i]);
      LeafParts(side, axisIndex, j, axis[j]);
    }
  }

  lemma RowInOrder(square: seq<Share>, side: nat, rows: seq<seq<Share>>, r: nat)
    requires Extends(rows, square, side) && r < side && Within(square, TX_NAMESPACE, TAIL_PADDING_NAMESPACE)
    ensures AxisInOrder(side, rows[r])
  {
    hide Leq, NamespaceBytes, Supported;
    forall i | 0 <= i < side ensures InSquare(r, i, side) && rows[r][i] == square[r * side + i] {
    }
  }

  lemma ColumnAt(square: seq<Share>, side: nat, rows: seq<seq<Share>>, r: nat, c: nat)
    requires Extends(rows, square, side) && r < side && c < side
    ensures RowStart(r, side) + c < |square| && Column(rows, c)[r] == square[RowStart(r, side) + c]
  {
    assert InSquare(r, c, side) && rows[r][c] == square[r * side + c];
  }

  lemma ColumnInOrder(square: seq<Share>, side: nat, rows: seq<seq<Share>>, c: nat)
    requires Extends(rows, square, side) && c < side && Within(square, TX_NAMESPACE, TAIL_PADDING_NAMESPACE)
    ensures |Column(rows, c)| == |rows| && AxisInOrder(side, Column(rows, c))
  {
    hide Leq, NamespaceBytes, Supported, InSquare, RowStart;
    var axis := Column(rows, c);
    forall i | 0 <= i < side ensures Supported(NamespaceBytes(axis[i])) {
      ColumnAt(square, side, rows, i, c);
    }
    forall i, j | 0 <= i < j < side ensures Leq(NamespaceBytes(axis[i]), NamespaceBytes(axis[j])) {
      ColumnAt(square, side, rows, i, c);
      ColumnAt(square, side, rows, j, c);
      RowsAscend(i, j, side);
    }
  }

  lemma RowsAscend(i: nat, j: nat, side: nat)
    requires i < j
    ensures RowStart(i, side) + side <= RowStart(j, side)
  {
    PowersOfTwo.MulSucc(i, j, side);
  }

  /** However an exported square is extended, every row and every column can be pushed into its tree. */
  lemma TreesTakeSquare(env: Env, maxSquareSize: nat, txs: seq<Bytes>, blobTxs: seq<BlobTx>, rows: seq<seq<Share>>, k: nat)
    requires Admissible(env, maxSquareSize, txs, blobTxs)
    requires Extends(rows, SquareShares(env, txs, blobTxs), Side(env, txs, blobTxs)) && k < |rows|
    ensures Pushable(TreeLeaves(Side(env, txs, blobTxs), k, rows[k]))
    ensures forall r :: 0 <= r < |rows| ==> k < |rows[r]|
    ensures Pushable(TreeLeaves(Side(env, txs, blobTxs), k, Column(rows, k)))
  {
    hide SquareShares, Cost, Side, Pushable, Within, AxisInOrder, TreeLeaves, Column;
    var square, side := SquareShares(env, txs, blobTxs), Side(env, txs, blobTxs);
    NamespacesInOrder(env, txs, blobTxs);
    if k < side {
      RowInOrder(square, side, rows, k);
      ColumnInOrder(square, side, rows, k);
    }
    AxisPushable(side, k, rows[k]);
    AxisPushable(side, k, Column(rows, k));
  }
}
