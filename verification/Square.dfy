/** Building a square from transactions, as a proposer and as a validator (pkg/square/square.go,
    NewBuilder in pkg/square/builder.go). */
module Square {
  import opened Blobs
  import opened BlobUnmarshal
  import BlobWire
  import opened ByteSeqs
  import opened PowersOfTwo
  import opened Results
  import opened SquareBuilder
  import opened SquareLayout

  /** Bytes that Go can hold; if they are a blob transaction, the shares of its blobs can be counted. */
  ghost predicate ProcessableTx(tx: Bytes) {
    |tx| < BlobWire.INT64_LIMIT && (AsBlobTx(tx).Some? ==> Countable(AsBlobTx(tx).value))
  }

  ghost predicate Processable(txs: seq<Bytes>) {
    forall i :: 0 <= i < |txs| ==> ProcessableTx(txs[i])
  }

  predicate IsBlobTx(tx: Bytes)
    requires |tx| < BlobWire.INT64_LIMIT
  {
    AsBlobTx(tx).Some?
  }

  function NormalTxs(txs: seq<Bytes>): (r: seq<Bytes>)
    requires Processable(txs)
  {
    if txs == [] then []
    else
      var init, last := txs[..|txs| - 1], txs[|txs| - 1];
      if IsBlobTx(last) then NormalTxs(init) else NormalTxs(init) + [last]
  }

  function BlobTxs(txs: seq<Bytes>): (r: seq<BlobTx>)
    requires Processable(txs)
  {
    if txs == [] then []
    else
      var init, last := txs[..|txs| - 1], txs[|txs| - 1];
      if IsBlobTx(last) then BlobTxs(init) + [AsBlobTx(last).value] else BlobTxs(init)
  }

  /** What is wrong with a list of transactions for a square of the given capacity, if anything. */
  function Problem(env: Env, capacity: nat, txs: seq<Bytes>): (r: Option<Error>)
    requires Processable(txs)
  {
    if txs == [] then None
    else
      var init, last := txs[..|txs| - 1], txs[|txs| - 1];
      match Problem(env, capacity, init)
      case Some(e) => Some(e)
      case None =>
        if !IsBlobTx(last) && BlobTxs(init) != [] then Some(NormalTxAfterBlobTx)
        else if Cost(env, NormalTxs(txs), BlobTxs(txs)) > capacity then Some(NotEnoughSpace)
        else None
  }

  /** NewBuilder: a builder that has admitted all of the transactions, in order. */
  method NewBuilder(env: Env, maxSquareSize: int, txs: seq<Bytes>) returns (r: Result<Builder>)
    requires Processable(txs)
    ensures maxSquareSize <= 0 || !IsPow2(maxSquareSize) ==> r == Err(InvalidSquareSize)
    ensures maxSquareSize > 0 && IsPow2(maxSquareSize) ==>
              match Problem(env, maxSquareSize * maxSquareSize, txs)
              case Some(e) => r == Err(e)
              case None =>
                && r.Ok? && fresh(r.value) && fresh(r.value.txCounter) && fresh(r.value.pfbCounter)
                && r.value.Valid() && r.value.env == env && r.value.maxCapacity == maxSquareSize * maxSquareSize
                && r.value.txs == NormalTxs(txs) && r.value.blobTxs == BlobTxs(txs)
  {
    hide Cost, IsBlobTx, NormalTxs, BlobTxs, Problem, ProcessableTx, Builder.Consistent, ExportedSquare, FinalPfbs;
    if maxSquareSize <= 0 {
      return Err(InvalidSquareSize);
    }
    BitTrickDecidesPow2(maxSquareSize);
    if BitAnd(maxSquareSize, maxSquareSize - 1) != 0 {
      return Err(InvalidSquareSize);
    }
    var capacity := maxSquareSize * maxSquareSize;
    var builder := new Builder(env, maxSquareSize);
    var seenFirstBlobTx := false;
    EmptyListIsFine(env, maxSquareSize);
    assert txs[..0] == [];
    for i := 0 to |txs|
      invariant builder.Valid() && builder.env == env && builder.maxCapacity == capacity
      invariant fresh(builder) && fresh(builder.txCounter) && fresh(builder.pfbCounter)
      invariant Processable(txs[..i]) && builder.txs == NormalTxs(txs[..i]) && builder.blobTxs == BlobTxs(txs[..i])
      invariant Problem(env, capacity, txs[..i]) == None
      invariant seenFirstBlobTx == (builder.blobTxs != [])
    {
      ProblemStep(env, capacity, txs, i);
      var problem := AppendNext(builder, txs[i], seenFirstBlobTx);
      if problem.Some? {
        ProblemStays(env, capacity, txs, i + 1);
        return Err(problem.value);
      }
      seenFirstBlobTx := |builder.pfbs| > 0;
    }
    assert txs[..|txs|] == txs;
    return Ok(builder);
  }

  /** The loop body of NewBuilder: appends one transaction, unless it may not come here or does not fit. */
  method AppendNext(builder: Builder, tx: Bytes, seenFirstBlobTx: bool) returns (problem: Option<Error>)
    requires builder.Valid() && ProcessableTx(tx)
    requires seenFirstBlobTx == (builder.blobTxs != [])
    modifies builder, builder.txCounter, builder.pfbCounter
    ensures builder.Valid() && |builder.pfbs| == |builder.blobTxs|
    ensures !IsBlobTx(tx) && seenFirstBlobTx ==> problem == Some(NormalTxAfterBlobTx)
    ensures IsBlobTx(tx) || !seenFirstBlobTx ==>
              var t := old(builder.txs) + [tx];
              var b := if IsBlobTx(tx) then old(builder.blobTxs) + [AsBlobTx(tx).value] else old(builder.blobTxs);
              var cost := Cost(builder.env, if IsBlobTx(tx) then old(builder.txs) else t, b);
              problem == if cost > builder.maxCapacity then Some(NotEnoughSpace) else None
    ensures problem == None ==>
              && builder.txs == (if IsBlobTx(tx) then old(builder.txs) else old(builder.txs) + [tx])
              && builder.blobTxs == (if IsBlobTx(tx) then old(builder.blobTxs) + [AsBlobTx(tx).value]
                                     else old(builder.blobTxs))
  {
    hide Cost, AsBlobTx, ExportedSquare;
    var blobTx, isBlobTx := UnmarshalBlobTx(tx);
    var ok;
    if isBlobTx {
      ok := builder.AppendBlobTx(blobTx);
    } else {
      if seenFirstBlobTx {
        return Some(NormalTxAfterBlobTx);
      }
      ok := builder.AppendTx(tx);
    }
    return if ok then None else Some(NotEnoughSpace);
  }

  /** The next transaction, in terms of the specification. */
  lemma ProblemStep(env: Env, capacity: nat, txs: seq<Bytes>, i: nat)
    requires Processable(txs) && i < |txs| && Problem(env, capacity, txs[..i]) == None
    ensures Processable(txs[..i + 1])
    ensures NormalTxs(txs[..i + 1]) == if IsBlobTx(txs[i]) then NormalTxs(txs[..i]) else NormalTxs(txs[..i]) + [txs[i]]
    ensures BlobTxs(txs[..i + 1])
         == if IsBlobTx(txs[i]) then BlobTxs(txs[..i]) + [AsBlobTx(txs[i]).value] else BlobTxs(txs[..i])
    ensures Problem(env, capacity, txs[..i + 1])
         == if !IsBlobTx(txs[i]) && BlobTxs(txs[..i]) != [] then Some(NormalTxAfterBlobTx)
            else if Cost(env, NormalTxs(txs[..i + 1]), BlobTxs(txs[..i + 1])) > capacity then Some(NotEnoughSpace)
            else None
  {
    hide Cost, AsBlobTx;
    assert txs[..i + 1][..i] == txs[..i];
  }

  lemma {:induction false} ProblemStays(env: Env, capacity: nat, txs: seq<Bytes>, i: nat)
    requires Processable(txs) && i <= |txs| && Problem(env, capacity, txs[..i]).Some?
    ensures Problem(env, capacity, txs) == Problem(env, capacity, txs[..i])
    decreases |txs| - i
  {
    hide Cost, AsBlobTx;
    if i == |txs| {
      assert txs[..i] == txs;
    } else {
      assert txs[..i + 1][..i] == txs[..i];
      ProblemStays(env, capacity, txs, i + 1);
    }
  }

  /** The square that a validator computes. */
  function ConstructedSquare(env: Env, maxSquareSize: int, txs: seq<Bytes>): (r: Result<seq<Bytes>>)
    requires Processable(txs)
  {
    if maxSquareSize <= 0 || !IsPow2(maxSquareSize) then Err(InvalidSquareSize)
    else
      match Problem(env, maxSquareSize * maxSquareSize, txs)
      case Some(e) => Err(e)
      case None => ExportedSquare(env, NormalTxs(txs), BlobTxs(txs))
  }

  method Construct(env: Env, maxSquareSize: int, txs: seq<Bytes>) returns (r: Result<seq<Bytes>>)
    requires Processable(txs)
    ensures r == ConstructedSquare(env, maxSquareSize, txs)
  {
    hide Cost, ExportedSquare, Problem, NormalTxs, BlobTxs;
    var builder := NewBuilder(env, maxSquareSize, txs);
    if builder.Err? {
      return Err(builder.error);
    }
    r := builder.value.Export();
  }

  // ----- the proposer -----

  /** The transactions that a proposer admits from a prioritised list: normal ones and blob ones. */
  function Admitted(env: Env, capacity: nat, txs: seq<Bytes>): (r: (seq<Bytes>, seq<Bytes>))
    requires Processable(txs)
    ensures Processable(r.0) && Processable(r.1)
  {
    if txs == [] then ([], [])
    else
      var (normal, blob) := Admitted(env, capacity, txs[..|txs| - 1]);
      AdmittedIsProcessable(env, capacity, normal, blob, txs[|txs| - 1]);
      AdmittedNext(env, capacity, normal, blob, txs[|txs| - 1])
  }

  lemma AdmittedIsProcessable(env: Env, capacity: nat, normal: seq<Bytes>, blob: seq<Bytes>, tx: Bytes)
    requires Processable(normal) && Processable(blob) && ProcessableTx(tx)
    ensures var (n, b) := AdmittedNext(env, capacity, normal, blob, tx);
            Processable(n) && Processable(b)
  {
    hide ProcessableTx, Cost, AsBlobTx, BlobTxs, IsBlobTx;
  }

  /** What one more transaction changes: it is admitted if it fits. */
  function AdmittedNext(env: Env, capacity: nat, normal: seq<Bytes>, blob: seq<Bytes>, tx: Bytes)
    : (r: (seq<Bytes>, seq<Bytes>))
    requires Processable(normal) && Processable(blob) && ProcessableTx(tx)
  {
    if IsBlobTx(tx) then
      if Cost(env, normal, BlobTxs(blob) + [AsBlobTx(tx).value]) <= capacity then (normal, blob + [tx])
      else (normal, blob)
    else
      if Cost(env, normal + [tx], BlobTxs(blob)) <= capacity then (normal + [tx], blob)
      else (normal, blob)
  }

  /** Build: the square over all transactions that fit, and the list of those transactions, normal ones
      first. */
  method Build(env: Env, maxSquareSize: int, txs: seq<Bytes>) returns (r: Result<seq<Bytes>>, ordered: seq<Bytes>)
    requires Processable(txs)
    ensures maxSquareSize <= 0 || !IsPow2(maxSquareSize) ==> r == Err(InvalidSquareSize) && ordered == []
    ensures maxSquareSize > 0 && IsPow2(maxSquareSize) ==>
              var (normal, blob) := Admitted(env, maxSquareSize * maxSquareSize, txs);
              ordered == normal + blob && r == ExportedSquare(env, normal, BlobTxs(blob))
  {
    hide AdmittedNext, ProcessableTx, ExportedSquare, Problem, NormalTxs, BlobTxs, Cost;
    assert Processable([]);
    var builderOrError := NewBuilder(env, maxSquareSize, []);
    if builderOrError.Err? {
      EmptyListIsFine(env, maxSquareSize);
      return Err(builderOrError.error), [];
    }
    var builder, capacity := builderOrError.value, maxSquareSize * maxSquareSize;
    EmptyListIsFine(env, maxSquareSize);
    var normalTxs: seq<Bytes>, blobTxs: seq<Bytes> := [], [];
    assert txs[..0] == [];
    for i := 0 to |txs|
      invariant builder.Valid() && builder.env == env && builder.maxCapacity == capacity
      invariant fresh(builder) && fresh(builder.txCounter) && fresh(builder.pfbCounter)
      invariant Processable(txs[..i]) && (normalTxs, blobTxs) == Admitted(env, capacity, txs[..i])
      invariant builder.txs == normalTxs && builder.blobTxs == BlobTxs(blobTxs)
    {
      assert txs[..i + 1][..i] == txs[..i];
      normalTxs, blobTxs := Admit(builder, txs[i], normalTxs, blobTxs);
    }
    assert txs[..|txs|] == txs;
    r := builder.Export();
    ordered := normalTxs + blobTxs;
  }

  /** The loop body of Build: appends one transaction if it fits. */
  method Admit(builder: Builder, tx: Bytes, normalTxs: seq<Bytes>, blobTxs: seq<Bytes>)
    returns (normalTxs': seq<Bytes>, blobTxs': seq<Bytes>)
    requires builder.Valid() && ProcessableTx(tx) && Processable(normalTxs) && Processable(blobTxs)
    requires builder.txs == normalTxs && builder.blobTxs == BlobTxs(blobTxs)
    modifies builder, builder.txCounter, builder.pfbCounter
    ensures builder.Valid() && Processable(normalTxs') && Processable(blobTxs')
    ensures builder.txs == normalTxs' && builder.blobTxs == BlobTxs(blobTxs')
    ensures (normalTxs', blobTxs') == AdmittedNext(builder.env, builder.maxCapacity, normalTxs, blobTxs, tx)
  {
    hide Cost, AsBlobTx, ExportedSquare, NormalTxs, BlobTxs;
    normalTxs', blobTxs' := normalTxs, blobTxs;
    BlobTxsSnoc(blobTxs, tx);
    var blobTx, isBlobTx := UnmarshalBlobTx(tx);
    if isBlobTx {
      var ok := builder.AppendBlobTx(blobTx);
      if ok {
        blobTxs' := blobTxs + [tx];
      }
    } else {
      var ok := builder.AppendTx(tx);
      if ok {
        normalTxs' := normalTxs + [tx];
      }
    }
  }

  lemma EmptyListIsFine(env: Env, maxSquareSize: int)
    ensures Problem(env, if maxSquareSize > 0 then maxSquareSize * maxSquareSize else 0, []) == None
    ensures NormalTxs([]) == [] && BlobTxs([]) == []
  {
  }

  lemma BlobTxsSnoc(blobTxs: seq<Bytes>, tx: Bytes)
    requires Processable(blobTxs) && ProcessableTx(tx)
    ensures Processable(blobTxs + [tx])
    ensures IsBlobTx(tx) ==> BlobTxs(blobTxs + [tx]) == BlobTxs(blobTxs) + [AsBlobTx(tx).value]
    ensures !IsBlobTx(tx) ==> NormalTxs(blobTxs + [tx]) == NormalTxs(blobTxs) + [tx]
    ensures IsBlobTx(tx) ==> NormalTxs(blobTxs + [tx]) == NormalTxs(blobTxs)
    ensures !IsBlobTx(tx) ==> BlobTxs(blobTxs + [tx]) == BlobTxs(blobTxs)
  {
    hide AsBlobTx;
    assert (blobTxs + [tx])[..|blobTxs|] == blobTxs;
  }
}
