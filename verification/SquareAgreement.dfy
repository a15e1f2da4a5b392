/** A proposer and a validator agree on the square (Build and Construct in pkg/square/square.go), and
    exporting leaves no trace (Export in pkg/square/builder.go). */
module SquareAgreement {
  import opened Blobs
  import opened BlobUnmarshal
  import opened ByteSeqs
  import PowersOfTwo
  import opened Results
  import opened Square
  import SquareBuilder
  import SquareElements
  import opened SquareLayout
  import opened SquareTheorems

  ghost predicate AllNormal(txs: seq<Bytes>) {
    Processable(txs) && forall i :: 0 <= i < |txs| ==> !IsBlobTx(txs[i])
  }

  ghost predicate AllBlob(txs: seq<Bytes>) {
    Processable(txs) && forall i :: 0 <= i < |txs| ==> IsBlobTx(txs[i])
  }

  /** A proposer sorts what it admits into normal and blob transactions, and all of it fits. */
  lemma {:induction false} AdmittedFits(env: Env, capacity: nat, txs: seq<Bytes>)
    requires Processable(txs)
    ensures var (normal, blob) := Admitted(env, capacity, txs);
            && AllNormal(normal) && AllBlob(blob)
            && Cost(env, normal, BlobTxs(blob)) <= capacity
    decreases |txs|
  {
    hide Cost, AsBlobTx, NormalTxs, BlobTxs, IsBlobTx, AllNormal, AllBlob;
    if txs == [] {
      NoCost(env);
    } else {
      var n := |txs| - 1;
      AdmittedFits(env, capacity, txs[..n]);
      var (normal, blob) := Admitted(env, capacity, txs[..n]);
      BlobTxsSnoc(blob, txs[n]);
      KindsSnoc(normal, blob, txs[n]);
    }
  }

  lemma KindsSnoc(normal: seq<Bytes>, blob: seq<Bytes>, tx: Bytes)
    requires AllNormal(normal) && AllBlob(blob) && ProcessableTx(tx)
    ensures !IsBlobTx(tx) ==> AllNormal(normal + [tx])
    ensures IsBlobTx(tx) ==> AllBlob(blob + [tx])
  {
    hide IsBlobTx;
  }

  lemma NoCost(env: Env)
    ensures BlobTxs([]) == [] && Cost(env, [], []) == 0
    ensures AllNormal([]) && AllBlob([])
  {
  }

  /** Normal transactions in front of blob transactions are told apart again. */
  lemma {:induction false} OrderedSplits(normal: seq<Bytes>, blob: seq<Bytes>)
    requires AllNormal(normal) && AllBlob(blob)
    ensures Processable(normal + blob)
    ensures NormalTxs(normal + blob) == normal && BlobTxs(normal + blob) == BlobTxs(blob)
    decreases |normal| + |blob|
  {
    hide AsBlobTx, IsBlobTx, NormalTxs, BlobTxs;
    if blob != [] {
      var n := |blob| - 1;
      var tx := blob[n];
      assert blob == blob[..n] + [tx] && normal + blob == (normal + blob[..n]) + [tx];
      OrderedSplits(normal, blob[..n]);
      BlobTxsSnoc(normal + blob[..n], tx);
      BlobTxsSnoc(blob[..n], tx);
    } else if normal != [] {
      var n := |normal| - 1;
      assert normal + blob == normal[..n] + [normal[n]] && normal[..n] + blob == normal[..n];
      OrderedSplits(normal[..n], blob);
      BlobTxsSnoc(normal[..n], normal[n]);
    } else {
      EmptyListIsFine(Env(WrapperCodec(_ => [], _ => None), 0, b => b), 0);
    }
  }

  lemma {:induction false} BlobTxsAppend(a: seq<Bytes>, b: seq<Bytes>)
    requires Processable(a) && Processable(b)
    ensures Processable(a + b) && BlobTxs(a + b) == BlobTxs(a) + BlobTxs(b)
    decreases |b|
  {
    hide AsBlobTx;
    if b == [] {
      assert a + b == a;
    } else {
      var n := |b| - 1;
      assert a + b == (a + b[..n]) + [b[n]] && b == b[..n] + [b[n]];
      BlobTxsAppend(a, b[..n]);
      BlobTxsSnoc(a + b[..n], b[n]);
      BlobTxsSnoc(b[..n], b[n]);
    }
  }

  /** Every prefix of a list that fits is accepted. */
  lemma {:induction false} OrderedIsAccepted(env: Env, capacity: nat, normal: seq<Bytes>, blob: seq<Bytes>)
    requires AllNormal(normal) && AllBlob(blob)
    requires Cost(env, normal, BlobTxs(blob)) <= capacity
    ensures Processable(normal + blob) && Problem(env, capacity, normal + blob) == None
    decreases |normal| + |blob|
  {
    hide Cost, AsBlobTx, IsBlobTx, NormalTxs, BlobTxs;
    var txs := normal + blob;
    OrderedSplits(normal, blob);
    if blob != [] {
      var n := |blob| - 1;
      assert txs[..|txs| - 1] == normal + blob[..n] && blob == blob[..n] + [blob[n]];
      BlobTxsAppend(blob[..n], [blob[n]]);
      SquareElements.CostMonotone(env, normal, [], BlobTxs(blob[..n]), BlobTxs([blob[n]]));
      assert normal + [] == normal;
      OrderedIsAccepted(env, capacity, normal, blob[..n]);
    } else if normal != [] {
      var n := |normal| - 1;
      assert txs[..|txs| - 1] == normal[..n] + blob && normal == normal[..n] + [normal[n]];
      SquareElements.CostMonotone(env, normal[..n], [normal[n]], BlobTxs(blob), []);
      assert BlobTxs(blob) + [] == BlobTxs(blob);
      OrderedIsAccepted(env, capacity, normal[..n], blob);
      OrderedSplits(normal[..n], blob);
      EmptyListIsFine(env, 0);
    }
  }

  /** What a proposer builds is what a validator computes from the proposer's list, error or not. */
  lemma ProposerAndValidatorAgree(env: Env, maxSquareSize: nat, txs: seq<Bytes>)
    requires Processable(txs) && PowersOfTwo.IsPow2(maxSquareSize)
    ensures var (normal, blob) := Admitted(env, maxSquareSize * maxSquareSize, txs);
            && Problem(env, maxSquareSize * maxSquareSize, normal + blob) == None
            && NormalTxs(normal + blob) == normal && BlobTxs(normal + blob) == BlobTxs(blob)
            && ConstructedSquare(env, maxSquareSize, normal + blob) == ExportedSquare(env, normal, BlobTxs(blob))
  {
    hide Cost, AsBlobTx, NormalTxs, BlobTxs, Problem, ExportedSquare, Admitted;
    var capacity := maxSquareSize * maxSquareSize;
    AdmittedFits(env, capacity, txs);
    var (normal, blob) := Admitted(env, capacity, txs);
    OrderedIsAccepted(env, capacity, normal, blob);
    OrderedSplits(normal, blob);
  }

  /** The same about the two operations themselves. */
  method BuildThenConstruct(env: Env, maxSquareSize: int, txs: seq<Bytes>)
    returns (proposed: Result<seq<Bytes>>, ordered: seq<Bytes>, validated: Result<seq<Bytes>>)
    requires Processable(txs)
    ensures validated == proposed
    ensures Processable(ordered) && multiset(ordered) <= multiset(txs)
  {
    hide Cost, AsBlobTx, NormalTxs, BlobTxs, Problem, ExportedSquare, Admitted;
    proposed, ordered := Build(env, maxSquareSize, txs);
    if maxSquareSize > 0 && PowersOfTwo.IsPow2(maxSquareSize) {
      ProposerAndValidatorAgree(env, maxSquareSize, txs);
      AdmittedFromList(env, maxSquareSize * maxSquareSize, txs);
    }
    validated := Construct(env, maxSquareSize, ordered);
  }

  /** Nothing is invented or duplicated by a proposer. */
  lemma {:induction false} AdmittedFromList(env: Env, capacity: nat, txs: seq<Bytes>)
    requires Processable(txs)
    ensures var (normal, blob) := Admitted(env, capacity, txs);
            multiset(normal + blob) <= multiset(txs)
    decreases |txs|
  {
    hide Cost, AsBlobTx, BlobTxs;
    if txs != [] {
      var n := |txs| - 1;
      AdmittedFromList(env, capacity, txs[..n]);
      var (normal, blob) := Admitted(env, capacity, txs[..n]);
      assert txs == txs[..n] + [txs[n]];
      assert multiset(normal + blob) == multiset(normal) + multiset(blob);
    }
  }

  // ----- exports leave no trace -----

  /** Exporting again gives the same square. */
  method ExportTwice(builder: SquareBuilder.Builder) returns (first: Result<seq<Bytes>>, second: Result<seq<Bytes>>)
    requires builder.Valid()
    modifies builder
    ensures builder.Valid() && first == second
  {
    hide ExportedSquare, Cost;
    first := builder.Export();
    second := builder.Export();
  }

  datatype Append = Normal(tx: Bytes) | WithBlobs(t: BlobTx)

  /** What has been admitted after a run of appends. */
  function After(env: Env, capacity: nat, appends: seq<Append>): (r: (seq<Bytes>, seq<BlobTx>))
  {
    if appends == [] then ([], [])
    else
      var (txs, blobTxs) := After(env, capacity, appends[..|appends| - 1]);
      match appends[|appends| - 1]
      case Normal(tx) => if Cost(env, txs + [tx], blobTxs) <= capacity then (txs + [tx], blobTxs) else (txs, blobTxs)
      case WithBlobs(t) => if Cost(env, txs, blobTxs + [t]) <= capacity then (txs, blobTxs + [t]) else (txs, blobTxs)
  }

  method AppendOne(builder: SquareBuilder.Builder, append: Append)
    requires builder.Valid() && (append.WithBlobs? ==> SquareBuilder.Countable(append.t))
    modifies builder, builder.txCounter, builder.pfbCounter
    ensures builder.Valid()
    ensures (builder.txs, builder.blobTxs)
         == match append
            case Normal(tx) =>
              if Cost(builder.env, old(builder.txs) + [tx], old(builder.blobTxs)) <= builder.maxCapacity
              then (old(builder.txs) + [tx], old(builder.blobTxs)) else (old(builder.txs), old(builder.blobTxs))
            case WithBlobs(t) =>
              if Cost(builder.env, old(builder.txs), old(builder.blobTxs) + [t]) <= builder.maxCapacity
              then (old(builder.txs), old(builder.blobTxs) + [t]) else (old(builder.txs), old(builder.blobTxs))
  {
    hide ExportedSquare, Cost;
    match append
    case Normal(tx) => var _ := builder.AppendTx(tx);
    case WithBlobs(t) => var _ := builder.AppendBlobTx(t);
  }

  /** Exports between appends change neither what is admitted nor the square in the end: for every
      choice of `exportAfter` the result is that of the appends alone. */
  method ExportBetweenAppends(env: Env, maxSquareSize: nat, appends: seq<Append>, exportAfter: seq<bool>)
    returns (r: Result<seq<Bytes>>)
    requires |exportAfter| == |appends|
    requires forall i :: 0 <= i < |appends| && appends[i].WithBlobs? ==> SquareBuilder.Countable(appends[i].t)
    ensures var (txs, blobTxs) := After(env, maxSquareSize * maxSquareSize, appends);
            r == ExportedSquare(env, txs, blobTxs)
  {
    hide ExportedSquare, Cost;
    var capacity := maxSquareSize * maxSquareSize;
    var builder := new SquareBuilder.Builder(env, maxSquareSize);
    for i := 0 to |appends|
      invariant builder.Valid() && builder.env == env && builder.maxCapacity == capacity
      invariant fresh(builder) && fresh(builder.txCounter) && fresh(builder.pfbCounter)
      invariant (builder.txs, builder.blobTxs) == After(env, capacity, appends[..i])
    {
      assert appends[..i + 1][..i] == appends[..i];
      AppendOne(builder, appends[i]);
      if exportAfter[i] {
        r := builder.Export();
      }
    }
    assert appends[..|appends|] == appends;
    r := builder.Export();
  }

  /** Whatever was accepted and rejected, what is left fits. */
  lemma {:induction false} AfterFits(env: Env, capacity: nat, appends: seq<Append>)
    ensures var (txs, blobTxs) := After(env, capacity, appends);
            Cost(env, txs, blobTxs) <= capacity
  {
    hide Cost;
    if appends == [] {
      NoCost(env);
    } else {
      AfterFits(env, capacity, appends[..|appends| - 1]);
    }
  }

  ghost predicate ValidAppends(appends: seq<Append>) {
    forall i :: 0 <= i < |appends| && appends[i].WithBlobs? ==> ValidBlobTxs([appends[i].t])
  }

  lemma {:induction false} AfterIsValid(env: Env, capacity: nat, appends: seq<Append>)
    requires ValidAppends(appends)
    ensures ValidBlobTxs(After(env, capacity, appends).1)
  {
    hide Cost, ValidBlob;
    if appends != [] {
      var n := |appends| - 1;
      AfterIsValid(env, capacity, appends[..n]);
      if appends[n].WithBlobs? {
        assert ValidBlobTxs([appends[n].t]);
        assert [appends[n].t][0] == appends[n].t;
      }
    }
  }

  /** After any run of accepted and rejected appends of valid transactions, Export succeeds with the square
      in closed form, whose side is within the limit. */
  lemma AnyRunExports(env: Env, maxSquareSize: nat, appends: seq<Append>)
    requires Lawful(env.codec) && PowersOfTwo.IsPow2(maxSquareSize) && maxSquareSize <= SquareSizeUpperBound(env.appVersion)
    requires ValidAppends(appends)
    ensures var (txs, blobTxs) := After(env, maxSquareSize * maxSquareSize, appends);
            && ValidBlobTxs(blobTxs)
            && ExportedSquare(env, txs, blobTxs) == Ok(SquareShares(env, txs, blobTxs))
            && |SquareShares(env, txs, blobTxs)| == Side(env, txs, blobTxs) * Side(env, txs, blobTxs)
            && Side(env, txs, blobTxs) <= maxSquareSize
  {
    hide Cost, ValidBlobTxs, Lawful, ExportedSquare, SquareShares, Side, After, ValidAppends;
    AfterFits(env, maxSquareSize * maxSquareSize, appends);
    AfterIsValid(env, maxSquareSize * maxSquareSize, appends);
    var (txs, blobTxs) := After(env, maxSquareSize * maxSquareSize, appends);
    ExportSucceeds(env, maxSquareSize, txs, blobTxs);
    SideIsLeast(env, maxSquareSize, txs, blobTxs, maxSquareSize);
  }

  /** The blobs of all blob transactions in the list are valid. */
  ghost predicate AllBlobsValid(txs: seq<Bytes>)
    requires Processable(txs)
  {
    forall i :: 0 <= i < |txs| && IsBlobTx(txs[i]) ==> ValidBlobTxs([AsBlobTx(txs[i]).value])
  }

  /** For valid blobs a proposal is not just consistent but always successful. */
  lemma ProposalSucceeds(env: Env, maxSquareSize: nat, txs: seq<Bytes>)
    requires Processable(txs) && Lawful(env.codec) && PowersOfTwo.IsPow2(maxSquareSize)
    requires maxSquareSize <= SquareSizeUpperBound(env.appVersion) && AllBlobsValid(txs)
    ensures var (normal, blob) := Admitted(env, maxSquareSize * maxSquareSize, txs);
            ConstructedSquare(env, maxSquareSize, normal + blob).Ok?
  {
    hide Cost, AsBlobTx, ExportedSquare, SquareShares, NormalTxs, BlobTxs, ConstructedSquare, Admitted, ValidBlobTxs, Lawful;
    ProposerAndValidatorAgree(env, maxSquareSize, txs);
    AdmittedFits(env, maxSquareSize * maxSquareSize, txs);
    AdmittedIsValid(env, maxSquareSize * maxSquareSize, txs);
    var (normal, blob) := Admitted(env, maxSquareSize * maxSquareSize, txs);
    ExportSucceeds(env, maxSquareSize, normal, BlobTxs(blob));
  }

  lemma {:induction false} AdmittedIsValid(env: Env, capacity: nat, txs: seq<Bytes>)
    requires Processable(txs) && AllBlobsValid(txs)
    ensures ValidBlobTxs(BlobTxs(Admitted(env, capacity, txs).1))
  {
    hide Cost, AsBlobTx, ValidBlobTxs, BlobTxs;
    if txs == [] {
      NoCost(env);
      NoneAreValid();
    } else {
      var n := |txs| - 1;
      AdmittedIsValid(env, capacity, txs[..n]);
      var blob := Admitted(env, capacity, txs[..n]).1;
      BlobTxsSnoc(blob, txs[n]);
      if IsBlobTx(txs[n]) {
        ValidBlobTxsSnoc(BlobTxs(blob), AsBlobTx(txs[n]).value);
      }
    }
  }

  lemma NoneAreValid()
    ensures ValidBlobTxs([])
  {
  }

  lemma ValidBlobTxsSnoc(blobTxs: seq<BlobTx>, t: BlobTx)
    requires ValidBlobTxs(blobTxs) && ValidBlobTxs([t])
    ensures ValidBlobTxs(blobTxs + [t])
  {
    hide ValidBlob;
    assert [t][0] == t;
  }
}
