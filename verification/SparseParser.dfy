/** Reading blobs back from sparse shares (pkg/shares/parse_sparse_shares.go). */
module SparseParser {
  import opened Blobs
  import opened ByteSeqs
  import opened Namespaces
  import opened Results
  import opened ShareFormat
  import opened SparseSplitter

  datatype Sequence = Sequence(blob: Blob, sequenceLen: nat)

  /** What one share does to the sequences found so far. */
  function TakeShare(found: seq<Sequence>, s: Share): (r: Result<seq<Sequence>>)
  {
    if Version(s) != 0 then Err(UnsupportedShareVersion)
    else if !Supported(NamespaceBytes(s)) then Err(UnsupportedNamespace)
    else if IsPadding(s).value then Ok(found)
    else if IsSequenceStart(s) then
      var ns := NamespaceBytes(s);
      Ok(found + [Sequence(Blob(ns[1..], RawData(s).value, Version(s), ns[0]), SequenceLen(s))])
    else if found == [] then Err(ContinuationWithoutStart)
    else
      var prev := found[|found| - 1];
      Ok(found[|found| - 1 := prev.(blob := prev.blob.(data := prev.blob.data + RawData(s).value))])
  }

  function Fold(found: seq<Sequence>, shares: seq<Share>): (r: Result<seq<Sequence>>)
    decreases |shares|
  {
    if shares == [] then Ok(found)
    else
      match TakeShare(found, shares[0])
      case Err(e) => Err(e)
      case Ok(more) => Fold(more, shares[1..])
  }

  /** Cuts every sequence to its length. The source panics when a sequence is shorter than that. */
  function TrimAll(sequences: seq<Sequence>): (r: Result<seq<Blob>>)
  {
    if sequences == [] then Ok([])
    else
      var q := sequences[0];
      if q.sequenceLen > |q.blob.data| then Err(SequenceTooShort)
      else Prepend([q.blob.(data := q.blob.data[..q.sequenceLen])], TrimAll(sequences[1..]))
  }

  function ParseBlobs(shares: seq<Share>): (r: Result<seq<Blob>>)
  {
    match Fold([], shares)
    case Err(e) => Err(e)
    case Ok(sequences) => TrimAll(sequences)
  }

  method ParseSparseShares(shares: seq<Share>) returns (r: Result<seq<Blob>>)
    ensures r == ParseBlobs(shares)
  {
    hide TakeShare, IsPadding, RawData;
    var sequences: seq<Sequence> := [];
    for i := 0 to |shares|
      invariant Fold([], shares) == Fold(sequences, shares[i..])
    {
      var next := TakeShare(sequences, shares[i]);
      assert shares[i..][1..] == shares[i + 1..];
      if next.Err? {
        return Err(next.error);
      }
      sequences := next.value;
    }
    assert shares[|shares|..] == [];
    var blobs: seq<Blob> := [];
    PrependNothing(TrimAll(sequences));
    for i := 0 to |sequences|
      invariant TrimAll(sequences) == Prepend(blobs, TrimAll(sequences[i..]))
    {
      var q := sequences[i];
      assert sequences[i..][1..] == sequences[i + 1..];
      if q.sequenceLen > |q.blob.data| {
        return Err(SequenceTooShort);
      }
      PrependPrepend(blobs, [q.blob.(data := q.blob.data[..q.sequenceLen])], TrimAll(sequences[i + 1..]));
      blobs := blobs + [q.blob.(data := q.blob.data[..q.sequenceLen])];
    }
    assert sequences[|sequences|..] == [] && blobs + [] == blobs;
    r := Ok(blobs);
  }

  // ----- parsing undoes splitting -----

  /** A namespace whose shares are neither compact nor padding. */
  ghost predicate DataNamespace(ns: Bytes) {
    && Supported(ns) && !IsCompactNamespace(ns)
    && ns != TAIL_PADDING_NAMESPACE && ns != PRIMARY_RESERVED_PADDING_NAMESPACE
  }

  function Content(ns: Bytes, first: bool, data: Bytes): (r: Bytes)
  {
    var room := Room(ns, first);
    if |data| <= room then data + Zeros(room - |data|) else data[..room]
  }

  lemma DataShareFields(ns: Bytes, first: bool, len: nat, data: Bytes)
    requires Supported(ns) && !IsCompactNamespace(ns) && len < U32_LIMIT
    ensures var s := DataShare(ns, 0, first, len, data);
            && NamespaceBytes(s) == ns && Version(s) == 0 && IsSequenceStart(s) == first
            && SequenceLen(s) == (if first then len else 0)
            && RawData(s) == Ok(Content(ns, first, data))
  {
    var s, content := DataShare(ns, 0, first, len, data), Content(ns, first, data);
    assert s == SparseLayout(ns, 0, first, len, content);
    SparseFields(ns, 0, first, len, content, s);
  }

  lemma PaddingShareFields(ns: Bytes)
    requires Supported(ns)
    ensures var s := PaddingShare(ns, 0);
            NamespaceBytes(s) == ns && Version(s) == 0 && IsSequenceStart(s) && SequenceLen(s) == 0
  {
    assert Header(ns, 0, true, 0) <= PaddingShare(ns, 0);
    HeaderFields(ns, 0, true, 0, PaddingShare(ns, 0));
  }

  /** The content of a padding share is zero. */
  lemma PaddingShareContent(ns: Bytes, version: nat)
    requires Supported(ns) && !IsCompactNamespace(ns) && version <= MAX_SHARE_VERSION
    ensures RawData(PaddingShare(ns, version)) == Ok(Zeros(FIRST_SPARSE_CONTENT))
    ensures IsPadding(PaddingShare(ns, version)) == Ok(true)
  {
    var s, content := PaddingShare(ns, version), Zeros(FIRST_SPARSE_CONTENT);
    assert s == SparseLayout(ns, version, true, 0, content);
    SparseFields(ns, version, true, 0, content, s);
  }

  /** The content of all the shares of `data`, which is zero behind them. */
  function Contents(ns: Bytes, first: bool, data: Bytes): (r: Bytes)
    ensures data <= r
    ensures forall i :: |data| <= i < |r| ==> r[i] == 0
    decreases |data|
  {
    if |data| <= Room(ns, first) then Content(ns, first, data)
    else
      var room := Room(ns, first);
      assert data == data[..room] + data[room..];
      Content(ns, first, data) + Contents(ns, false, data[room..])
  }

  function Lengthened(q: Sequence, more: Bytes): (r: Sequence)
  {
    q.(blob := q.blob.(data := q.blob.data + more))
  }

  /** Continuation shares extend the last sequence. */
  lemma {:induction false} FoldContinuation(found: seq<Sequence>, q: Sequence, ns: Bytes, data: Bytes, rest: seq<Share>)
    requires DataNamespace(ns)
    ensures Fold(found + [q], DataShares(ns, 0, false, 0, data) + rest)
         == Fold(found + [Lengthened(q, Contents(ns, false, data))], rest)
    decreases |data|
  {
    ContinuationStep(found, q, ns, data);
    hide TakeShare, DataShare, DataNamespace, Room, Content;
    var s := DataShare(ns, 0, false, 0, data);
    var after := if |data| <= Room(ns, false) then [] else DataShares(ns, 0, false, 0, data[Room(ns, false)..]);
    var next := Lengthened(q, Content(ns, false, data));
    FoldOne(found + [q], s, after, rest, found + [next]);
    assert DataShares(ns, 0, false, 0, data) == [s] + after;
    if |data| <= Room(ns, false) {
      assert after + rest == rest;
    } else {
      var tail := data[Room(ns, false)..];
      FoldContinuation(found, next, ns, tail, rest);
      LengthenedTwice(q, Content(ns, false, data), Contents(ns, false, tail));
    }
  }

  lemma LengthenedTwice(q: Sequence, a: Bytes, b: Bytes)
    ensures Lengthened(Lengthened(q, a), b) == Lengthened(q, a + b)
  {
    assert q.blob.data + a + b == q.blob.data + (a + b);
  }

  lemma ContinuationStep(found: seq<Sequence>, q: Sequence, ns: Bytes, data: Bytes)
    requires DataNamespace(ns)
    ensures |ns| == NAMESPACE_SIZE
    ensures TakeShare(found + [q], DataShare(ns, 0, false, 0, data)) == Ok(found + [Lengthened(q, Content(ns, false, data))])
  {
    DataShareFields(ns, false, 0, data);
    hide DataShare, RawData, Supported, Room, Content;
    assert (found + [q])[|found| := Lengthened(q, Content(ns, false, data))] == found + [Lengthened(q, Content(ns, false, data))];
  }

  lemma FoldOne(found: seq<Sequence>, s: Share, after: seq<Share>, rest: seq<Share>, next: seq<Sequence>)
    requires TakeShare(found, s) == Ok(next)
    ensures Fold(found, [s] + after + rest) == Fold(next, after + rest)
  {
    hide TakeShare;
    assert ([s] + after + rest)[1..] == after + rest && ([s] + after + rest)[0] == s;
  }

  /** The shares of a blob give one sequence: the blob with padded data, and its length. */
  function SequenceOf(b: Blob): (q: Sequence)
  {
    Sequence(b.(data := Contents(b.NamespaceOf(), true, b.data)), |b.data|)
  }

  lemma ValidBlobNamespace(b: Blob)
    requires ValidBlob(b)
    ensures DataNamespace(b.NamespaceOf())
    ensures b.NamespaceOf()[1..] == b.namespaceId && b.NamespaceOf()[0] == b.namespaceVersion
  {
    hide Less, IsCompactNamespace, Supported;
    UserNamespaceIsNotReserved(b.NamespaceOf());
  }

  lemma FoldBlob(found: seq<Sequence>, b: Blob, rest: seq<Share>)
    requires ValidBlob(b)
    ensures Fold(found, BlobShares(b) + rest) == Fold(found + [SequenceOf(b)], rest)
  {
    hide TakeShare, DataShares, DataShare, DataNamespace, Room, Content, ValidBlob, Contents, Fold;
    TakeFirstShare(found, b);
    var ns, len := b.NamespaceOf(), |b.data|;
    var room := Room(ns, true);
    var after := if |b.data| <= room then [] else DataShares(ns, 0, false, 0, b.data[room..]);
    var q := Sequence(b.(data := Content(ns, true, b.data)), len);
    FoldOne(found, DataShare(ns, 0, true, len, b.data), after, rest, found + [q]);
    FirstOfShares(b);
    if |b.data| <= room {
      assert after + rest == rest;
    } else {
      FoldContinuation(found, q, ns, b.data[room..], rest);
    }
  }

  lemma FirstOfShares(b: Blob)
    requires |b.namespaceId| == NAMESPACE_ID_SIZE && b.shareVersion == 0 && |b.data| < U32_LIMIT
    ensures var ns, room := b.NamespaceOf(), Room(b.NamespaceOf(), true);
            && BlobShares(b)
               == [DataShare(ns, 0, true, |b.data|, b.data)]
                  + (if |b.data| <= room then [] else DataShares(ns, 0, false, 0, b.data[room..]))
            && Contents(ns, true, b.data)
               == (if |b.data| <= room then Content(ns, true, b.data)
                   else Content(ns, true, b.data) + Contents(ns, false, b.data[room..]))
  {
    hide DataShare, Room, Content;
  }

  lemma TakeFirstShare(found: seq<Sequence>, b: Blob)
    requires ValidBlob(b)
    ensures |b.namespaceId| == NAMESPACE_ID_SIZE && b.shareVersion == 0 && |b.data| < U32_LIMIT
    ensures DataNamespace(b.NamespaceOf())
    ensures TakeShare(found, DataShare(b.NamespaceOf(), 0, true, |b.data|, b.data))
         == Ok(found + [Sequence(b.(data := Content(b.NamespaceOf(), true, b.data)), |b.data|)])
  {
    ValidBlobNamespace(b);
    DataShareFields(b.NamespaceOf(), true, |b.data|, b.data);
    hide DataShare, RawData, Supported, Content, IsUserNamespace, IsCompactNamespace;
  }

  lemma FoldPadding(found: seq<Sequence>, ns: Bytes, rest: seq<Share>)
    requires Supported(ns)
    ensures Fold(found, [PaddingShare(ns, 0)] + rest) == Fold(found, rest)
  {
    PaddingShareFields(ns);
    FoldOne(found, PaddingShare(ns, 0), [], rest, found);
    assert [PaddingShare(ns, 0)] + [] + rest == [PaddingShare(ns, 0)] + rest && [] + rest == rest;
  }

  /** What a sparse part of a square holds: blobs and padding shares of any supported namespaces. */
  datatype Item = BlobItem(blob: Blob) | PaddingItem(ns: Bytes)

  ghost predicate ValidItems(items: seq<Item>) {
    forall i :: 0 <= i < |items| ==>
      match items[i] { case BlobItem(b) => ValidBlob(b) case PaddingItem(ns) => Supported(ns) }
  }

  ghost function ItemShares(items: seq<Item>): (r: seq<Share>)
    requires ValidItems(items)
  {
    if items == [] then []
    else
      (match items[0] { case BlobItem(b) => BlobShares(b) case PaddingItem(ns) => [PaddingShare(ns, 0)] })
      + ItemShares(items[1..])
  }

  function BlobsOf(items: seq<Item>): (r: seq<Blob>)
  {
    if items == [] then []
    else (match items[0] { case BlobItem(b) => [b] case PaddingItem(_) => [] }) + BlobsOf(items[1..])
  }

  ghost function SequencesOf(blobs: seq<Blob>): (r: seq<Sequence>)
    requires forall i :: 0 <= i < |blobs| ==> ValidBlob(blobs[i])
    ensures |r| == |blobs|
  {
    if blobs == [] then [] else [SequenceOf(blobs[0])] + SequencesOf(blobs[1..])
  }

  lemma {:induction false} BlobsOfAreValid(items: seq<Item>)
    requires ValidItems(items)
    ensures forall i :: 0 <= i < |BlobsOf(items)| ==> ValidBlob(BlobsOf(items)[i])
  {
    hide ValidBlob, Supported;
    if items != [] {
      BlobsOfAreValid(items[1..]);
    }
  }

  lemma {:induction false} FoldItems(found: seq<Sequence>, items: seq<Item>)
    requires ValidItems(items)
    ensures forall i :: 0 <= i < |BlobsOf(items)| ==> ValidBlob(BlobsOf(items)[i])
    ensures Fold(found, ItemShares(items)) == Ok(found + SequencesOf(BlobsOf(items)))
    decreases |items|
  {
    hide ValidBlob, Supported, BlobShares, PaddingShare, SequenceOf;
    BlobsOfAreValid(items);
    if items == [] {
      assert found + [] == found;
    } else {
      var rest := ItemShares(items[1..]);
      BlobsOfAreValid(items[1..]);
      match items[0] {
        case BlobItem(b) =>
          FoldBlob(found, b, rest);
          FoldItems(found + [SequenceOf(b)], items[1..]);
          assert BlobsOf(items)[1..] == BlobsOf(items[1..]);
          assert found + [SequenceOf(b)] + SequencesOf(BlobsOf(items[1..]))
              == found + SequencesOf(BlobsOf(items));
        case PaddingItem(ns) =>
          FoldPadding(found, ns, rest);
          FoldItems(found, items[1..]);
          assert BlobsOf(items) == BlobsOf(items[1..]);
      }
    }
  }

  lemma {:induction false} TrimSequences(blobs: seq<Blob>)
    requires forall i :: 0 <= i < |blobs| ==> ValidBlob(blobs[i])
    ensures TrimAll(SequencesOf(blobs)) == Ok(blobs)
  {
    hide ValidBlob, SequenceOf;
    if blobs != [] {
      var q := SequenceOf(blobs[0]);
      TrimOne(blobs[0]);
      TrimSequences(blobs[1..]);
      assert SequencesOf(blobs)[0] == q && SequencesOf(blobs)[1..] == SequencesOf(blobs[1..]);
      assert blobs == [blobs[0]] + blobs[1..];
    }
  }

  lemma TrimOne(b: Blob)
    requires ValidBlob(b)
    ensures SequenceOf(b).sequenceLen == |b.data| <= |SequenceOf(b).blob.data|
    ensures SequenceOf(b).blob.(data := SequenceOf(b).blob.data[..|b.data|]) == b
  {
    hide ValidBlob;
  }

  /** Splitting blobs, with any padding between them, and parsing the shares gives the blobs back. */
  lemma ParseItems(items: seq<Item>)
    requires ValidItems(items)
    ensures ParseBlobs(ItemShares(items)) == Ok(BlobsOf(items))
  {
    BlobsOfAreValid(items);
    FoldItems([], items);
    TrimSequences(BlobsOf(items));
    assert [] + SequencesOf(BlobsOf(items)) == SequencesOf(BlobsOf(items));
  }

  /** In particular the shares of a single blob parse to that blob alone. */
  lemma ParseOneBlob(b: Blob)
    requires ValidBlob(b)
    ensures ParseBlobs(BlobShares(b)) == Ok([b])
  {
    ParseItems([BlobItem(b)]);
    assert ItemShares([BlobItem(b)]) == BlobShares(b) + [] == BlobShares(b);
    assert BlobsOf([BlobItem(b)]) == [b];
  }
}
