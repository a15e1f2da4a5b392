/** Writing units into a growing sequence of compact shares (pkg/shares/split_compact_shares.go). */
module CompactSplitter {
  import opened ByteSeqs
  import opened CompactStream
  import opened Namespaces
  import opened Results
  import opened ShareBuilder
  import opened ShareFormat
  import opened ShareRange
  import Varint

  /** `shares` and the bytes of the pending share hold exactly the stream `data`. The first share
      carries `sequenceLen`, which is 0 until the shares are exported. */
  ghost predicate Image(ns: Bytes, shares: seq<Share>, raw: Bytes, data: Bytes, starts: seq<nat>, sequenceLen: nat) {
    && |ns| == NAMESPACE_SIZE && sequenceLen < U32_LIMIT
    && Offset(|shares|) <= |data| <= Offset(|shares| + 1)
    && shares == SharesOf(ns, data, starts, sequenceLen, |shares|)
    && raw == PendingAt(ns, data, starts, |shares|)
  }

  lemma ImageAddsData(ns: Bytes, shares: seq<Share>, raw: Bytes, data: Bytes, starts: seq<nat>, sequenceLen: nat, more: Bytes)
    requires Image(ns, shares, raw, data, starts, sequenceLen) && |data| + |more| <= Offset(|shares| + 1)
    ensures Image(ns, shares, raw + more, data + more, starts, sequenceLen)
  {
    SharesOfStable(ns, data, more, starts, sequenceLen, |shares|);
    assert (data + more)[Offset(|shares|)..] == data[Offset(|shares|)..] + more;
  }

  /** Recording the start of the next unit. */
  lemma ImageMarksStart(ns: Bytes, shares: seq<Share>, raw: Bytes, data: Bytes, starts: seq<nat>, sequenceLen: nat)
    requires Image(ns, shares, raw, data, starts, sequenceLen) && |data| < Offset(|shares| + 1)
    ensures var i := HeaderSize(false, |shares| == 0);
            && |raw| < SHARE_SIZE && i + 4 <= |raw|
            && var before := ParseU32(raw[i..i + 4]);
               && before < SHARE_SIZE
               && Image(ns, shares, if before != 0 then raw else Overwrite(raw, i, U32(|raw|)), data,
                        starts + [|data|], sequenceLen)
  {
    var n, first := |shares|, |shares| == 0;
    OffsetNext(n);
    SharesOfNewStart(ns, data, starts, |data|, sequenceLen, n);
    var i := HeaderSize(false, first);
    var head, content := Header(ns, 0, first, 0), data[Offset(n)..];
    assert raw[i..i + 4] == U32(Reserved(starts, n));
    U32RoundTrip(Reserved(starts, n));
    assert (starts + [|data|])[..|starts|] == starts;
    if Reserved(starts, n) == 0 {
      assert Reserved(starts + [|data|], n) == |raw|;
      assert Overwrite(raw, i, U32(|raw|)) == head + U32(|raw|) + content;
    }
  }

  lemma {:induction false} NoStartBeyond(starts: seq<nat>, limit: nat, k: nat)
    requires (forall s :: s in starts ==> s < limit) && limit <= Offset(k)
    ensures Reserved(starts, k) == 0
  {
  }

  /** A full pending share moves to the finished shares. */
  lemma ImageStacks(ns: Bytes, shares: seq<Share>, raw: Share, data: Bytes, starts: seq<nat>, sequenceLen: nat)
    requires Image(ns, shares, raw, data, starts, sequenceLen)
    requires forall s :: s in starts ==> s < |data|
    requires shares == [] ==> sequenceLen == 0
    ensures |data| == Offset(|shares| + 1)
    ensures Image(ns, shares + [raw], CompactLayout(ns, 0, false, 0, 0, []), data, starts, sequenceLen)
  {
    var n := |shares|;
    OffsetNext(n);
    OffsetNext(n + 1);
    assert data[Offset(n)..] == data[Offset(n)..Offset(n + 1)];
    assert raw == ShareAt(ns, data, starts, sequenceLen, n);
    NoStartBeyond(starts, |data|, n + 1);
    assert data[Offset(n + 1)..] == [];
  }

  /** Overwriting the sequence length of the first share. */
  lemma ImageSetsLen(ns: Bytes, shares: seq<Share>, raw: Bytes, data: Bytes, starts: seq<nat>, before: nat, sequenceLen: nat)
    requires Image(ns, shares, raw, data, starts, before) && shares != [] && sequenceLen < U32_LIMIT
    ensures Image(ns, shares[0 := Overwrite(shares[0], NAMESPACE_SIZE + 1, U32(sequenceLen))], raw, data, starts, sequenceLen)
  {
    var s := shares[0];
    OffsetMonotone(0, |shares|);
    var content := data[Offset(0)..Offset(1)];
    assert s == ns + [InfoByte(0, true)] + U32(before) + U32(Reserved(starts, 0)) + content;
    assert Overwrite(s, NAMESPACE_SIZE + 1, U32(sequenceLen))
        == ns + [InfoByte(0, true)] + U32(sequenceLen) + U32(Reserved(starts, 0)) + content;
    assert shares[0 := Overwrite(s, NAMESPACE_SIZE + 1, U32(sequenceLen))]
        == SharesOf(ns, data, starts, sequenceLen, |shares|);
  }

  function DropLast<T>(s: seq<T>): (r: seq<T>)
  {
    if s == [] then [] else s[..|s| - 1]
  }

  class CompactShareSplitter {
    const namespace: Bytes
    /** The key of a transaction. */
    const txKey: Bytes -> Bytes
    var shares: seq<Share>
    var shareBuilder: Builder
    var done: bool
    /** For every transaction key the shares that the transaction occupies. */
    var shareRanges: map<Bytes, Range>
    /** The content written so far, including the padding of an export. */
    ghost var data: Bytes
    /** Where in `data` every unit starts. */
    ghost var starts: seq<nat>
    /** The sequence length that the first share carries. */
    ghost var sequenceLen: nat

    /** The shares and the pending share hold `data`, short of errors between two calls. */
    ghost predicate Holds()
      reads this, shareBuilder
    {
      && IsCompactNamespace(namespace)
      && shareBuilder.namespace == namespace && shareBuilder.shareVersion == 0 && shareBuilder.isCompactShare
      && shareBuilder.isFirstShare == (shares == [])
      && (shares == [] ==> sequenceLen == 0)
      && Image(namespace, shares, shareBuilder.rawShareData, data, starts, sequenceLen)
    }

    ghost predicate Valid()
      reads this, shareBuilder
    {
      && Holds()
      && |data| < Offset(|shares| + 1)
      && (forall s :: s in starts ==> s < |data|)
      && (done ==> shares != [] && |data| == Offset(|shares|))
    }

    constructor (ns: Bytes, txKey: Bytes -> Bytes)
      requires IsCompactNamespace(ns)
      ensures Valid() && fresh(shareBuilder) && namespace == ns && this.txKey == txKey
      ensures data == [] && starts == [] && !done && shareRanges == map[]
    {
      namespace, this.txKey, shareRanges := ns, txKey, map[];
      shares := [];
      done := false;
      data, starts, sequenceLen := [], [], 0;
      shareBuilder := new Builder(ns, 0, true);
    }

    /** No data was written yet. */
    predicate IsEmpty()
      reads this, shareBuilder
    {
      shares == [] && shareBuilder.IsEmptyShare()
    }

    /** The number of shares an export would give: exactly what the written bytes need. */
    method Count() returns (n: nat)
      requires Valid()
      ensures n == SharesFor(|data|)
    {
      hide SharesOf;
      if |data| > Offset(|shares|) {
        SharesForUnique(|data|, |shares| + 1);
      } else if |shares| > 0 {
        OffsetNext(|shares| - 1);
        SharesForUnique(|data|, |shares|);
      }
      if !shareBuilder.IsEmptyShare() && !done {
        return |shares| + 1;
      }
      return |shares|;
    }

    /** Moves the full pending share to the finished ones and begins a continuation share. */
    method StackPending()
      requires Holds() && |shareBuilder.rawShareData| == SHARE_SIZE
      requires forall s :: s in starts ==> s < |data|
      modifies this
      ensures Holds() && fresh(shareBuilder)
      ensures |shares| == |old(shares)| + 1 && |data| == Offset(|shares|)
      ensures data == old(data) && starts == old(starts) && sequenceLen == old(sequenceLen) && done == old(done)
      ensures shareRanges == old(shareRanges)
    {
      hide SharesOf, PendingAt;
      var pendingShare := shareBuilder.Build();
      ImageStacks(namespace, shares, shareBuilder.rawShareData, data, starts, sequenceLen);
      shares := shares + [pendingShare.value];
      shareBuilder := new Builder(namespace, 0, false);
    }

    /** What a write does first after an export. The pending share is always empty then, so no share
        is taken back and the padding stays in the content. */
    method Reopen()
      requires Valid()
      modifies this`shares, this`done
      ensures Valid() && !done && shares == old(shares)
    {
      if done {
        shares := if shareBuilder.IsEmptyShare() then shares else DropLast(shares);
        done := false;
      }
    }

    /** Appends one delimited unit to the content. */
    method Write(rawData0: Bytes)
      requires Valid() && rawData0 != []
      modifies this, shareBuilder
      ensures Valid() && !done
      ensures shareBuilder == old(shareBuilder) || fresh(shareBuilder)
      ensures data == old(data) + rawData0 && starts == old(starts) + [|old(data)|]
      ensures sequenceLen == old(sequenceLen) && shareRanges == old(shareRanges)
    {
      hide SharesOf, PendingAt;
      Reopen();
      ImageMarksStart(namespace, shares, shareBuilder.rawShareData, data, starts, sequenceLen);
      var ok := shareBuilder.MaybeWriteReservedBytes();
      starts := starts + [|data|];

      var rawData := rawData0;
      while true
        invariant Holds() && !done && rawData != []
        invariant |data| < Offset(|shares| + 1)
        invariant shareBuilder == old(shareBuilder) || fresh(shareBuilder)
        invariant data + rawData == old(data) + rawData0 && |old(data)| <= |data|
        invariant starts == old(starts) + [|old(data)|] && sequenceLen == old(sequenceLen)
        invariant shareRanges == old(shareRanges)
        decreases |rawData|
      {
        var leftOver := AddToPending(rawData);
        if leftOver == None {
          break;
        }
        StackPending();
        OffsetNext(|shares|);
        rawData := leftOver.value;
      }
      if shareBuilder.AvailableBytes() == 0 {
        StackPending();
        OffsetNext(|shares|);
      }
    }

    method AddToPending(rawData: Bytes) returns (leftOver: Option<Bytes>)
      requires Holds() && rawData != [] && |data| < Offset(|shares| + 1)
      modifies this`data, shareBuilder
      ensures Holds()
      ensures leftOver == None ==> data == old(data) + rawData
      ensures leftOver.Some? ==>
                && leftOver.value != [] && |leftOver.value| < |rawData|
                && data + leftOver.value == old(data) + rawData
                && |shareBuilder.rawShareData| == SHARE_SIZE
      ensures |data| > |old(data)|
      ensures (|shareBuilder.rawShareData| == SHARE_SIZE) == (|data| == Offset(|shares| + 1))
    {
      hide SharesOf;
      ghost var room := SHARE_SIZE - |shareBuilder.rawShareData|;
      OffsetNext(|shares|);
      ghost var more := if |rawData| <= room then rawData else rawData[..room];
      ImageAddsData(namespace, shares, shareBuilder.rawShareData, data, starts, sequenceLen, more);
      leftOver := shareBuilder.AddData(rawData);
      data := data + more;
    }

    /** WriteTx: the unit goes behind its length delimiter at the end of the content, and the shares it
        occupies are recorded under its key. */
    method WriteTx(tx: Bytes)
      requires Valid()
      modifies this, shareBuilder
      ensures Valid() && !done
      ensures shareBuilder == old(shareBuilder) || fresh(shareBuilder)
      ensures data == old(data) + Varint.Delimited(tx) && starts == old(starts) + [|old(data)|]
      ensures sequenceLen == old(sequenceLen)
      ensures shareRanges == old(shareRanges)[txKey(tx) := Span(|old(data)|, |data|)]
    {
      hide SharesOf, PendingAt, SharesFor;
      var rawData := Varint.Delimited(tx);
      var startShare := |shares|;
      SharesForUnique(|data| + 1, |shares| + 1);
      Write(rawData);
      var endShare := Count();
      shareRanges := shareRanges[txKey(tx) := Range(startShare, endShare)];
    }

    /** ShareRanges: the recorded ranges moved on by an offset. */
    function ShareRanges(shareRangeOffset: nat): (r: map<Bytes, Range>)
      reads this
      ensures r.Keys == shareRanges.Keys
      ensures forall k :: k in r ==> r[k].start - shareRangeOffset == shareRanges[k].start
      ensures forall k :: k in r ==> r[k].end - shareRangeOffset == shareRanges[k].end
    {
      map k | k in shareRanges :: Range(shareRanges[k].start + shareRangeOffset, shareRanges[k].end + shareRangeOffset)
    }

    /** Export pads the pending share, if it holds data, and writes the sequence length. */
    method Export() returns (r: seq<Share>)
      requires Valid()
      modifies this, shareBuilder
      ensures Valid() && starts == old(starts) && shareRanges == old(shareRanges)
      ensures shareBuilder == old(shareBuilder) || fresh(shareBuilder)
      ensures old(data) == [] ==> r == [] && data == [] && done == old(done)
      ensures old(done) ==> r == old(shares) && data == old(data) && done
      ensures !old(done) && old(data) != [] ==>
                && done && data == PaddedData(old(data))
                && r == SharesOf(namespace, data, starts, |old(data)| % U32_LIMIT, SharesFor(|old(data)|))
    {
      hide SharesOf, SharesFor, PaddedData, Overwrite;
      if IsEmpty() {
        return [];
      }
      if done {
        return shares;
      }
      var bytesOfPadding := FinishPending();
      var len := SequenceLength(bytesOfPadding);
      ImageSetsLen(namespace, shares, shareBuilder.rawShareData, data, starts, sequenceLen, len);
      WriteSequenceLen(len);
      OffsetNext(|shares|);
      done := true;
      r := shares;
    }

    /** Pads and finishes the pending share if it holds data. */
    method FinishPending() returns (bytesOfPadding: nat)
      requires Valid() && data != []
      modifies this, shareBuilder
      ensures Holds() && (shareBuilder == old(shareBuilder) || fresh(shareBuilder))
      ensures data == PaddedData(old(data)) && |shares| == SharesFor(|old(data)|)
      ensures bytesOfPadding == |data| - |old(data)|
      ensures starts == old(starts) && done == old(done) && shareRanges == old(shareRanges)
    {
      hide SharesOf;
      bytesOfPadding := 0;
      if |data| > Offset(|shares|) {
        SharesForUnique(|data|, |shares| + 1);
      } else {
        OffsetNext(|shares| - 1);
        SharesForUnique(|data|, |shares|);
      }
      if !shareBuilder.IsEmptyShare() {
        bytesOfPadding := PadPending();
        StackPending();
      }
    }

    method PadPending() returns (bytesOfPadding: nat)
      requires Holds() && |data| < Offset(|shares| + 1)
      modifies this`data, shareBuilder
      ensures Holds() && |shareBuilder.rawShareData| == SHARE_SIZE && |data| == Offset(|shares| + 1)
      ensures bytesOfPadding == |data| - |old(data)| && data == old(data) + Zeros(bytesOfPadding)
    {
      hide SharesOf;
      OffsetNext(|shares|);
      ghost var padding := Zeros(SHARE_SIZE - |shareBuilder.rawShareData|);
      ImageAddsData(namespace, shares, shareBuilder.rawShareData, data, starts, sequenceLen, padding);
      bytesOfPadding := shareBuilder.ZeroPadIfNecessary();
      data := data + padding;
    }

    /** The 32-bit length of the content without the padding. */
    function SequenceLength(bytesOfPadding: nat): (n: nat)
      reads this
      requires bytesOfPadding <= Offset(|shares|)
      ensures n == (Offset(|shares|) - bytesOfPadding) % U32_LIMIT
    {
      if |shares| == 0 then 0
      else if |shares| == 1 then (FIRST_COMPACT_CONTENT - bytesOfPadding) % U32_LIMIT
      else (FIRST_COMPACT_CONTENT + (|shares| - 1) * CONTINUATION_COMPACT_CONTENT - bytesOfPadding) % U32_LIMIT
    }

    method WriteSequenceLen(len: nat)
      requires shares != [] && len < U32_LIMIT && |namespace| == NAMESPACE_SIZE
      modifies this`shares, this`sequenceLen
      ensures shares == old(shares)[0 := Overwrite(old(shares)[0], NAMESPACE_SIZE + 1, U32(len))]
      ensures sequenceLen == len
    {
      var b := new Builder(namespace, 0, true);
      b.ImportRawShare(shares[0]);
      var ok := b.WriteSequenceLen(len);
      var firstShare := b.Build();
      shares := shares[0 := firstShare.value];
      sequenceLen := len;
    }
  }

  /** The stream extended with zeros to the end of its last share. */
  function PaddedData(data: Bytes): (r: Bytes)
    ensures |r| == Offset(SharesFor(|data|)) && data <= r
    ensures forall i :: |data| <= i < |r| ==> r[i] == 0
  {
    OffsetMonotone(0, SharesFor(|data|));
    data + Zeros(Offset(SharesFor(|data|)) - |data|)
  }

  /** The compact shares of a list of units. */
  function CompactShares(ns: Bytes, units: seq<Bytes>): (r: seq<Share>)
    requires |ns| == NAMESPACE_SIZE
    ensures |r| == SharesFor(|Stream(units)|)
  {
    SharesOf(ns, PaddedData(Stream(units)), Starts(units), |Stream(units)| % U32_LIMIT, SharesFor(|Stream(units)|))
  }

  /** The ranges recorded for a list of units; of units with the same key the last one counts. */
  function RecordedRanges(txKey: Bytes -> Bytes, units: seq<Bytes>): (r: map<Bytes, Range>)
  {
    if units == [] then map[]
    else
      var init, last := units[..|units| - 1], units[|units| - 1];
      RecordedRanges(txKey, init)[txKey(last) := Span(|Stream(init)|, |Stream(units)|)]
  }

  /** Every unit without a later unit of the same key has its own range recorded. */
  lemma {:induction false} RecordedRangeOf(txKey: Bytes -> Bytes, units: seq<Bytes>, i: nat)
    requires i < |units| && forall j :: i < j < |units| ==> txKey(units[j]) != txKey(units[i])
    ensures txKey(units[i]) in RecordedRanges(txKey, units)
    ensures RecordedRanges(txKey, units)[txKey(units[i])] == Span(|Stream(units[..i])|, |Stream(units[..i + 1])|)
  {
    hide Stream, Span;
    var n := |units| - 1;
    if i < n {
      assert units[..n][..i] == units[..i] && units[..n][..i + 1] == units[..i + 1];
      RecordedRangeOf(txKey, units[..n], i);
    } else {
      assert units[..i + 1] == units;
    }
  }

  lemma NothingRecorded(txKey: Bytes -> Bytes)
    ensures RecordedRanges(txKey, []) == map[] && Stream([]) == [] && Starts([]) == []
  {
  }

  lemma RecordedSnoc(txKey: Bytes -> Bytes, units: seq<Bytes>, u: Bytes)
    ensures RecordedRanges(txKey, units + [u])
         == RecordedRanges(txKey, units)[txKey(u) := Span(|Stream(units)|, |Stream(units + [u])|)]
  {
    hide Span, Stream;
    assert (units + [u])[..|units|] == units;
  }

  /** A fresh splitter that gets all units. */
  method WriteUnits(ns: Bytes, txKey: Bytes -> Bytes, units: seq<Bytes>) returns (writer: CompactShareSplitter)
    requires IsCompactNamespace(ns)
    ensures writer.Valid() && fresh(writer) && fresh(writer.shareBuilder) && !writer.done
    ensures writer.namespace == ns && writer.txKey == txKey
    ensures writer.data == Stream(units) && writer.starts == Starts(units)
    ensures writer.shareRanges == RecordedRanges(txKey, units)
  {
    hide Span, Stream, Starts, RecordedRanges, Varint.Delimited, CompactShareSplitter.Valid;
    NothingRecorded(txKey);
    assert units[..0] == [];
    writer := new CompactShareSplitter(ns, txKey);
    for i := 0 to |units|
      invariant writer.Valid() && fresh(writer) && fresh(writer.shareBuilder) && !writer.done
      invariant writer.namespace == ns && writer.txKey == txKey
      invariant writer.data == Stream(units[..i]) && writer.starts == Starts(units[..i])
      invariant writer.shareRanges == RecordedRanges(txKey, units[..i])
    {
      assert units[..i + 1] == units[..i] + [units[i]];
      StreamSnoc(units[..i], units[i]);
      RecordedSnoc(txKey, units[..i], units[i]);
      writer.WriteTx(units[i]);
    }
    assert units[..|units|] == units;
  }

  /** All units written and exported. */
  method SplitUnits(ns: Bytes, txKey: Bytes -> Bytes, units: seq<Bytes>) returns (shares: seq<Share>, count: nat)
    requires IsCompactNamespace(ns)
    ensures shares == CompactShares(ns, units)
    ensures count == |shares|
  {
    var writer := WriteUnits(ns, txKey, units);
    count := writer.Count();
    shares := writer.Export();
  }
}
