/** Writing blobs and namespace padding into sparse shares (pkg/shares/split_sparse_shares.go,
    pkg/shares/padding.go). */
module SparseSplitter {
  import opened Blobs
  import opened ByteSeqs
  import opened Namespaces
  import opened Results
  import ShareBuilder
  import opened ShareFormat

  /** A fresh share as NewBuilder leaves it, with the given sequence length. */
  function Begin(ns: Bytes, version: nat, first: bool, sequenceLen: nat): (r: Bytes)
    requires |ns| == NAMESPACE_SIZE && version <= MAX_SHARE_VERSION && sequenceLen < U32_LIMIT
    ensures |r| == HeaderSize(IsCompactNamespace(ns), first)
  {
    if IsCompactNamespace(ns) then CompactLayout(ns, version, first, sequenceLen, 0, [])
    else SparseLayout(ns, version, first, sequenceLen, [])
  }

  function Room(ns: Bytes, first: bool): (n: nat)
    ensures n > 0 && HeaderSize(IsCompactNamespace(ns), first) + n == SHARE_SIZE
  {
    SHARE_SIZE - HeaderSize(IsCompactNamespace(ns), first)
  }

  /** The first share of `data`: as much as fits, padded with zeros. */
  function DataShare(ns: Bytes, version: nat, first: bool, sequenceLen: nat, data: Bytes): (s: Share)
    requires |ns| == NAMESPACE_SIZE && version <= MAX_SHARE_VERSION && sequenceLen < U32_LIMIT
  {
    var room := Room(ns, first);
    Begin(ns, version, first, sequenceLen)
    + if |data| <= room then data + Zeros(room - |data|) else data[..room]
  }

  /** The shares of `data`. */
  function DataShares(ns: Bytes, version: nat, first: bool, sequenceLen: nat, data: Bytes): (r: seq<Share>)
    requires |ns| == NAMESPACE_SIZE && version <= MAX_SHARE_VERSION && sequenceLen < U32_LIMIT
    ensures |r| >= 1
    decreases |data|
  {
    [DataShare(ns, version, first, sequenceLen, data)]
    + if |data| <= Room(ns, first) then []
      else DataShares(ns, version, false, 0, data[Room(ns, first)..])
  }

  /** The shares of a blob. */
  function BlobShares(b: Blob): (r: seq<Share>)
    requires |b.namespaceId| == NAMESPACE_ID_SIZE && b.shareVersion <= MAX_SHARE_VERSION
    ensures |r| >= 1
  {
    DataShares(b.NamespaceOf(), b.shareVersion, true, |b.data| % U32_LIMIT, b.data)
  }

  /** A sequence start without data. */
  function PaddingShare(ns: Bytes, version: nat): (s: Share)
    requires |ns| == NAMESPACE_SIZE && version <= MAX_SHARE_VERSION
  {
    Begin(ns, version, true, 0) + Zeros(Room(ns, true))
  }

  function PaddingShares(ns: Bytes, version: nat, n: nat): (r: seq<Share>)
    requires |ns| == NAMESPACE_SIZE && version <= MAX_SHARE_VERSION
    ensures |r| == n
  {
    seq(n, _ => PaddingShare(ns, version))
  }

  /** Blobs take up SparseSharesNeeded shares. */
  lemma {:induction false} DataSharesCount(ns: Bytes, version: nat, first: bool, sequenceLen: nat, data: Bytes)
    requires |ns| == NAMESPACE_SIZE && version <= MAX_SHARE_VERSION && sequenceLen < U32_LIMIT
    requires !IsCompactNamespace(ns) && data != []
    ensures first ==> |DataShares(ns, version, first, sequenceLen, data)| == SparseCount(|data|)
    ensures !first ==>
              |DataShares(ns, version, first, sequenceLen, data)| == 1 + (|data| - 1) / CONTINUATION_SPARSE_CONTENT
    decreases |data|
  {
    hide DataShare;
    var room := Room(ns, first);
    if |data| > room {
      DataSharesCount(ns, version, false, 0, data[room..]);
    }
  }

  lemma BlobSharesCount(b: Blob)
    requires ValidBlob(b)
    ensures |BlobShares(b)| == SparseCount(|b.data|)
  {
    UserNamespaceIsNotReserved(b.NamespaceOf());
    DataSharesCount(b.NamespaceOf(), b.shareVersion, true, |b.data| % U32_LIMIT, b.data);
  }

  lemma BeginWithLen(ns: Bytes, version: nat, sequenceLen: nat)
    requires |ns| == NAMESPACE_SIZE && version <= MAX_SHARE_VERSION && sequenceLen < U32_LIMIT
    ensures ShareBuilder.Overwrite(Begin(ns, version, true, 0), NAMESPACE_SIZE + 1, U32(sequenceLen))
         == Begin(ns, version, true, sequenceLen)
  {
    assert Header(ns, version, true, 0) == ns + [InfoByte(version, true)] + U32(0);
    var rest := if IsCompactNamespace(ns) then U32(0) else [];
    assert Begin(ns, version, true, 0) == ns + [InfoByte(version, true)] + U32(0) + rest;
    assert Begin(ns, version, true, sequenceLen) == ns + [InfoByte(version, true)] + U32(sequenceLen) + rest;
  }

  /** NamespacePaddingShare. */
  method NewPaddingShare(ns: Bytes, version: nat) returns (s: Share)
    requires |ns| == NAMESPACE_SIZE && version <= MAX_SHARE_VERSION
    ensures s == PaddingShare(ns, version)
  {
    var b := new ShareBuilder.Builder(ns, version, true);
    BeginWithLen(ns, version, 0);
    var ok := b.WriteSequenceLen(0);
    var leftOver := b.AddData(Zeros(FIRST_SPARSE_CONTENT));
    assert Zeros(FIRST_SPARSE_CONTENT)[..Room(ns, true)] == Zeros(Room(ns, true));
    var share := b.Build();
    s := share.value;
  }

  class SparseShareSplitter {
    var shares: seq<Share>

    constructor ()
      ensures shares == []
    {
      shares := [];
    }

    /** Writes the shares of a blob behind those already written, unless the blob is rejected. */
    method Write(blob: Blob) returns (r: Result<()>)
      modifies this
      ensures blob.Validate().Err? ==> r == Err(InvalidBlob)
      ensures blob.Validate().Ok? && blob.shareVersion != 0 ==> r == Err(UnsupportedShareVersion)
      ensures blob.Validate().Ok? && blob.shareVersion == 0 ==>
                r == Ok(()) && shares == old(shares) + BlobShares(blob)
      ensures r.Err? ==> shares == old(shares)
    {
      var valid := blob.Validate();
      if valid.Err? {
        return Err(InvalidBlob);
      }
      if blob.shareVersion != 0 {
        return Err(UnsupportedShareVersion);
      }
      var ns, sequenceLen := blob.NamespaceOf(), |blob.data| % U32_LIMIT;
      var b := new ShareBuilder.Builder(ns, blob.shareVersion, true);
      BeginWithLen(ns, blob.shareVersion, sequenceLen);
      var ok := b.WriteSequenceLen(sequenceLen);
      WriteData(ns, b, blob.data, sequenceLen);
      return Ok(());
    }

    /** The loop over the data that is still to be written. */
    method WriteData(ns: Bytes, b0: ShareBuilder.Builder, data: Bytes, ghost sequenceLen: nat)
      requires |ns| == NAMESPACE_SIZE && b0.shareVersion <= MAX_SHARE_VERSION && sequenceLen < U32_LIMIT
      requires b0.namespace == ns && b0.isFirstShare
      requires b0.rawShareData == Begin(ns, b0.shareVersion, true, sequenceLen)
      modifies this, b0
      ensures shares == old(shares) + DataShares(ns, b0.shareVersion, true, sequenceLen, data)
    {
      hide Begin, Room, DataShares;
      var b, rawData := b0, Some(data);
      ghost var len: nat := sequenceLen;
      ghost var all := DataShares(ns, b0.shareVersion, true, sequenceLen, data);
      while rawData.Some?
        invariant (b == b0 || fresh(b)) && b.namespace == ns && b.shareVersion == b0.shareVersion && len < U32_LIMIT
        invariant b.rawShareData == Begin(ns, b0.shareVersion, b.isFirstShare, len)
        invariant old(shares) + all == shares +
                  if rawData.Some? then DataShares(ns, b0.shareVersion, b.isFirstShare, len, rawData.value) else []
        decreases rawData.Some?, if rawData.Some? then |rawData.value| else 0
      {
        ghost var first := b.isFirstShare;
        ghost var room := SHARE_SIZE - |b.rawShareData|;
        assert room == Room(ns, first) && room > 0;
        var leftOver := b.AddData(rawData.value);
        if leftOver == None {
          var padding := b.ZeroPadIfNecessary();
        }
        var share := b.Build();
        assert share.value == DataShare(ns, b0.shareVersion, first, len, rawData.value);
        DataSharesStep(ns, b0.shareVersion, first, len, rawData.value, shares, share.value);
        shares := shares + [share.value];
        b := new ShareBuilder.Builder(ns, b0.shareVersion, false);
        BeginIsFresh(ns, b0.shareVersion);
        len, rawData := 0, leftOver;
      }
    }

    /** Adds padding shares in the namespace of the last share. */
    method WriteNamespacePaddingShares(count: int) returns (r: Result<()>)
      modifies this
      ensures count < 0 ==> r == Err(NegativePadding)
      ensures count == 0 ==> r == Ok(()) && shares == old(shares)
      ensures count > 0 && old(shares) == [] ==> r == Err(NothingToPad)
      ensures count > 0 && old(shares) != [] ==>
                var last := old(shares)[|old(shares)| - 1];
                if !Supported(NamespaceBytes(last)) then r == Err(UnsupportedNamespace)
                else r == Ok(()) && shares == old(shares) + PaddingShares(NamespaceBytes(last), Version(last), count)
      ensures r.Err? ==> shares == old(shares)
    {
      if count < 0 {
        return Err(NegativePadding);
      }
      if count == 0 {
        return Ok(());
      }
      if |shares| == 0 {
        return Err(NothingToPad);
      }
      var last := shares[|shares| - 1];
      var ns := Namespace(last);
      if ns.Err? {
        return Err(ns.error);
      }
      var padding: seq<Share> := [];
      for i := 0 to count
        invariant padding == PaddingShares(ns.value, Version(last), i) && shares == old(shares)
      {
        var s := NewPaddingShare(ns.value, Version(last));
        padding := padding + [s];
      }
      shares := shares + padding;
      return Ok(());
    }
  }

  lemma BeginIsFresh(ns: Bytes, version: nat)
    requires |ns| == NAMESPACE_SIZE && version <= MAX_SHARE_VERSION
    ensures IsCompactNamespace(ns) ==> CompactLayout(ns, version, false, 0, 0, []) == Begin(ns, version, false, 0)
    ensures !IsCompactNamespace(ns) ==> SparseLayout(ns, version, false, 0, []) == Begin(ns, version, false, 0)
  {
  }

  /** One iteration of the data loop emits the first of the remaining shares. */
  lemma DataSharesStep(
    ns: Bytes, version: nat, first: bool, len: nat, data: Bytes, before: seq<Share>, share: Share)
    requires |ns| == NAMESPACE_SIZE && version <= MAX_SHARE_VERSION && len < U32_LIMIT
    requires share == DataShare(ns, version, first, len, data)
    ensures before + DataShares(ns, version, first, len, data) == before + [share] +
            if |data| <= Room(ns, first) then [] else DataShares(ns, version, false, 0, data[Room(ns, first)..])
  {
    hide DataShare;
    assert before + [share] + [] == before + [share];
  }
}
