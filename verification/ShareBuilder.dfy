/** The builder of a single share (pkg/shares/share_builder.go). */
module ShareBuilder {
  import opened ByteSeqs
  import opened Namespaces
  import opened Results
  import opened ShareFormat

  /** `s` with the bytes from `i` on replaced by `b`. */
  function Overwrite(s: Bytes, i: nat, b: Bytes): (r: Bytes)
    requires i + |b| <= |s|
    ensures |r| == |s|
  {
    s[..i] + b + s[i + |b|..]
  }

  lemma OverwriteStep(s: Bytes, i: nat, b: Bytes, j: nat)
    requires i + |b| <= |s| && j < |b|
    ensures Overwrite(s, i, b[..j])[i + j := b[j]] == Overwrite(s, i, b[..j + 1])
  {
  }

  class Builder {
    const namespace: Bytes
    const shareVersion: nat
    const isFirstShare: bool
    const isCompactShare: bool
    var rawShareData: Bytes

    constructor (ns: Bytes, shareVersion: nat, isFirstShare: bool)
      requires |ns| == NAMESPACE_SIZE && shareVersion <= MAX_SHARE_VERSION
      ensures namespace == ns && this.shareVersion == shareVersion && this.isFirstShare == isFirstShare
      ensures isCompactShare == IsCompactNamespace(ns)
      ensures isCompactShare ==> rawShareData == CompactLayout(ns, shareVersion, isFirstShare, 0, 0, [])
      ensures !isCompactShare ==> rawShareData == SparseLayout(ns, shareVersion, isFirstShare, 0, [])
    {
      namespace, this.shareVersion, this.isFirstShare := ns, shareVersion, isFirstShare;
      isCompactShare := IsCompactNamespace(ns);
      var shareData := ns + [InfoByte(shareVersion, isFirstShare)];
      if isFirstShare {
        shareData := shareData + Zeros(SEQUENCE_LEN_BYTES);
      }
      if IsCompactNamespace(ns) {
        shareData := shareData + Zeros(RESERVED_BYTES);
      }
      rawShareData := shareData;
    }

    function AvailableBytes(): (n: int)
      reads this
    {
      SHARE_SIZE - |rawShareData|
    }

    /** True if no data has been written to the share. */
    predicate IsEmptyShare()
      reads this
    {
      |rawShareData| == HeaderSize(isCompactShare, isFirstShare)
    }

    /** Adds as much of the data as fits and returns the rest, or None when nothing is left over. */
    method AddData(rawData: Bytes) returns (leftOver: Option<Bytes>)
      requires |rawShareData| <= SHARE_SIZE
      modifies this
      ensures var room := SHARE_SIZE - |old(rawShareData)|;
              if |rawData| <= room then rawShareData == old(rawShareData) + rawData && leftOver == None
              else rawShareData == old(rawShareData) + rawData[..room] && leftOver == Some(rawData[room..])
    {
      var pendingLeft := SHARE_SIZE - |rawShareData|;
      if |rawData| <= pendingLeft {
        rawShareData := rawShareData + rawData;
        return None;
      }
      rawShareData := rawShareData + rawData[..pendingLeft];
      return Some(rawData[pendingLeft..]);
    }

    method ZeroPadIfNecessary() returns (bytesOfPadding: nat)
      modifies this
      ensures |old(rawShareData)| <= SHARE_SIZE ==>
                bytesOfPadding == SHARE_SIZE - |old(rawShareData)| && |rawShareData| == SHARE_SIZE
      ensures |old(rawShareData)| > SHARE_SIZE ==> bytesOfPadding == 0
      ensures rawShareData == old(rawShareData) + Zeros(bytesOfPadding)
    {
      if |rawShareData| >= SHARE_SIZE {
        return 0;
      }
      bytesOfPadding := SHARE_SIZE - |rawShareData|;
      rawShareData := rawShareData + Zeros(bytesOfPadding);
    }

    /** Records where the next unit starts, unless an earlier unit already started in this share. */
    method MaybeWriteReservedBytes() returns (r: Result<()>)
      requires |rawShareData| >= HeaderSize(isCompactShare, isFirstShare)
      modifies this
      ensures !isCompactShare ==> r == Err(NotACompactShare)
      ensures isCompactShare ==>
                var i := HeaderSize(false, isFirstShare);
                var before := ParseU32(old(rawShareData)[i..i + RESERVED_BYTES]);
                if before >= SHARE_SIZE || (before == 0 && |old(rawShareData)| >= SHARE_SIZE)
                then r == Err(ReservedBytesOutOfRange)
                else r == Ok(()) &&
                     rawShareData == if before != 0 then old(rawShareData)
                                     else Overwrite(old(rawShareData), i, U32(|old(rawShareData)|))
      ensures r.Err? ==> rawShareData == old(rawShareData)
    {
      if !isCompactShare {
        return Err(NotACompactShare);
      }
      var i := HeaderSize(false, isFirstShare);
      var reserved := ParseU32(rawShareData[i..i + RESERVED_BYTES]);
      if reserved >= SHARE_SIZE {
        return Err(ReservedBytesOutOfRange);
      }
      if reserved != 0 {
        return Ok(());
      }
      if |rawShareData| >= SHARE_SIZE {
        return Err(ReservedBytesOutOfRange);
      }
      var reservedBytes := U32(|rawShareData|);
      ghost var was := rawShareData;
      for j := 0 to RESERVED_BYTES
        invariant rawShareData == Overwrite(was, i, reservedBytes[..j])
      {
        OverwriteStep(was, i, reservedBytes, j);
        rawShareData := rawShareData[i + j := reservedBytes[j]];
      }
      assert reservedBytes[..RESERVED_BYTES] == reservedBytes;
      return Ok(());
    }

    method WriteSequenceLen(sequenceLen: nat) returns (r: Result<()>)
      requires sequenceLen < U32_LIMIT && |rawShareData| >= HeaderSize(false, isFirstShare)
      modifies this
      ensures !isFirstShare ==> r == Err(NotTheFirstShare) && rawShareData == old(rawShareData)
      ensures isFirstShare ==>
                r == Ok(()) && rawShareData == Overwrite(old(rawShareData), NAMESPACE_SIZE + 1, U32(sequenceLen))
    {
      if !isFirstShare {
        return Err(NotTheFirstShare);
      }
      var buf := U32(sequenceLen);
      ghost var was := rawShareData;
      for j := 0 to SEQUENCE_LEN_BYTES
        invariant rawShareData == Overwrite(was, NAMESPACE_SIZE + 1, buf[..j])
      {
        OverwriteStep(was, NAMESPACE_SIZE + 1, buf, j);
        rawShareData := rawShareData[NAMESPACE_SIZE + 1 + j := buf[j]];
      }
      assert buf[..SEQUENCE_LEN_BYTES] == buf;
      return Ok(());
    }

    /** ImportRawShare replaces the bytes of the share. */
    method ImportRawShare(rawBytes: Bytes)
      modifies this
      ensures rawShareData == rawBytes
    {
      rawShareData := rawBytes;
    }

    method Build() returns (r: Result<Share>)
      ensures |rawShareData| == SHARE_SIZE ==> r == Ok(rawShareData)
      ensures |rawShareData| != SHARE_SIZE ==> r == Err(WrongShareSize)
    {
      if |rawShareData| != SHARE_SIZE {
        return Err(WrongShareSize);
      }
      return Ok(rawShareData);
    }
  }
}
