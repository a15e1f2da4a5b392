/** The layout of a share and the accessors that read it (pkg/shares/shares.go,
    pkg/shares/info_byte.go, pkg/shares/reserved_bytes.go, pkg/appconsts/global_consts.go). */
module ShareFormat {
  import opened ByteSeqs
  import opened Namespaces
  import opened Results

  const SHARE_SIZE := 512
  const SEQUENCE_LEN_BYTES := 4
  const RESERVED_BYTES := 4
  const FIRST_COMPACT_CONTENT := 474
  const CONTINUATION_COMPACT_CONTENT := 478
  const FIRST_SPARSE_CONTENT := 478
  const CONTINUATION_SPARSE_CONTENT := 482
  const MAX_SHARE_VERSION := 127

  type Share = s: Bytes | |s| == SHARE_SIZE witness Zeros(SHARE_SIZE)

  function InfoByte(version: nat, isSequenceStart: bool): (b: byte)
    requires version <= MAX_SHARE_VERSION
    ensures b / 2 == version && (b % 2 == 1 <==> isSequenceStart)
  {
    2 * version + if isSequenceStart then 1 else 0
  }

  function NamespaceBytes(s: Share): (ns: Bytes)
    ensures |ns| == NAMESPACE_SIZE
  {
    s[..NAMESPACE_SIZE]
  }

  /** Share.Namespace rejects unsupported namespaces. */
  function Namespace(s: Share): (r: Result<Bytes>)
  {
    if Supported(NamespaceBytes(s)) then Ok(NamespaceBytes(s)) else Err(UnsupportedNamespace)
  }

  function Version(s: Share): (v: nat) {
    s[NAMESPACE_SIZE] / 2
  }

  predicate IsSequenceStart(s: Share) {
    s[NAMESPACE_SIZE] % 2 == 1
  }

  function SequenceLen(s: Share): (n: nat)
    ensures n < U32_LIMIT
  {
    if IsSequenceStart(s) then ParseU32(s[30..34]) else 0
  }

  predicate IsCompact(s: Share) {
    IsCompactNamespace(NamespaceBytes(s))
  }

  function HeaderSize(compact: bool, first: bool): (n: nat)
  {
    NAMESPACE_SIZE + 1 + (if first then SEQUENCE_LEN_BYTES else 0) + (if compact then RESERVED_BYTES else 0)
  }

  /** IsPadding: a sequence start without data, or one of the two padding namespaces. */
  function IsPadding(s: Share): (r: Result<bool>)
  {
    if !Supported(NamespaceBytes(s)) then Err(UnsupportedNamespace)
    else Ok(|| (IsSequenceStart(s) && SequenceLen(s) == 0)
            || NamespaceBytes(s) == TAIL_PADDING_NAMESPACE
            || NamespaceBytes(s) == PRIMARY_RESERVED_PADDING_NAMESPACE)
  }

  /** The content behind the header. The source panics on an unsupported namespace. */
  function RawData(s: Share): (r: Result<Bytes>)
  {
    if !Supported(NamespaceBytes(s)) then Err(UnsupportedNamespace)
    else Ok(s[HeaderSize(IsCompact(s), IsSequenceStart(s))..])
  }

  /** The content from the first unit that starts in a compact share; empty when none does. */
  function RawDataUsingReserved(s: Share): (r: Result<Bytes>)
  {
    if !Supported(NamespaceBytes(s)) then Err(UnsupportedNamespace)
    else
      var index := HeaderSize(false, IsSequenceStart(s));
      if !IsCompact(s) then Ok(s[index..])
      else
        var reserved := ParseU32(s[index..index + RESERVED_BYTES]);
        if reserved >= SHARE_SIZE then Err(ReservedBytesOutOfRange)
        else if reserved == 0 then Ok([])
        else Ok(s[reserved..])
  }

  // ----- layouts -----

  /** Namespace, info byte and, in a first share, the sequence length. */
  function Header(ns: Bytes, version: nat, first: bool, sequenceLen: nat): (r: Bytes)
    requires |ns| == NAMESPACE_SIZE && version <= MAX_SHARE_VERSION && sequenceLen < U32_LIMIT
    ensures |r| == HeaderSize(false, first)
  {
    ns + [InfoByte(version, first)] + if first then U32(sequenceLen) else []
  }

  function CompactLayout(ns: Bytes, version: nat, first: bool, sequenceLen: nat, reserved: nat, content: Bytes): (r: Bytes)
    requires |ns| == NAMESPACE_SIZE && version <= MAX_SHARE_VERSION
    requires sequenceLen < U32_LIMIT && reserved < SHARE_SIZE
    ensures |r| == HeaderSize(true, first) + |content|
  {
    Header(ns, version, first, sequenceLen) + U32(reserved) + content
  }

  function SparseLayout(ns: Bytes, version: nat, first: bool, sequenceLen: nat, content: Bytes): (r: Bytes)
    requires |ns| == NAMESPACE_SIZE && version <= MAX_SHARE_VERSION && sequenceLen < U32_LIMIT
    ensures |r| == HeaderSize(false, first) + |content|
  {
    Header(ns, version, first, sequenceLen) + content
  }

  /** What the accessors read from a share that starts with a header. */
  lemma HeaderFields(ns: Bytes, version: nat, first: bool, sequenceLen: nat, s: Share)
    requires |ns| == NAMESPACE_SIZE && version <= MAX_SHARE_VERSION && sequenceLen < U32_LIMIT
    requires Header(ns, version, first, sequenceLen) <= s
    ensures NamespaceBytes(s) == ns && Version(s) == version && IsSequenceStart(s) == first
    ensures SequenceLen(s) == if first then sequenceLen else 0
  {
    var h := Header(ns, version, first, sequenceLen);
    assert s[..|h|] == h;
    assert s[..29] == h[..29] == ns;
    assert s[29] == h[29] == InfoByte(version, first);
    if first {
      assert s[30..34] == h[30..34] == U32(sequenceLen);
      U32RoundTrip(sequenceLen);
    }
  }

  lemma CompactFields(ns: Bytes, version: nat, first: bool, sequenceLen: nat, reserved: nat, content: Bytes, s: Share)
    requires IsCompactNamespace(ns) && version <= MAX_SHARE_VERSION
    requires sequenceLen < U32_LIMIT && reserved < SHARE_SIZE
    requires s == CompactLayout(ns, version, first, sequenceLen, reserved, content)
    ensures NamespaceBytes(s) == ns && Version(s) == version && IsSequenceStart(s) == first
    ensures SequenceLen(s) == if first then sequenceLen else 0
    ensures RawData(s) == Ok(content)
    ensures RawDataUsingReserved(s) == Ok(if reserved == 0 then [] else s[reserved..])
  {
    var h := Header(ns, version, first, sequenceLen);
    assert h <= s;
    HeaderFields(ns, version, first, sequenceLen, s);
    ReservedAreSupported();
    assert s[|h|..|h| + 4] == U32(reserved);
    U32RoundTrip(reserved);
    assert s[|h| + 4..] == content;
  }

  lemma SparseFields(ns: Bytes, version: nat, first: bool, sequenceLen: nat, content: Bytes, s: Share)
    requires Supported(ns) && !IsCompactNamespace(ns) && version <= MAX_SHARE_VERSION && sequenceLen < U32_LIMIT
    requires s == SparseLayout(ns, version, first, sequenceLen, content)
    ensures NamespaceBytes(s) == ns && Version(s) == version && IsSequenceStart(s) == first
    ensures SequenceLen(s) == if first then sequenceLen else 0
    ensures RawData(s) == Ok(content)
  {
    var h := Header(ns, version, first, sequenceLen);
    assert h <= s;
    HeaderFields(ns, version, first, sequenceLen, s);
    assert s[|h|..] == content;
  }
}
