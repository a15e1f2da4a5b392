/** Namespaces as 29-byte strings: a version byte and a 28-byte id (pkg/namespace). */
module Namespaces {
  import opened ByteSeqs
  import opened Results

  const NAMESPACE_ID_SIZE := 28
  const NAMESPACE_SIZE := 29
  const VERSION_ZERO_PREFIX_SIZE := 18

  function Primary(lastByte: byte): (ns: Bytes)
    ensures |ns| == NAMESPACE_SIZE
  {
    Zeros(NAMESPACE_SIZE - 1) + [lastByte]
  }

  function Secondary(lastByte: byte): (ns: Bytes)
    ensures |ns| == NAMESPACE_SIZE
  {
    seq(NAMESPACE_SIZE - 1, _ => 0xFF) + [lastByte]
  }

  const TX_NAMESPACE := Primary(0x01)
  const PAY_FOR_BLOB_NAMESPACE := Primary(0x04)
  const PRIMARY_RESERVED_PADDING_NAMESPACE := Primary(0xFF)
  const MIN_SECONDARY_RESERVED_NAMESPACE := Secondary(0x00)
  const TAIL_PADDING_NAMESPACE := Secondary(0xFE)

  /** namespace.From accepts these bytes: a known version, and 18 leading zeros in an id of version 0. */
  predicate Supported(ns: Bytes) {
    && |ns| == NAMESPACE_SIZE
    && (ns[0] == 0 || ns[0] == 255)
    && (ns[0] == 0 ==> forall i :: 1 <= i <= VERSION_ZERO_PREFIX_SIZE ==> ns[i] == 0)
  }

  predicate IsCompactNamespace(ns: Bytes) {
    ns == TX_NAMESPACE || ns == PAY_FOR_BLOB_NAMESPACE
  }

  /** A namespace that users may write blobs to: supported and outside both reserved ranges. */
  predicate IsUserNamespace(ns: Bytes) {
    Supported(ns) && Less(PRIMARY_RESERVED_PADDING_NAMESPACE, ns) && Less(ns, MIN_SECONDARY_RESERVED_NAMESPACE)
  }

  lemma PrimaryOrder(a: byte, b: byte)
    requires a < b
    ensures Less(Primary(a), Primary(b))
  {
    var k := NAMESPACE_SIZE - 1;
    assert Primary(a)[..k] == Zeros(k) == Primary(b)[..k];
    CompareAt(Primary(a), Primary(b), k);
  }

  lemma SecondaryOrder(a: byte, b: byte)
    requires a < b
    ensures Less(Secondary(a), Secondary(b))
  {
    var k := NAMESPACE_SIZE - 1;
    assert Secondary(a)[..k] == Secondary(b)[..k];
    CompareAt(Secondary(a), Secondary(b), k);
  }

  /** The namespaces of a square in the order in which they occur in it. */
  lemma NamespaceOrder(ns: Bytes)
    requires IsUserNamespace(ns)
    ensures Less(TX_NAMESPACE, PAY_FOR_BLOB_NAMESPACE)
    ensures Less(PAY_FOR_BLOB_NAMESPACE, PRIMARY_RESERVED_PADDING_NAMESPACE)
    ensures Less(PRIMARY_RESERVED_PADDING_NAMESPACE, ns) && Less(ns, TAIL_PADDING_NAMESPACE)
  {
    PrimaryOrder(0x01, 0x04);
    PrimaryOrder(0x04, 0xFF);
    SecondaryOrder(0x00, 0xFE);
    LeqTransitive(ns, MIN_SECONDARY_RESERVED_NAMESPACE, TAIL_PADDING_NAMESPACE);
  }

  lemma ReservedOrder()
    ensures Less(TX_NAMESPACE, PAY_FOR_BLOB_NAMESPACE)
    ensures Less(PAY_FOR_BLOB_NAMESPACE, PRIMARY_RESERVED_PADDING_NAMESPACE)
    ensures Less(PRIMARY_RESERVED_PADDING_NAMESPACE, TAIL_PADDING_NAMESPACE)
  {
    PrimaryOrder(0x01, 0x04);
    PrimaryOrder(0x04, 0xFF);
    CompareAt(PRIMARY_RESERVED_PADDING_NAMESPACE, TAIL_PADDING_NAMESPACE, 0);
  }

  lemma UserNamespaceIsNotReserved(ns: Bytes)
    requires IsUserNamespace(ns)
    ensures !IsCompactNamespace(ns) && ns != PRIMARY_RESERVED_PADDING_NAMESPACE && ns != TAIL_PADDING_NAMESPACE
  {
    NamespaceOrder(ns);
    LeqTransitive(TX_NAMESPACE, PAY_FOR_BLOB_NAMESPACE, PRIMARY_RESERVED_PADDING_NAMESPACE);
    LeqTransitive(TX_NAMESPACE, PRIMARY_RESERVED_PADDING_NAMESPACE, ns);
    LeqTransitive(PAY_FOR_BLOB_NAMESPACE, PRIMARY_RESERVED_PADDING_NAMESPACE, ns);
    CompareEqual(ns, ns);
  }

  lemma ReservedAreSupported()
    ensures Supported(TX_NAMESPACE) && Supported(PAY_FOR_BLOB_NAMESPACE)
    ensures Supported(PRIMARY_RESERVED_PADDING_NAMESPACE) && Supported(TAIL_PADDING_NAMESPACE)
    ensures TX_NAMESPACE != PAY_FOR_BLOB_NAMESPACE
    ensures !IsCompactNamespace(PRIMARY_RESERVED_PADDING_NAMESPACE) && !IsCompactNamespace(TAIL_PADDING_NAMESPACE)
    ensures PRIMARY_RESERVED_PADDING_NAMESPACE != TAIL_PADDING_NAMESPACE
  {
    assert TX_NAMESPACE[28] == 1 && PAY_FOR_BLOB_NAMESPACE[28] == 4;
    assert PRIMARY_RESERVED_PADDING_NAMESPACE[28] == 255 && TAIL_PADDING_NAMESPACE[28] == 254;
  }

  const VERSION_ZERO_ID_SIZE := NAMESPACE_ID_SIZE - VERSION_ZERO_PREFIX_SIZE

  /** NewV0: a namespace of version 0 for the id of a user, padded on the left. */
  function NewV0(subId: Bytes): (r: Result<Bytes>)
  {
    if |subId| > VERSION_ZERO_ID_SIZE then Err(InvalidNamespace)
    else Ok([0] + Zeros(VERSION_ZERO_PREFIX_SIZE) + Zeros(VERSION_ZERO_ID_SIZE - |subId|) + subId)
  }

  /** The supported namespaces of version 0 are exactly those that NewV0 makes of ten-byte ids, one each. */
  lemma SupportedIsNewV0(ns: Bytes)
    ensures Supported(ns) && ns[0] == 0
       <==> |ns| == NAMESPACE_SIZE && NewV0(ns[NAMESPACE_SIZE - VERSION_ZERO_ID_SIZE..]) == Ok(ns)
  {
    if |ns| == NAMESPACE_SIZE {
      var subId := ns[NAMESPACE_SIZE - VERSION_ZERO_ID_SIZE..];
      var made := [0] + Zeros(VERSION_ZERO_PREFIX_SIZE) + Zeros(0) + subId;
      assert VERSION_ZERO_ID_SIZE - |subId| == 0 && NewV0(subId) == Ok(made) && |made| == NAMESPACE_SIZE;
      assert made[0] == 0 && forall i :: 1 <= i <= VERSION_ZERO_PREFIX_SIZE ==> made[i] == 0;
      if Supported(ns) && ns[0] == 0 {
        forall i | 0 <= i < NAMESPACE_SIZE ensures made[i] == ns[i] {
          assert i >= NAMESPACE_SIZE - VERSION_ZERO_ID_SIZE ==> made[i] == subId[i - (NAMESPACE_SIZE - VERSION_ZERO_ID_SIZE)];
        }
        assert made == ns;
      }
    }
  }

  /** Shorter ids are supported, too, and refused ones are exactly the longer ones. */
  lemma NewV0IsSupported(subId: Bytes)
    ensures NewV0(subId).Ok? <==> |subId| <= VERSION_ZERO_ID_SIZE
    ensures NewV0(subId).Ok? ==> Supported(NewV0(subId).value) && subId == NewV0(subId).value[NAMESPACE_SIZE - |subId|..]
  {
  }

  lemma {:induction false} AboveZeros(low: Bytes, a: Bytes)
    requires |low| == |a| > 0 && low[|a| - 1] == 255 && forall i :: 0 <= i < |a| - 1 ==> low[i] == 0
    ensures Less(low, a) <==> exists i :: 0 <= i < |a| - 1 && a[i] != 0
    decreases |a|
  {
    if |a| > 1 {
      AboveZeros(low[1..], a[1..]);
      assert forall i :: 0 < i < |a| ==> a[i] == a[1..][i - 1];
    } else {
      assert Compare(low[1..], a[1..]) == 0;
    }
  }

  lemma {:induction false} BelowOnes(a: Bytes, high: Bytes)
    requires |high| == |a| > 0 && high[|a| - 1] == 0 && forall i :: 0 <= i < |a| - 1 ==> high[i] == 255
    ensures Less(a, high) <==> exists i :: 0 <= i < |a| - 1 && a[i] != 255
    decreases |a|
  {
    if |a| > 1 {
      BelowOnes(a[1..], high[1..]);
      assert forall i :: 0 < i < |a| ==> a[i] == a[1..][i - 1];
    } else {
      assert Compare(a[1..], high[1..]) == 0;
    }
  }

  /** The namespaces for users are exactly the supported ones that differ from all reserved ones before
      the last byte. */
  lemma UserNamespaces(ns: Bytes)
    requires Supported(ns)
    ensures IsUserNamespace(ns)
       <==> && (exists i :: 0 <= i < NAMESPACE_SIZE - 1 && ns[i] != 0)
            && (exists i :: 0 <= i < NAMESPACE_SIZE - 1 && ns[i] != 255)
  {
    AboveZeros(PRIMARY_RESERVED_PADDING_NAMESPACE, ns);
    BelowOnes(ns, MIN_SECONDARY_RESERVED_NAMESPACE);
  }
}
