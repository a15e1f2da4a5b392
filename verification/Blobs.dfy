/** Blobs and the transactions that carry them (pkg/blob/blob.go). */
module Blobs {
  import opened ByteSeqs
  import Namespaces
  import opened Results
  import opened ShareFormat

  datatype Blob = Blob(namespaceId: Bytes, data: Bytes, shareVersion: nat, namespaceVersion: nat) {
    /** Version byte and id; the version is cut to eight bits. */
    function NamespaceOf(): (ns: Bytes)
      ensures |ns| == 1 + |namespaceId|
    {
      [namespaceVersion % 256] + namespaceId
    }

    /** Validate: the form of a blob. */
    function Validate(): (r: Result<()>)
      ensures r.Ok? <==> |namespaceId| == Namespaces.NAMESPACE_ID_SIZE && shareVersion <= 255 && namespaceVersion <= 255 && data != []
    {
      if |namespaceId| != Namespaces.NAMESPACE_ID_SIZE then Err(InvalidBlob)
      else if shareVersion > 255 then Err(InvalidBlob)
      else if namespaceVersion > 255 then Err(InvalidBlob)
      else if |data| == 0 then Err(InvalidBlob)
      else Ok(())
    }
  }

  /** A transaction with the blobs it pays for. */
  datatype BlobTx = BlobTx(tx: Bytes, blobs: seq<Blob>, typeId: Bytes)

  /** The longest data for which the 32-bit loop of SparseSharesNeeded does not wrap around. */
  const MAX_BLOB_LEN := 4_294_967_036

  /** A blob that users may submit. */
  ghost predicate ValidBlob(b: Blob) {
    && |b.namespaceId| == Namespaces.NAMESPACE_ID_SIZE && b.shareVersion == 0 && b.namespaceVersion <= 255
    && 0 < |b.data| <= MAX_BLOB_LEN
    && Namespaces.IsUserNamespace(b.NamespaceOf())
  }

  /** The number of sparse shares for `n` bytes of data. */
  function SparseCount(n: nat): (r: nat)
    ensures n > 0 ==> r >= 1
  {
    if n == 0 then 0
    else if n <= FIRST_SPARSE_CONTENT then 1
    else 2 + (n - FIRST_SPARSE_CONTENT - 1) / CONTINUATION_SPARSE_CONTENT
  }

  /** The bytes that fit into k sparse shares of one sequence. */
  function Available(k: nat): (n: nat)
    requires k >= 1
  {
    FIRST_SPARSE_CONTENT + CONTINUATION_SPARSE_CONTENT * (k - 1)
  }

  /** The same number as the source compares it: its low 32 bits. */
  function Available32(k: nat): (n: nat)
    requires k >= 1
  {
    Available(k) % U32_LIMIT
  }

  /** The number of shares at which those bits first reach their largest even value. A guard that compares
      them with any smaller length ends by then. */
  const LAST_COUNT := 285_143_057

  lemma LastCountReachesEnd()
    ensures Available32(LAST_COUNT) == U32_LIMIT - 2
  {
    assert Available(LAST_COUNT) == 31 * U32_LIMIT + (U32_LIMIT - 2);
  }

  /** The least count from k on whose 32-bit number of available bytes is at least n. */
  function CountFrom(n: nat, k: nat): (r: nat)
    requires n < U32_LIMIT - 1 && 1 <= k <= LAST_COUNT
    ensures k <= r <= LAST_COUNT && Available32(r) >= n
    ensures forall j :: k <= j < r ==> Available32(j) < n
    decreases LAST_COUNT - k
  {
    LastCountReachesEnd();
    if Available32(k) >= n then k else CountFrom(n, k + 1)
  }

  /** The share count of the source for a length that is cut to 32 bits. For the largest 32-bit length the
      source has no result; the value here is then arbitrary. */
  function SharesNeeded32(n: nat): (r: nat)
    ensures r == 0 <==> !Returns(n) || n % U32_LIMIT == 0
  {
    if !Returns(n) || n % U32_LIMIT == 0 then 0 else CountFrom(n % U32_LIMIT, 1)
  }

  /** The lengths for which SparseSharesNeeded returns: all but the largest 32-bit number. */
  predicate Returns(n: nat) {
    n % U32_LIMIT != U32_LIMIT - 1
  }

  /** SparseSharesNeeded, with its comparison of 32-bit numbers. */
  method SparseSharesNeeded(sequenceLen: nat) returns (sharesNeeded: nat)
    requires sequenceLen < U32_LIMIT && Returns(sequenceLen)
    ensures sharesNeeded == SharesNeeded32(sequenceLen)
  {
    hide Available, Available32, CountFrom;
    if sequenceLen == 0 {
      return 0;
    }
    Availability(1);
    CountStep(sequenceLen, 1);
    if sequenceLen < FIRST_SPARSE_CONTENT {
      return 1;
    }
    var bytesAvailable: nat := FIRST_SPARSE_CONTENT;
    sharesNeeded := 1;
    while bytesAvailable % U32_LIMIT < sequenceLen
      invariant 1 <= sharesNeeded <= LAST_COUNT && bytesAvailable == Available(sharesNeeded)
      invariant bytesAvailable % U32_LIMIT == Available32(sharesNeeded)
      invariant CountFrom(sequenceLen, 1) == CountFrom(sequenceLen, sharesNeeded)
      decreases LAST_COUNT - sharesNeeded
    {
      CountStep(sequenceLen, sharesNeeded);
      Availability(sharesNeeded + 1);
      bytesAvailable := bytesAvailable + CONTINUATION_SPARSE_CONTENT;
      sharesNeeded := sharesNeeded + 1;
    }
    CountStep(sequenceLen, sharesNeeded);
  }

  lemma Availability(k: nat)
    requires k >= 1
    ensures Available32(k) == Available(k) % U32_LIMIT
    ensures k == 1 ==> Available(k) == FIRST_SPARSE_CONTENT
    ensures k > 1 ==> Available(k) == Available(k - 1) + CONTINUATION_SPARSE_CONTENT
  {
  }

  lemma CountStep(n: nat, k: nat)
    requires n < U32_LIMIT - 1 && 1 <= k <= LAST_COUNT
    ensures Available32(k) < n ==> k < LAST_COUNT && CountFrom(n, k) == CountFrom(n, k + 1)
    ensures Available32(k) >= n ==> CountFrom(n, k) == k
  {
    hide Available32;
    LastCountReachesEnd();
  }

  /** Cutting a length to 32 bits makes no difference to its count. */
  lemma CutLength(n: nat)
    ensures SharesNeeded32(n % U32_LIMIT) == SharesNeeded32(n) && Returns(n % U32_LIMIT) == Returns(n)
  {
    hide CountFrom;
  }

  /** The count for the data of a valid blob. */
  lemma ValidBlobCount(b: Blob)
    requires ValidBlob(b)
    ensures Returns(|b.data|) && |b.data| < U32_LIMIT && SharesNeeded32(|b.data|) == SparseCount(|b.data|) >= 1
  {
    hide SharesNeeded32, SparseCount, Namespaces.IsUserNamespace;
    SharesNeededIsRight(|b.data|);
    assert SparseCount(|b.data|) >= 1;
  }

  lemma CountBounds(n: nat)
    requires 0 < n < U32_LIMIT
    ensures 1 <= SparseCount(n) <= 8910721 && Available(SparseCount(n)) >= n
    ensures forall j :: 1 <= j < SparseCount(n) ==> Available(j) < n
    ensures n <= MAX_BLOB_LEN ==> Available(SparseCount(n)) <= MAX_BLOB_LEN
    ensures n > MAX_BLOB_LEN ==> Available32(SparseCount(n)) < n
    ensures forall j :: 1 <= j <= SparseCount(n) && Available(j) < U32_LIMIT ==> Available32(j) == Available(j)
  {
    assert MAX_BLOB_LEN == Available(8910720);
    if n > MAX_BLOB_LEN {
      assert SparseCount(n) == 8910721 && Available(8910721) == U32_LIMIT + 222;
    }
  }

  /** The source's count is right exactly up to MAX_BLOB_LEN; beyond that its loop runs past the right
      count because the available bytes wrap around. */
  lemma SharesNeededIsRight(n: nat)
    requires n < U32_LIMIT && Returns(n)
    ensures SharesNeeded32(n) == SparseCount(n) <==> n <= MAX_BLOB_LEN
    ensures SharesNeeded32(n) >= SparseCount(n)
  {
    hide SparseCount, Available, Available32, CountFrom;
    if n == 0 {
      NoBytesNoShares();
    } else {
      CountBounds(n);
    }
  }

  lemma NoBytesNoShares()
    ensures SparseCount(0) == 0
  {
  }

  /** For the largest 32-bit length the loop does not end at all. */
  lemma LongestBlobDiverges(k: nat)
    requires k >= 1
    ensures Available32(k) < U32_LIMIT - 1
  {
    EvenStaysEven(239 + 241 * (k - 1));
  }

  lemma EvenStaysEven(half: nat)
    ensures (2 * half) % U32_LIMIT != U32_LIMIT - 1
  {
    var x := 2 * half;
    assert x % U32_LIMIT == x - U32_LIMIT * (x / U32_LIMIT);
  }
}
