/** The wire format of blobs and blob transactions (pkg/blob/blob.pb.go), after the sections "Base 128
    Varints" and "Message Structure" of the Protocol Buffers encoding specification. */
module BlobWire {
  import opened Blobs
  import opened ByteSeqs
  import opened Varint

  const INT64_LIMIT := 0x8000_0000_0000_0000
  const INT32_LIMIT := 0x8000_0000

  // ----- sizes and encodings -----

  /** bits.Len64. */
  function BitLen(x: nat): (n: nat)
  {
    if x == 0 then 0 else 1 + BitLen(x / 2)
  }

  /** sovBlob: the bytes that a varint takes up, from the number of bits. */
  function Sov(x: nat): (n: nat)
  {
    (BitLen(x / 2 * 2 + 1) + 6) / 7
  }

  lemma BitLenShift7(x: nat)
    requires x >= 128
    ensures BitLen(x) == 7 + BitLen(x / 128)
  {
    assert BitLen(x) == 1 + BitLen(x / 2);
    assert BitLen(x / 2) == 1 + BitLen(x / 4) by { assert x / 2 / 2 == x / 4; }
    assert BitLen(x / 4) == 1 + BitLen(x / 8) by { assert x / 4 / 2 == x / 8; }
    assert BitLen(x / 8) == 1 + BitLen(x / 16) by { assert x / 8 / 2 == x / 16; }
    assert BitLen(x / 16) == 1 + BitLen(x / 32) by { assert x / 16 / 2 == x / 32; }
    assert BitLen(x / 32) == 1 + BitLen(x / 64) by { assert x / 32 / 2 == x / 64; }
    assert BitLen(x / 64) == 1 + BitLen(x / 128) by { assert x / 64 / 2 == x / 128; }
  }

  lemma BitLenSmall(x: nat)
    requires 1 <= x < 128
    ensures 1 <= BitLen(x) <= 7
  {
    assert BitLen(x) == 1 + BitLen(x / 2);
    if x >= 2 { assert BitLen(x / 2) == 1 + BitLen(x / 4) by { assert x / 2 / 2 == x / 4; } }
    if x >= 4 { assert BitLen(x / 4) == 1 + BitLen(x / 8) by { assert x / 4 / 2 == x / 8; } }
    if x >= 8 { assert BitLen(x / 8) == 1 + BitLen(x / 16) by { assert x / 8 / 2 == x / 16; } }
    if x >= 16 { assert BitLen(x / 16) == 1 + BitLen(x / 32) by { assert x / 16 / 2 == x / 32; } }
    if x >= 32 { assert BitLen(x / 32) == 1 + BitLen(x / 64) by { assert x / 32 / 2 == x / 64; } }
    if x >= 64 { assert BitLen(x / 64) == 1 + BitLen(x / 128) by { assert x / 64 / 2 == x / 128; } }
  }

  /** The closed form agrees with the number of bytes that are written. */
  lemma {:induction false} SovIsDelimLen(x: nat)
    ensures Sov(x) == DelimLen(x)
  {
    var odd := x / 2 * 2 + 1;
    if x < 128 {
      BitLenSmall(odd);
    } else {
      BitLenShift7(odd);
      SovIsDelimLen(x / 128);
      assert odd / 128 == x / 128;
      OrOneDoesNotChangeLen(x / 128);
    }
  }

  lemma OrOneDoesNotChangeLen(x: nat)
    requires x >= 1
    ensures BitLen(x / 2 * 2 + 1) == BitLen(x)
  {
    assert (x / 2 * 2 + 1) / 2 == x / 2;
  }

  function BytesField(tag: byte, b: Bytes): (r: Bytes)
  {
    if b == [] then [] else [tag] + Delimited(b)
  }

  function UintField(tag: byte, v: nat): (r: Bytes)
  {
    if v == 0 then [] else [tag] + PutUvarint(v)
  }

  function EncodeBlob(b: Blob): (r: Bytes)
  {
    BytesField(0x0a, b.namespaceId) + BytesField(0x12, b.data)
    + UintField(0x18, b.shareVersion) + UintField(0x20, b.namespaceVersion)
  }

  function EncodeBlobs(blobs: seq<Blob>): (r: Bytes)
  {
    if blobs == [] then [] else [0x12] + Delimited(EncodeBlob(blobs[0])) + EncodeBlobs(blobs[1..])
  }

  function EncodeBlobTx(t: BlobTx): (r: Bytes)
  {
    BytesField(0x0a, t.tx) + EncodeBlobs(t.blobs) + BytesField(0x1a, t.typeId)
  }

  function BytesFieldSize(l: nat): (n: nat)
  {
    if l > 0 then 1 + l + Sov(l) else 0
  }

  function UintFieldSize(v: nat): (n: nat)
  {
    if v != 0 then 1 + Sov(v) else 0
  }

  function SizeBlob(b: Blob): (n: nat)
  {
    BytesFieldSize(|b.namespaceId|) + BytesFieldSize(|b.data|)
    + UintFieldSize(b.shareVersion) + UintFieldSize(b.namespaceVersion)
  }

  function SizeBlobs(blobs: seq<Blob>): (n: nat)
  {
    if blobs == [] then 0
    else SizeBlobs(blobs[..|blobs| - 1]) + 1 + SizeBlob(blobs[|blobs| - 1]) + Sov(SizeBlob(blobs[|blobs| - 1]))
  }

  function SizeBlobTx(t: BlobTx): (n: nat)
  {
    BytesFieldSize(|t.tx|) + SizeBlobs(t.blobs) + BytesFieldSize(|t.typeId|)
  }

  lemma FieldSizes(tag: byte, b: Bytes, v: nat)
    ensures |BytesField(tag, b)| == BytesFieldSize(|b|)
    ensures |UintField(tag, v)| == UintFieldSize(v)
  {
    SovIsDelimLen(|b|);
    SovIsDelimLen(v);
  }

  /** Size is the length of the encoding. */
  lemma BlobSizeExact(b: Blob)
    ensures SizeBlob(b) == |EncodeBlob(b)|
  {
    FieldSizes(0x0a, b.namespaceId, b.shareVersion);
    FieldSizes(0x12, b.data, b.namespaceVersion);
    FieldSizes(0x18, b.data, b.shareVersion);
    FieldSizes(0x20, b.data, b.namespaceVersion);
  }

  lemma {:induction false} EncodeBlobsSnoc(blobs: seq<Blob>, b: Blob)
    ensures EncodeBlobs(blobs + [b]) == EncodeBlobs(blobs) + ([0x12] + Delimited(EncodeBlob(b)))
  {
    hide EncodeBlob;
    if blobs == [] {
      assert blobs + [b] == [b] && [b][1..] == [];
    } else {
      assert (blobs + [b])[1..] == blobs[1..] + [b];
      EncodeBlobsSnoc(blobs[1..], b);
    }
  }

  lemma {:induction false} BlobsSizeExact(blobs: seq<Blob>)
    ensures SizeBlobs(blobs) == |EncodeBlobs(blobs)|
  {
    hide EncodeBlob, SizeBlob, Sov;
    if blobs != [] {
      var init, last := blobs[..|blobs| - 1], blobs[|blobs| - 1];
      assert blobs == init + [last];
      BlobsSizeExact(init);
      EncodeBlobsSnoc(init, last);
      BlobSizeExact(last);
      SovIsDelimLen(SizeBlob(last));
    }
  }

  lemma BlobTxSizeExact(t: BlobTx)
    ensures SizeBlobTx(t) == |EncodeBlobTx(t)|
  {
    FieldSizes(0x0a, t.tx, 0);
    FieldSizes(0x1a, t.typeId, 0);
    BlobsSizeExact(t.blobs);
  }

  // ----- marshalling, back to front -----

  /** Only the bytes in [lo, hi) differ from `before`. */
  ghost predicate Wrote(before: seq<byte>, after: seq<byte>, lo: nat, b: Bytes) {
    && |before| == |after| && lo + |b| <= |after|
    && after == before[..lo] + b + before[lo + |b|..]
  }

  lemma WroteTwice(s0: seq<byte>, s1: seq<byte>, s2: seq<byte>, lo: nat, a: Bytes, b: Bytes)
    requires Wrote(s0, s1, lo + |a|, b) && Wrote(s1, s2, lo, a)
    ensures Wrote(s0, s2, lo, a + b)
  {
  }

  lemma WroteByte(s0: seq<byte>, s1: seq<byte>, lo: nat, a: Bytes, x: byte)
    requires Wrote(s0, s1, lo, a) && lo + |a| < |s1|
    ensures Wrote(s0, s1[lo + |a| := x], lo, a + [x])
  {
  }

  method CopyAt(buf: array<byte>, lo: nat, b: Bytes)
    requires lo + |b| <= buf.Length
    modifies buf
    ensures Wrote(old(buf[..]), buf[..], lo, b)
  {
    hide Wrote;
    ghost var before := buf[..];
    WroteNothing(before, lo);
    assert b[..0] == [];
    for i := 0 to |b|
      invariant Wrote(before, buf[..], lo, b[..i])
    {
      WroteByte(before, buf[..], lo, b[..i], b[i]);
      ghost var s := buf[..];
      buf[lo + i] := b[i];
      assert buf[..] == s[lo + i := b[i]] && b[..i + 1] == b[..i] + [b[i]];
    }
    assert b[..|b|] == b;
  }

  /** encodeVarintBlob: writes the varint so that it ends at `offset0`, and returns where it begins. */
  method EncodeVarintBlob(buf: array<byte>, offset0: nat, v0: nat) returns (base: nat)
    requires Sov(v0) <= offset0 <= buf.Length
    modifies buf
    ensures base == offset0 - Sov(v0) == offset0 - |PutUvarint(v0)|
    ensures Wrote(old(buf[..]), buf[..], base, PutUvarint(v0))
  {
    SovIsDelimLen(v0);
    hide Sov, Wrote;
    var offset, v := offset0 - Sov(v0), v0;
    base := offset;
    ghost var written: Bytes := [];
    WroteNothing(buf[..], base);
    while v >= 128
      invariant base <= offset && offset == base + |written|
      invariant written + PutUvarint(v) == PutUvarint(v0)
      invariant Wrote(old(buf[..]), buf[..], base, written)
    {
      WroteByte(old(buf[..]), buf[..], base, written, v % 128 + 128);
      ghost var before := buf[..];
      buf[offset] := v % 128 + 128;
      assert buf[..] == before[offset := v % 128 + 128];
      written := written + [v % 128 + 128];
      v := v / 128;
      offset := offset + 1;
    }
    WroteByte(old(buf[..]), buf[..], base, written, v);
    ghost var before := buf[..];
    buf[offset] := v;
    assert buf[..] == before[offset := v];
    assert written + [v] == PutUvarint(v0);
  }

  lemma WroteNothing(s: seq<byte>, lo: nat)
    requires lo <= |s|
    ensures Wrote(s, s, lo, [])
  {
  }

  /** A length-delimited field that ends at `i0`; an empty one is left out. */
  method PutBytesField(buf: array<byte>, i0: nat, tag: byte, b: Bytes) returns (i: nat)
    requires BytesFieldSize(|b|) <= i0 <= buf.Length
    modifies buf
    ensures i == i0 - BytesFieldSize(|b|) == i0 - |BytesField(tag, b)|
    ensures Wrote(old(buf[..]), buf[..], i, BytesField(tag, b))
  {
    hide Wrote, Sov, Delimited, BytesFieldSize, BytesField;
    i := i0;
    FieldSizes(tag, b, 0);
    FieldParts(tag, b);
    WroteNothing(buf[..], i);
    if |b| > 0 {
      i := PutDelimited(buf, i0, b);
      ghost var s1 := buf[..];
      i := i - 1;
      WroteNothing(s1, i);
      WroteByte(s1, s1, i, [], tag);
      buf[i] := tag;
      assert buf[..] == s1[i := tag] && [] + [tag] == [tag];
      WroteTwice(old(buf[..]), s1, buf[..], i, [tag], Delimited(b));
    }
  }

  lemma FieldParts(tag: byte, b: Bytes)
    ensures BytesField(tag, b) == if b == [] then [] else [tag] + Delimited(b)
    ensures BytesFieldSize(|b|) == if b == [] then 0 else 1 + |b| + Sov(|b|)
  {
    hide Sov, Delimited;
  }

  /** Data behind its length, ending at `i0`. */
  method PutDelimited(buf: array<byte>, i0: nat, b: Bytes) returns (i: nat)
    requires |b| + Sov(|b|) <= i0 <= buf.Length
    modifies buf
    ensures i == i0 - |Delimited(b)| == i0 - |b| - Sov(|b|)
    ensures Wrote(old(buf[..]), buf[..], i, Delimited(b))
  {
    hide Sov, Wrote;
    i := i0 - |b|;
    CopyAt(buf, i, b);
    ghost var s1 := buf[..];
    i := EncodeVarintBlob(buf, i, |b|);
    WroteTwice(old(buf[..]), s1, buf[..], i, PutUvarint(|b|), b);
  }

  method PutUintField(buf: array<byte>, i0: nat, tag: byte, v: nat) returns (i: nat)
    requires UintFieldSize(v) <= i0 <= buf.Length
    modifies buf
    ensures i == i0 - UintFieldSize(v) == i0 - |UintField(tag, v)|
    ensures Wrote(old(buf[..]), buf[..], i, UintField(tag, v))
  {
    hide Wrote, Sov, PutUvarint;
    i := i0;
    FieldSizes(tag, [], v);
    WroteNothing(buf[..], i);
    if v != 0 {
      i := EncodeVarintBlob(buf, i, v);
      ghost var s1 := buf[..];
      i := i - 1;
      WroteNothing(s1, i);
      WroteByte(s1, s1, i, [], tag);
      buf[i] := tag;
      assert buf[..] == s1[i := tag] && [] + [tag] == [tag];
      WroteTwice(old(buf[..]), s1, buf[..], i, [tag], PutUvarint(v));
    }
  }

  /** Blob.MarshalToSizedBuffer on buf[..end]: last field first. */
  method MarshalBlob(buf: array<byte>, end: nat, m: Blob) returns (n: nat)
    requires SizeBlob(m) <= end <= buf.Length
    modifies buf
    ensures n == SizeBlob(m) == |EncodeBlob(m)|
    ensures Wrote(old(buf[..]), buf[..], end - n, EncodeBlob(m))
  {
    hide Wrote, Sov, UintField, BytesField, UintFieldSize, BytesFieldSize, EncodeBlob;
    BlobSizeExact(m);
    var i := PutUintField(buf, end, 0x20, m.namespaceVersion);
    ghost var s1, f4 := buf[..], UintField(0x20, m.namespaceVersion);
    i := PutUintField(buf, i, 0x18, m.shareVersion);
    ghost var s2, f3 := buf[..], UintField(0x18, m.shareVersion) + f4;
    WroteTwice(old(buf[..]), s1, s2, i, UintField(0x18, m.shareVersion), f4);
    i := PutBytesField(buf, i, 0x12, m.data);
    ghost var s3, f2 := buf[..], BytesField(0x12, m.data) + f3;
    WroteTwice(old(buf[..]), s2, s3, i, BytesField(0x12, m.data), f3);
    i := PutBytesField(buf, i, 0x0a, m.namespaceId);
    WroteTwice(old(buf[..]), s3, buf[..], i, BytesField(0x0a, m.namespaceId), f2);
    EncodeBlobAssoc(m);
    n := end - i;
  }

  lemma EncodeBlobAssoc(m: Blob)
    ensures EncodeBlob(m)
         == BytesField(0x0a, m.namespaceId)
            + (BytesField(0x12, m.data) + (UintField(0x18, m.shareVersion) + UintField(0x20, m.namespaceVersion)))
  {
    Assoc4(BytesField(0x0a, m.namespaceId), BytesField(0x12, m.data),
           UintField(0x18, m.shareVersion), UintField(0x20, m.namespaceVersion));
  }

  lemma Assoc4(a: Bytes, b: Bytes, c: Bytes, d: Bytes)
    ensures a + b + c + d == a + (b + (c + d))
  {
  }

  /** The blobs of a transaction, last one first, ending at `end`. */
  method MarshalBlobs(buf: array<byte>, end: nat, blobs: seq<Blob>) returns (i: nat)
    requires SizeBlobs(blobs) <= end <= buf.Length
    modifies buf
    ensures i == end - SizeBlobs(blobs) == end - |EncodeBlobs(blobs)|
    ensures Wrote(old(buf[..]), buf[..], i, EncodeBlobs(blobs))
  {
    hide Wrote, Sov, SizeBlob, EncodeBlob, EncodeBlobs, SizeBlobs, Delimited;
    BlobsSizeExact(blobs);
    i := end;
    ghost var done: Bytes := [];
    WroteNothing(buf[..], i);
    var iNdEx := |blobs|;
    assert blobs[..|blobs|] == blobs && EncodeBlobs(blobs) + [] == EncodeBlobs(blobs);
    while iNdEx > 0
      invariant 0 <= iNdEx <= |blobs| && i == end - |done|
      invariant EncodeBlobs(blobs[..iNdEx]) + done == EncodeBlobs(blobs)
      invariant Wrote(old(buf[..]), buf[..], i, done)
    {
      iNdEx := iNdEx - 1;
      ghost var s0, field := buf[..], [0x12] + Delimited(EncodeBlob(blobs[iNdEx]));
      LastBlobField(blobs, iNdEx, done);
      i := MarshalBlobField(buf, i, blobs[iNdEx]);
      WroteTwice(old(buf[..]), s0, buf[..], i, field, done);
      done := field + done;
    }
    EmptyBlobs(blobs, done);
  }

  lemma EmptyBlobs(blobs: seq<Blob>, done: Bytes)
    ensures EncodeBlobs(blobs[..0]) + done == done
  {
    assert blobs[..0] == [] && EncodeBlobs([]) + done == done;
  }

  lemma LastBlobField(blobs: seq<Blob>, k: nat, done: Bytes)
    requires k < |blobs|
    ensures var field := [0x12] + Delimited(EncodeBlob(blobs[k]));
            && |field| == 1 + SizeBlob(blobs[k]) + Sov(SizeBlob(blobs[k]))
            && EncodeBlobs(blobs[..k + 1]) + done == EncodeBlobs(blobs[..k]) + (field + done)
  {
    hide SizeBlob, EncodeBlob, Sov;
    var field := [0x12] + Delimited(EncodeBlob(blobs[k]));
    assert blobs[..k + 1] == blobs[..k] + [blobs[k]];
    EncodeBlobsSnoc(blobs[..k], blobs[k]);
    BlobSizeExact(blobs[k]);
    SovIsDelimLen(SizeBlob(blobs[k]));
    assert EncodeBlobs(blobs[..k]) + field + done == EncodeBlobs(blobs[..k]) + (field + done);
  }

  method MarshalBlobField(buf: array<byte>, end: nat, b: Blob) returns (i: nat)
    requires 1 + SizeBlob(b) + Sov(SizeBlob(b)) <= end <= buf.Length
    modifies buf
    ensures i == end - |[0x12] + Delimited(EncodeBlob(b))|
    ensures Wrote(old(buf[..]), buf[..], i, [0x12] + Delimited(EncodeBlob(b)))
  {
    hide Wrote, Sov, SizeBlob, EncodeBlob;
    var size := MarshalBlob(buf, end, b);
    ghost var s1 := buf[..];
    i := end - size;
    i := EncodeVarintBlob(buf, i, size);
    ghost var s2 := buf[..];
    WroteTwice(old(buf[..]), s1, s2, i, PutUvarint(size), EncodeBlob(b));
    i := i - 1;
    WroteNothing(s2, i);
    WroteByte(s2, s2, i, [], 0x12);
    buf[i] := 0x12;
    assert buf[..] == s2[i := 0x12] && [] + [0x12] == [0x12];
    WroteTwice(old(buf[..]), s2, buf[..], i, [0x12], Delimited(EncodeBlob(b)));
  }

  /** BlobTx.MarshalToSizedBuffer: last field first. */
  method MarshalToSizedBuffer(buf: array<byte>, t: BlobTx)
    requires buf.Length == SizeBlobTx(t)
    modifies buf
    ensures buf[..] == EncodeBlobTx(t)
  {
    TxSizes(t);
    hide Wrote, BytesFieldSize, BytesField, SizeBlobs, EncodeBlobs, EncodeBlobTx;
    ghost var s0, f1, f2, f3 := buf[..], BytesField(0x0a, t.tx), EncodeBlobs(t.blobs), BytesField(0x1a, t.typeId);
    var i := PutBytesField(buf, buf.Length, 0x1a, t.typeId);
    ghost var s1 := buf[..];
    i := MarshalBlobs(buf, i, t.blobs);
    ghost var s2 := buf[..];
    WroteTwice(s0, s1, s2, i, f2, f3);
    i := PutBytesField(buf, i, 0x0a, t.tx);
    WroteTwice(s0, s2, buf[..], i, f1, f2 + f3);
    WroteAll(s0, buf[..], f1 + (f2 + f3));
  }

  lemma TxSizes(t: BlobTx)
    ensures BytesFieldSize(|t.tx|) == |BytesField(0x0a, t.tx)|
    ensures SizeBlobs(t.blobs) == |EncodeBlobs(t.blobs)|
    ensures BytesFieldSize(|t.typeId|) == |BytesField(0x1a, t.typeId)|
    ensures EncodeBlobTx(t) == BytesField(0x0a, t.tx) + (EncodeBlobs(t.blobs) + BytesField(0x1a, t.typeId))
  {
    BlobsSizeExact(t.blobs);
    FieldSizes(0x0a, t.tx, 0);
    FieldSizes(0x1a, t.typeId, 0);
    Assoc4(BytesField(0x0a, t.tx), EncodeBlobs(t.blobs), BytesField(0x1a, t.typeId), []);
  }

  /** BlobTx.Marshal: a buffer of exactly Size bytes, filled from the back, holds the encoding. */
  method Marshal(t: BlobTx) returns (r: Bytes)
    ensures r == EncodeBlobTx(t)
  {
    var size := SizeBlobTx(t);
    var buf := new byte[size];
    MarshalToSizedBuffer(buf, t);
    r := buf[..];
  }

  lemma WroteAll(before: seq<byte>, after: seq<byte>, b: Bytes)
    requires Wrote(before, after, 0, b) && |b| == |after|
    ensures after == b
  {
  }
}
