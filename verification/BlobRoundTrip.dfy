/** Unmarshalling undoes marshalling. */
module BlobRoundTrip {
  import opened Blobs
  import opened BlobUnmarshal
  import opened BlobWire
  import opened ByteSeqs
  import Namespaces
  import opened Results
  import opened Varint

  /** The bytes `f` stand at index `i` of `d`. */
  ghost predicate At(d: Bytes, i: nat, f: Bytes) {
    i + |f| <= |d| && d[i..i + |f|] == f
  }

  lemma AtInside(d: Bytes, i: nat, s: Bytes)
    requires At(d, i, s)
    ensures i + |s| <= |d|
  {
  }

  lemma AtSplit(d: Bytes, i: nat, f: Bytes, g: Bytes)
    requires At(d, i, f + g)
    ensures At(d, i, f) && At(d, i + |f|, g)
  {
    var all := d[i..i + |f + g|];
    assert all[..|f|] == f && all[|f|..] == g;
    assert d[i..i + |f|] == all[..|f|] && d[i + |f|..i + |f| + |g|] == all[|f|..];
  }

  lemma {:induction false} VarintOf(d: Bytes, i: nat, v: nat, room: nat)
    requires At(d, i, PutUvarint(v)) && room >= 1 && v < Pow128(room)
    ensures VarintAt(d, i, room) == Ok((v, i + DelimLen(v)))
    decreases room
  {
    if v < 128 {
      assert d[i] == d[i..i + 1][0] == v;
    } else {
      AtSplit(d, i, [v % 128 + 128], PutUvarint(v / 128));
      assert d[i] == d[i..i + 1][0] == v % 128 + 128;
      assert Pow128(1) == 128 * Pow128(0);
      VarintOf(d, i + 1, v / 128, room - 1);
    }
  }

  lemma TenBytesHold64Bits()
    ensures U64_LIMIT < Pow128(MAX_VARINT_LEN)
  {
    assert Pow128(2) == 128 * 128;
    assert Pow128(4) == 128 * (128 * Pow128(2));
    assert Pow128(6) == 128 * (128 * Pow128(4));
    assert Pow128(8) == 128 * (128 * Pow128(6));
    assert Pow128(10) == 128 * (128 * Pow128(8));
  }

  lemma KeyOf(d: Bytes, i: nat, tag: byte)
    requires At(d, i, [tag]) && 8 <= tag < 128 && tag % 8 != 4
    ensures KeyAt(d, i) == Ok((tag / 8, tag % 8, i + 1))
  {
    hide VarintAt, Int32, At;
    OneByteVarint(d, i, tag);
    Int32OfSmall(tag / 8);
  }

  lemma OneByteVarint(d: Bytes, i: nat, tag: byte)
    requires At(d, i, [tag]) && tag < 128
    ensures VarintAt(d, i, MAX_VARINT_LEN) == Ok((tag, i + 1))
  {
    assert d[i] == d[i..i + 1][0] == tag;
  }

  lemma Int32OfSmall(x: nat)
    requires x < INT32_LIMIT
    ensures Int32(x) == x
  {
  }

  lemma BytesOf(d: Bytes, i: nat, b: Bytes)
    requires At(d, i, Delimited(b)) && |d| < INT64_LIMIT
    ensures BytesAt(d, i) == Ok((b, i + |Delimited(b)|))
  {
    hide Pow128, PutUvarint, VarintAt, Int64;
    AtSplit(d, i, PutUvarint(|b|), b);
    TenBytesHold64Bits();
    VarintOf(d, i, |b|, MAX_VARINT_LEN);
    var j := i + DelimLen(|b|);
    Int64OfSmall(|b|);
    Int64OfSmall(j + |b|);
    assert BytesAt(d, i) == Ok((d[j..j + |b|], j + |b|));
  }

  lemma Int64OfSmall(x: nat)
    requires x < INT64_LIMIT
    ensures Int64(x) == x
  {
  }

  lemma UintOf(d: Bytes, i: nat, v: nat)
    requires At(d, i, PutUvarint(v)) && v < U64_LIMIT
    ensures VarintAt(d, i, MAX_VARINT_LEN) == Ok((v, i + DelimLen(v)))
  {
    TenBytesHold64Bits();
    VarintOf(d, i, v, MAX_VARINT_LEN);
  }

  // ----- blobs -----

  /** A bytes field replaces what was read before. */
  lemma ReadBlobBytes(d: Bytes, i: nat, tag: byte, b: Bytes, m: Blob)
    requires |d| < INT64_LIMIT && At(d, i, BytesField(tag, b)) && (tag == 0x0a || tag == 0x12)
    requires b == [] ==> if tag == 0x0a then m.namespaceId == [] else m.data == []
    ensures BlobFrom(d, i, m)
         == BlobFrom(d, i + |BytesField(tag, b)|, if tag == 0x0a then m.(namespaceId := b) else m.(data := b))
  {
    hide KeyAt, BytesAt, Delimited, At, VarintAt, SkipField, Int32, Int64;
    if b != [] {
      AtSplit(d, i, [tag], Delimited(b));
      AtInside(d, i, [tag] + Delimited(b));
      KeyOf(d, i, tag);
      BytesOf(d, i + 1, b);
    }
  }

  /** So does a number, of which the lower 32 bits are kept. */
  lemma ReadBlobUint(d: Bytes, i: nat, tag: byte, v: nat, m: Blob)
    requires |d| < INT64_LIMIT && At(d, i, UintField(tag, v)) && (tag == 0x18 || tag == 0x20) && v < U64_LIMIT
    requires v == 0 ==> if tag == 0x18 then m.shareVersion == 0 else m.namespaceVersion == 0
    ensures var kept := v % U32_LIMIT;
            BlobFrom(d, i, m)
            == BlobFrom(d, i + |UintField(tag, v)|, if tag == 0x18 then m.(shareVersion := kept) else m.(namespaceVersion := kept))
  {
    hide KeyAt, VarintAt, PutUvarint, Int64, Int32, At;
    if v != 0 {
      AtSplit(d, i, [tag], PutUvarint(v));
      KeyOf(d, i, tag);
      UintOf(d, i + 1, v);
    }
  }

  /** The numbers of a blob fit their 32-bit fields. */
  predicate Fits(b: Blob) {
    b.shareVersion < U32_LIMIT && b.namespaceVersion < U32_LIMIT
  }

  lemma UnmarshalEncodedBlob(b: Blob)
    requires Fits(b) && |EncodeBlob(b)| < INT64_LIMIT
    ensures BlobFrom(EncodeBlob(b), 0, EMPTY_BLOB) == Ok(b)
  {
    var d := EncodeBlob(b);
    FieldsOf(b);
    hide At, BlobFrom, BytesField, UintField, EncodeBlob;
    var f1, f2 := BytesField(0x0a, b.namespaceId), BytesField(0x12, b.data);
    var f3, f4 := UintField(0x18, b.shareVersion), UintField(0x20, b.namespaceVersion);
    ReadBlobBytes(d, 0, 0x0a, b.namespaceId, EMPTY_BLOB);
    var m1 := EMPTY_BLOB.(namespaceId := b.namespaceId);
    ReadBlobBytes(d, |f1|, 0x12, b.data, m1);
    var m2 := m1.(data := b.data);
    ReadBlobUint(d, |f1| + |f2|, 0x18, b.shareVersion, m2);
    var m3 := m2.(shareVersion := b.shareVersion);
    ReadBlobUint(d, |f1| + |f2| + |f3|, 0x20, b.namespaceVersion, m3);
    AtEnd(d, b);
  }

  /** Where the fields of a blob stand in its encoding. */
  lemma FieldsOf(b: Blob)
    ensures var d, f1, f2 := EncodeBlob(b), BytesField(0x0a, b.namespaceId), BytesField(0x12, b.data);
            var f3, f4 := UintField(0x18, b.shareVersion), UintField(0x20, b.namespaceVersion);
            && At(d, 0, f1) && At(d, |f1|, f2) && At(d, |f1| + |f2|, f3) && At(d, |f1| + |f2| + |f3|, f4)
            && |d| == |f1| + |f2| + |f3| + |f4|
  {
    hide BytesField, UintField;
    var d, f1, f2 := EncodeBlob(b), BytesField(0x0a, b.namespaceId), BytesField(0x12, b.data);
    var f3, f4 := UintField(0x18, b.shareVersion), UintField(0x20, b.namespaceVersion);
    assert At(d, 0, f1 + f2 + f3 + f4);
    AtSplit(d, 0, f1 + f2 + f3, f4);
    AtSplit(d, 0, f1 + f2, f3);
    AtSplit(d, 0, f1, f2);
  }

  lemma AtEnd(d: Bytes, b: Blob)
    requires |d| < INT64_LIMIT
    ensures BlobFrom(d, |d|, b) == Ok(b)
  {
  }

  // ----- blob transactions -----

  lemma ReadTxBytes(d: Bytes, i: nat, tag: byte, b: Bytes, m: BlobTx)
    requires |d| < INT64_LIMIT && At(d, i, BytesField(tag, b)) && (tag == 0x0a || tag == 0x1a)
    requires if tag == 0x0a then m.tx == [] else m.typeId == []
    ensures TxFrom(d, i, m)
         == TxFrom(d, i + |BytesField(tag, b)|, if tag == 0x0a then m.(tx := b) else m.(typeId := b))
  {
    hide KeyAt, BytesAt, Delimited, BlobFrom;
    if b != [] {
      AtSplit(d, i, [tag], Delimited(b));
      KeyOf(d, i, tag);
      BytesOf(d, i + 1, b);
    }
  }

  lemma ReadTxBlob(d: Bytes, i: nat, b: Blob, m: BlobTx)
    requires |d| < INT64_LIMIT && Fits(b) && At(d, i, [0x12] + Delimited(EncodeBlob(b)))
    ensures TxFrom(d, i, m) == TxFrom(d, i + |[0x12] + Delimited(EncodeBlob(b))|, m.(blobs := m.blobs + [b]))
  {
    hide KeyAt, BytesAt, BlobFrom, EncodeBlob;
    var e := EncodeBlob(b);
    AtSplit(d, i, [0x12], Delimited(e));
    KeyOf(d, i, 0x12);
    BytesOf(d, i + 1, e);
    UnmarshalEncodedBlob(b);
  }

  lemma {:induction false} ReadTxBlobs(d: Bytes, i: nat, blobs: seq<Blob>, m: BlobTx)
    requires |d| < INT64_LIMIT && (forall k :: 0 <= k < |blobs| ==> Fits(blobs[k]))
    requires At(d, i, EncodeBlobs(blobs))
    ensures TxFrom(d, i, m) == TxFrom(d, i + |EncodeBlobs(blobs)|, m.(blobs := m.blobs + blobs))
    decreases |blobs|
  {
    hide TxFrom, EncodeBlob, Delimited;
    if blobs == [] {
      assert m.blobs + blobs == m.blobs;
    } else {
      var field := [0x12] + Delimited(EncodeBlob(blobs[0]));
      AtSplit(d, i, field, EncodeBlobs(blobs[1..]));
      ReadTxBlob(d, i, blobs[0], m);
      ReadTxBlobs(d, i + |field|, blobs[1..], m.(blobs := m.blobs + [blobs[0]]));
      assert m.blobs + [blobs[0]] + blobs[1..] == m.blobs + blobs;
    }
  }

  /** Any transaction whose numbers fit comes back from its encoding. */
  lemma UnmarshalEncodedTx(t: BlobTx)
    requires |EncodeBlobTx(t)| < INT64_LIMIT && forall k :: 0 <= k < |t.blobs| ==> Fits(t.blobs[k])
    ensures TxFrom(EncodeBlobTx(t), 0, EMPTY_TX) == Ok(t)
  {
    var d := EncodeBlobTx(t);
    FieldsOfTx(t);
    hide At, TxFrom, BytesField, EncodeBlobs, EncodeBlobTx;
    var f1, f2 := BytesField(0x0a, t.tx), EncodeBlobs(t.blobs);
    ReadTxBytes(d, 0, 0x0a, t.tx, EMPTY_TX);
    var m1 := EMPTY_TX.(tx := t.tx);
    ReadTxBlobs(d, |f1|, t.blobs, m1);
    assert m1.blobs + t.blobs == t.blobs;
    var m2 := m1.(blobs := t.blobs);
    ReadTxBytes(d, |f1| + |f2|, 0x1a, t.typeId, m2);
    AtTxEnd(d, t);
  }

  lemma FieldsOfTx(t: BlobTx)
    ensures var d, f1 := EncodeBlobTx(t), BytesField(0x0a, t.tx);
            var f2, f3 := EncodeBlobs(t.blobs), BytesField(0x1a, t.typeId);
            At(d, 0, f1) && At(d, |f1|, f2) && At(d, |f1| + |f2|, f3) && |d| == |f1| + |f2| + |f3|
  {
    hide BytesField, EncodeBlobs;
    var f1, f2, f3 := BytesField(0x0a, t.tx), EncodeBlobs(t.blobs), BytesField(0x1a, t.typeId);
    assert At(EncodeBlobTx(t), 0, f1 + f2 + f3);
    AtSplit(EncodeBlobTx(t), 0, f1 + f2, f3);
    AtSplit(EncodeBlobTx(t), 0, f1, f2);
  }

  lemma AtTxEnd(d: Bytes, t: BlobTx)
    requires |d| < INT64_LIMIT
    ensures TxFrom(d, |d|, t) == Ok(t)
  {
  }

  /** UnmarshalBlobTx(MarshalBlobTx(tx, blobs)) gives back the transaction and the blobs. */
  lemma BlobTxRoundTrip(tx: Bytes, blobs: seq<Blob>)
    requires blobs != []
    requires forall k :: 0 <= k < |blobs| ==> Fits(blobs[k]) && |blobs[k].namespaceId| == Namespaces.NAMESPACE_ID_SIZE
    requires |EncodeBlobTx(BlobTx(tx, blobs, BLOB_TX_TYPE_ID))| < INT64_LIMIT
    ensures AsBlobTx(EncodeBlobTx(BlobTx(tx, blobs, BLOB_TX_TYPE_ID))) == Some(BlobTx(tx, blobs, BLOB_TX_TYPE_ID))
  {
    UnmarshalEncodedTx(BlobTx(tx, blobs, BLOB_TX_TYPE_ID));
  }
}
