/** Fields on the wire, known to a message or not, as section "Message Structure" of the Protocol Buffers
    Encoding specification lays them out, and what the unmarshallers do with them (pkg/blob/blob.pb.go). */
module WireFields {
  import opened Blobs
  import opened BlobRoundTrip
  import opened BlobUnmarshal
  import opened BlobWire
  import opened ByteSeqs
  import opened Results
  import opened Varint

  /** One field: a number and what the wire type says follows it. */
  datatype Field =
    | Number(number: nat, value: nat)
    | Fixed64(number: nat, bytes: Bytes)
    | Chunk(number: nat, bytes: Bytes)
    | Group(number: nat, fields: Fields)
    | Fixed32(number: nat, bytes: Bytes)

  datatype Fields = NoFields | MoreFields(first: Field, rest: Fields)

  const NUMBER_LIMIT := 0x2000_0000

  function Key(number: nat, wireType: nat): (r: Bytes)
    ensures |r| >= 1
  {
    PutUvarint(8 * number + wireType)
  }

  function EncodeField(f: Field): (r: Bytes)
    ensures |r| >= 1
  {
    match f
    case Number(n, v) => Key(n, 0) + PutUvarint(v)
    case Fixed64(n, b) => Key(n, 1) + b
    case Chunk(n, b) => Key(n, 2) + Delimited(b)
    case Group(n, fields) => Key(n, 3) + (EncodeFields(fields) + Key(n, 4))
    case Fixed32(n, b) => Key(n, 5) + b
  }

  function EncodeFields(fs: Fields): (r: Bytes)
  {
    match fs
    case NoFields => []
    case MoreFields(first, rest) => EncodeField(first) + EncodeFields(rest)
  }

  predicate WellFormed(f: Field) {
    && 0 < f.number < NUMBER_LIMIT
    && match f
       case Number(_, v) => v < U64_LIMIT
       case Fixed64(_, b) => |b| == 8
       case Chunk(_, b) => |b| < INT64_LIMIT
       case Group(_, fields) => AllWellFormed(fields)
       case Fixed32(_, b) => |b| == 4
  }

  predicate AllWellFormed(fs: Fields) {
    match fs
    case NoFields => true
    case MoreFields(first, rest) => WellFormed(first) && AllWellFormed(rest)
  }

  // ----- skipping -----

  /** Where skipping goes on behind an element: nowhere when no group is open. */
  function GoOn(s: Bytes, j: nat, depth: nat): (r: Result<nat>)
    requires |s| < INT64_LIMIT
  {
    if depth == 0 then Ok(j) else SkipFrom(s, j, depth)
  }

  lemma KeyVarint(s: Bytes, i: nat, n: nat, w: nat)
    requires At(s, i, Key(n, w)) && n < NUMBER_LIMIT && w < 8
    ensures i < |s| && VarintAt(s, i, MAX_VARINT_LEN) == Ok((8 * n + w, i + |Key(n, w)|))
  {
    hide PutUvarint, VarintAt, Pow128;
    TenBytesHold64Bits();
    VarintOf(s, i, 8 * n + w, MAX_VARINT_LEN);
  }

  lemma WireTypeOf(n: nat, w: nat)
    requires w < 8
    ensures (8 * n + w) % 8 == w && (8 * n + w) / 8 == n
  {
  }

  lemma SkipsNumber(s: Bytes, i: nat, depth: nat, n: nat, v: nat)
    requires |s| < INT64_LIMIT && n < NUMBER_LIMIT && v < U64_LIMIT && At(s, i, Key(n, 0) + PutUvarint(v))
    ensures SkipFrom(s, i, depth) == GoOn(s, i + |Key(n, 0) + PutUvarint(v)|, depth)
  {
    hide PutUvarint, VarintAt, Pow128, Key, Int64, At;
    AtSplit(s, i, Key(n, 0), PutUvarint(v));
    KeyVarint(s, i, n, 0);
    WireTypeOf(n, 0);
    TenBytesHold64Bits();
    VarintOf(s, i + |Key(n, 0)|, v, MAX_VARINT_LEN);
  }

  lemma SkipsFixed(s: Bytes, i: nat, depth: nat, n: nat, w: nat, b: Bytes)
    requires |s| < INT64_LIMIT && n < NUMBER_LIMIT && ((w == 1 && |b| == 8) || (w == 5 && |b| == 4))
    requires At(s, i, Key(n, w) + b)
    ensures SkipFrom(s, i, depth) == GoOn(s, i + |Key(n, w) + b|, depth)
  {
    hide PutUvarint, VarintAt, Pow128, Key, Int64, At, Advance;
    AtInside(s, i, Key(n, w) + b);
    AtSplit(s, i, Key(n, w), b);
    KeyVarint(s, i, n, w);
    WireTypeOf(n, w);
  }

  lemma SkipsChunk(s: Bytes, i: nat, depth: nat, n: nat, b: Bytes)
    requires |s| < INT64_LIMIT && n < NUMBER_LIMIT && At(s, i, Key(n, 2) + Delimited(b))
    ensures SkipFrom(s, i, depth) == GoOn(s, i + |Key(n, 2) + Delimited(b)|, depth)
  {
    hide PutUvarint, VarintAt, Pow128, Key, Int64, At, Advance;
    AtInside(s, i, Key(n, 2) + Delimited(b));
    AtSplit(s, i, Key(n, 2), Delimited(b));
    KeyVarint(s, i, n, 2);
    WireTypeOf(n, 2);
    var j := i + |Key(n, 2)|;
    AtSplit(s, j, PutUvarint(|b|), b);
    TenBytesHold64Bits();
    VarintOf(s, j, |b|, MAX_VARINT_LEN);
    Int64OfSmall(|b|);
  }

  lemma SkipsGroupEnds(s: Bytes, i: nat, depth: nat, n: nat)
    requires |s| < INT64_LIMIT && n < NUMBER_LIMIT
    ensures At(s, i, Key(n, 3)) ==> SkipFrom(s, i, depth) == SkipFrom(s, i + |Key(n, 3)|, depth + 1)
    ensures At(s, i, Key(n, 4)) && depth > 0 ==> SkipFrom(s, i, depth) == GoOn(s, i + |Key(n, 4)|, depth - 1)
  {
    hide PutUvarint, VarintAt, Key, Int64, At, Advance;
    if At(s, i, Key(n, 3)) {
      KeyVarint(s, i, n, 3);
      WireTypeOf(n, 3);
    }
    if At(s, i, Key(n, 4)) {
      KeyVarint(s, i, n, 4);
      WireTypeOf(n, 4);
    }
  }

  /** A field is skipped exactly, at any depth of groups. */
  lemma {:induction false} SkipsField(s: Bytes, i: nat, depth: nat, f: Field)
    requires |s| < INT64_LIMIT && WellFormed(f) && At(s, i, EncodeField(f))
    ensures SkipFrom(s, i, depth) == GoOn(s, i + |EncodeField(f)|, depth)
    decreases f
  {
    hide SkipFrom, Key, PutUvarint, Delimited, At, GoOn;
    match f
    case Number(n, v) => SkipsNumber(s, i, depth, n, v);
    case Fixed64(n, b) => SkipsFixed(s, i, depth, n, 1, b);
    case Chunk(n, b) => SkipsChunk(s, i, depth, n, b);
    case Fixed32(n, b) => SkipsFixed(s, i, depth, n, 5, b);
    case Group(n, fields) =>
      var start, inside, end := Key(n, 3), EncodeFields(fields), Key(n, 4);
      AtSplit(s, i, start, inside + end);
      AtSplit(s, i + |start|, inside, end);
      SkipsGroupEnds(s, i, depth, n);
      SkipsFields(s, i + |start|, depth + 1, fields);
      SkipsGroupEnds(s, i + |start| + |inside|, depth + 1, n);
  }

  lemma {:induction false} SkipsFields(s: Bytes, i: nat, depth: nat, fs: Fields)
    requires |s| < INT64_LIMIT && AllWellFormed(fs) && At(s, i, EncodeFields(fs)) && depth > 0
    ensures SkipFrom(s, i, depth) == SkipFrom(s, i + |EncodeFields(fs)|, depth)
    decreases fs
  {
    hide SkipFrom, EncodeField, WellFormed, At;
    match fs
    case NoFields =>
    case MoreFields(first, rest) =>
      AtSplit(s, i, EncodeField(first), EncodeFields(rest));
      SkipsField(s, i, depth, first);
      SkipsFields(s, i + |EncodeField(first)|, depth, rest);
  }

  /** Skipping an unknown field of a message leads to exactly the index behind it. */
  lemma SkipFieldIsExact(d: Bytes, i: nat, f: Field)
    requires |d| < INT64_LIMIT && WellFormed(f) && At(d, i, EncodeField(f))
    ensures i < |d| && SkipField(d, i) == Ok(i + |EncodeField(f)|)
  {
    hide SkipFrom, EncodeField, WellFormed;
    assert d[i..][..|EncodeField(f)|] == d[i..i + |EncodeField(f)|];
    assert At(d[i..], 0, EncodeField(f));
    SkipsField(d[i..], 0, 0, f);
  }

  // ----- unknown fields change nothing -----

  lemma FieldKey(d: Bytes, i: nat, f: Field)
    requires WellFormed(f) && At(d, i, EncodeField(f))
    ensures KeyAt(d, i).Ok? && KeyAt(d, i).value.0 == f.number
  {
    hide PutUvarint, VarintAt, Key, At, Delimited, EncodeFields, Int32;
    var w := match f case Number(_, _) => 0 case Fixed64(_, _) => 1 case Chunk(_, _) => 2 case Group(_, _) => 3 case Fixed32(_, _) => 5;
    var rest := match f
      case Number(_, v) => PutUvarint(v)
      case Fixed64(_, b) => b
      case Chunk(_, b) => Delimited(b)
      case Group(n, fields) => EncodeFields(fields) + Key(n, 4)
      case Fixed32(_, b) => b;
    AtSplit(d, i, Key(f.number, w), rest);
    KeyVarint(d, i, f.number, w);
    WireTypeOf(f.number, w);
    Int32OfSmall(f.number);
  }

  predicate AllAbove(fs: Fields, known: nat) {
    match fs
    case NoFields => true
    case MoreFields(first, rest) => first.number > known && AllAbove(rest, known)
  }

  lemma UnknownBlobField(d: Bytes, i: nat, f: Field, m: Blob)
    requires |d| < INT64_LIMIT && WellFormed(f) && f.number > 4 && At(d, i, EncodeField(f))
    ensures i < |d| && BlobField(d, i, m) == Ok((m, i + |EncodeField(f)|))
  {
    hide SkipField, EncodeField, WellFormed, At, KeyAt, BytesAt, VarintAt;
    FieldKey(d, i, f);
    SkipFieldIsExact(d, i, f);
  }

  lemma {:induction false} BlobIgnoresUnknown(d: Bytes, i: nat, fs: Fields, m: Blob)
    requires |d| < INT64_LIMIT && AllWellFormed(fs) && AllAbove(fs, 4) && At(d, i, EncodeFields(fs))
    ensures BlobFrom(d, i, m) == BlobFrom(d, i + |EncodeFields(fs)|, m)
    decreases fs
  {
    hide BlobField, EncodeField, WellFormed, At;
    AtInside(d, i, EncodeFields(fs));
    match fs
    case NoFields =>
    case MoreFields(first, rest) =>
      AtSplit(d, i, EncodeField(first), EncodeFields(rest));
      UnknownBlobField(d, i, first, m);
      BlobIgnoresUnknown(d, i + |EncodeField(first)|, rest, m);
  }

  lemma {:induction false} TxIgnoresUnknown(d: Bytes, i: nat, fs: Fields, m: BlobTx)
    requires |d| < INT64_LIMIT && AllWellFormed(fs) && AllAbove(fs, 3) && At(d, i, EncodeFields(fs))
    ensures TxFrom(d, i, m) == TxFrom(d, i + |EncodeFields(fs)|, m)
    decreases fs
  {
    hide SkipField, EncodeField, WellFormed, At, KeyAt;
    AtInside(d, i, EncodeFields(fs));
    match fs
    case NoFields =>
    case MoreFields(first, rest) =>
      AtSplit(d, i, EncodeField(first), EncodeFields(rest));
      FieldKey(d, i, first);
      SkipFieldIsExact(d, i, first);
      TxIgnoresUnknown(d, i + |EncodeField(first)|, rest, m);
  }

  // ----- what is read from bytes does not depend on where they stand -----

  lemma {:induction false} VarintEmbedded(s: Bytes, k: nat, room: nat, d: Bytes, i: nat)
    requires At(d, i, s) && VarintAt(s, k, room).Ok?
    ensures var (v, j) := VarintAt(s, k, room).value;
            VarintAt(d, i + k, room) == Ok((v, i + j))
    decreases room
  {
    assert d[i + k] == d[i..i + |s|][k] == s[k];
    if s[k] >= 128 {
      VarintEmbedded(s, k + 1, room - 1, d, i);
    }
  }

  lemma KeyEmbedded(s: Bytes, k: nat, d: Bytes, i: nat)
    requires At(d, i, s) && KeyAt(s, k).Ok?
    ensures var (n, w, j) := KeyAt(s, k).value;
            KeyAt(d, i + k) == Ok((n, w, i + j))
  {
    hide VarintAt, Int32, At;
    VarintEmbedded(s, k, MAX_VARINT_LEN, d, i);
  }

  lemma BytesEmbedded(s: Bytes, k: nat, d: Bytes, i: nat)
    requires |d| < INT64_LIMIT && |s| <= |d| && At(d, i, s) && BytesAt(s, k).Ok?
    ensures var (b, j) := BytesAt(s, k).value;
            BytesAt(d, i + k) == Ok((b, i + j))
  {
    hide VarintAt;
    VarintEmbedded(s, k, MAX_VARINT_LEN, d, i);
    var (b, j) := BytesAt(s, k).value;
    var start := VarintAt(s, k, MAX_VARINT_LEN).value.1;
    assert d[i..i + |s|][start..j] == d[i + start..i + j];
  }

  lemma SkipOneEmbedded(s: Bytes, k: nat, depth: nat, d: Bytes, i: nat)
    requires |d| < INT64_LIMIT && |s| <= |d| && At(d, i, s) && k < |s|
    requires SkipOne(s, k, depth).Ok? && SkipOne(s, k, depth).value.0 <= |s|
    ensures i + k < |d|
    ensures var (j, open) := SkipOne(s, k, depth).value;
            SkipOne(d, i + k, depth) == Ok((i + j, open))
  {
    hide VarintAt, Int64;
    VarintEmbedded(s, k, MAX_VARINT_LEN, d, i);
    var j := VarintAt(s, k, MAX_VARINT_LEN).value.1;
    if VarintAt(s, j, MAX_VARINT_LEN).Ok? {
      VarintEmbedded(s, j, MAX_VARINT_LEN, d, i);
    }
  }

  lemma {:induction false} SkipFromEmbedded(s: Bytes, k: nat, depth: nat, d: Bytes, i: nat)
    requires |d| < INT64_LIMIT && |s| <= |d| && At(d, i, s)
    requires SkipFrom(s, k, depth).Ok? && SkipFrom(s, k, depth).value <= |s|
    ensures SkipFrom(d, i + k, depth) == Ok(i + SkipFrom(s, k, depth).value)
    decreases |s| - k
  {
    hide SkipOne, At;
    AtInside(d, i, s);
    SkipOneEmbedded(s, k, depth, d, i);
    var (j, open) := SkipOne(s, k, depth).value;
    if open > 0 {
      SkipFromEmbedded(s, j, open, d, i);
    }
  }

  lemma SkipFieldEmbedded(s: Bytes, k: nat, d: Bytes, i: nat)
    requires |d| < INT64_LIMIT && |s| <= |d| && At(d, i, s) && k < |s| && SkipField(s, k).Ok?
    ensures i + k < |d| && SkipField(d, i + k) == Ok(i + SkipField(s, k).value)
  {
    hide SkipFrom;
    assert d[i..i + |s|][k..] == d[i + k..][..|s| - k];
    assert At(d[i + k..], 0, s[k..]);
    SkipFromEmbedded(s[k..], 0, 0, d[i + k..], 0);
  }

  lemma BlobFieldEmbedded(s: Bytes, k: nat, m: Blob, d: Bytes, i: nat)
    requires |d| < INT64_LIMIT && |s| <= |d| && At(d, i, s) && k < |s| && BlobField(s, k, m).Ok?
    ensures i + k < |d|
    ensures var (next, j) := BlobField(s, k, m).value;
            BlobField(d, i + k, m) == Ok((next, i + j))
  {
    hide KeyAt, BytesAt, VarintAt, SkipField, At;
    AtInside(d, i, s);
    KeyEmbedded(s, k, d, i);
    var (n, w, j) := KeyAt(s, k).value;
    if BytesAt(s, j).Ok? {
      BytesEmbedded(s, j, d, i);
    }
    if VarintAt(s, j, MAX_VARINT_LEN).Ok? {
      VarintEmbedded(s, j, MAX_VARINT_LEN, d, i);
    }
    if SkipField(s, k).Ok? {
      SkipFieldEmbedded(s, k, d, i);
    }
  }

  lemma TxFieldEmbedded(s: Bytes, k: nat, m: BlobTx, d: Bytes, i: nat)
    requires |d| < INT64_LIMIT && |s| <= |d| && At(d, i, s) && k < |s| && TxField(s, k, m).Ok?
    ensures i + k < |d|
    ensures var (next, j) := TxField(s, k, m).value;
            TxField(d, i + k, m) == Ok((next, i + j))
  {
    hide KeyAt, BytesAt, SkipField, BlobFrom, At;
    AtInside(d, i, s);
    KeyEmbedded(s, k, d, i);
    var (n, w, j) := KeyAt(s, k).value;
    if BytesAt(s, j).Ok? {
      BytesEmbedded(s, j, d, i);
    }
    if SkipField(s, k).Ok? {
      SkipFieldEmbedded(s, k, d, i);
    }
  }

  /** Bytes that are a message on their own mean the same in front of and behind other fields. */
  lemma {:induction false} TxEmbedded(s: Bytes, k: nat, m: BlobTx, d: Bytes, i: nat)
    requires |d| < INT64_LIMIT && |s| <= |d| && At(d, i, s) && k <= |s| && TxFrom(s, k, m).Ok?
    ensures i + |s| <= |d| && TxFrom(d, i + k, m) == TxFrom(d, i + |s|, TxFrom(s, k, m).value)
    decreases |s| - k
  {
    hide TxField, At;
    AtInside(d, i, s);
    if k < |s| {
      TxFieldEmbedded(s, k, m, d, i);
      var (next, j) := TxField(s, k, m).value;
      TxEmbedded(s, j, next, d, i);
    }
  }

  lemma {:induction false} BlobEmbedded(s: Bytes, k: nat, m: Blob, d: Bytes, i: nat)
    requires |d| < INT64_LIMIT && |s| <= |d| && At(d, i, s) && k <= |s| && BlobFrom(s, k, m).Ok?
    ensures i + |s| <= |d| && BlobFrom(d, i + k, m) == BlobFrom(d, i + |s|, BlobFrom(s, k, m).value)
    decreases |s| - k
  {
    hide BlobField, At;
    AtInside(d, i, s);
    if k < |s| {
      BlobFieldEmbedded(s, k, m, d, i);
      var (next, j) := BlobField(s, k, m).value;
      BlobEmbedded(s, j, next, d, i);
    }
  }

  /** Concatenated encodings are merged: the second goes on where the first one ended. */
  lemma ConcatenationMerges(a: Bytes, b: Bytes, m: BlobTx)
    requires |a + b| < INT64_LIMIT && TxFrom(a, 0, m).Ok? && TxFrom(b, 0, TxFrom(a, 0, m).value).Ok?
    ensures TxFrom(a + b, 0, m) == TxFrom(b, 0, TxFrom(a, 0, m).value)
  {
    hide TxFrom;
    var t := TxFrom(a, 0, m).value;
    assert At(a + b, 0, a) && At(a + b, |a|, b);
    TxEmbedded(a, 0, m, a + b, 0);
    TxEmbedded(b, 0, t, a + b, |a|);
    NothingLeft(a + b, TxFrom(b, 0, t).value);
  }

  lemma NothingLeft(d: Bytes, t: BlobTx)
    requires |d| < INT64_LIMIT
    ensures TxFrom(d, |d|, t) == Ok(t)
  {
  }

  /** Unknown fields in front of, between or behind encodings are ignored. */
  lemma UnknownFieldsIgnored(a: Bytes, fs: Fields, b: Bytes, m: BlobTx)
    requires |a + EncodeFields(fs) + b| < INT64_LIMIT && AllWellFormed(fs) && AllAbove(fs, 3)
    requires TxFrom(a, 0, m).Ok? && TxFrom(b, 0, TxFrom(a, 0, m).value).Ok?
    ensures TxFrom(a + EncodeFields(fs) + b, 0, m) == TxFrom(b, 0, TxFrom(a, 0, m).value)
  {
    hide TxFrom, EncodeFields, AllAbove, AllWellFormed;
    var f, t := EncodeFields(fs), TxFrom(a, 0, m).value;
    var d := a + f + b;
    assert d[0..|a|] == a && d[|a|..|a| + |f|] == f && d[|a| + |f|..] == b;
    assert At(d, 0, a) && At(d, |a|, f) && At(d, |a| + |f|, b);
    TxEmbedded(a, 0, m, d, 0);
    TxIgnoresUnknown(d, |a|, fs, t);
    TxEmbedded(b, 0, t, d, |a| + |f|);
    NothingLeft(d, TxFrom(b, 0, t).value);
  }

  /** A blob transaction with unknown fields at its end is read as without them. */
  lemma UnknownFieldsAtEnd(d: Bytes, fs: Fields)
    requires |d + EncodeFields(fs)| < INT64_LIMIT && AllWellFormed(fs) && AllAbove(fs, 3)
    requires TxFrom(d, 0, EMPTY_TX).Ok?
    ensures TxFrom(d + EncodeFields(fs), 0, EMPTY_TX) == TxFrom(d, 0, EMPTY_TX)
    ensures AsBlobTx(d + EncodeFields(fs)) == AsBlobTx(d)
  {
    hide TxFrom, EncodeFields, AllAbove, AllWellFormed;
    NothingLeft([], TxFrom(d, 0, EMPTY_TX).value);
    UnknownFieldsIgnored(d, fs, [], EMPTY_TX);
    assert d + EncodeFields(fs) + [] == d + EncodeFields(fs);
  }

  /** The encodings of this package are fields with the numbers and wire types of the message definitions;
      fields with default values are left out. */
  function BytesFields(number: nat, b: Bytes, rest: Fields): (r: Fields)
  {
    if b == [] then rest else MoreFields(Chunk(number, b), rest)
  }

  function UintFields(number: nat, v: nat, rest: Fields): (r: Fields)
  {
    if v == 0 then rest else MoreFields(Number(number, v), rest)
  }

  function FieldsOfBlob(b: Blob): (fs: Fields)
  {
    BytesFields(1, b.namespaceId, BytesFields(2, b.data,
      UintFields(3, b.shareVersion, UintFields(4, b.namespaceVersion, NoFields))))
  }

  function FieldsOfBlobs(blobs: seq<Blob>, rest: Fields): (fs: Fields)
  {
    if blobs == [] then rest
    else MoreFields(Chunk(2, EncodeFields(FieldsOfBlob(blobs[0]))), FieldsOfBlobs(blobs[1..], rest))
  }

  function FieldsOfBlobTx(t: BlobTx): (fs: Fields)
  {
    BytesFields(1, t.tx, FieldsOfBlobs(t.blobs, BytesFields(3, t.typeId, NoFields)))
  }

  lemma SmallKeys()
    ensures Key(1, 2) == [0x0a] && Key(2, 2) == [0x12] && Key(3, 2) == [0x1a] && Key(3, 0) == [0x18] && Key(4, 0) == [0x20]
  {
  }

  lemma BytesFieldIs(number: nat, tag: byte, b: Bytes, rest: Fields)
    requires Key(number, 2) == [tag]
    ensures EncodeFields(BytesFields(number, b, rest)) == BytesField(tag, b) + EncodeFields(rest)
  {
    hide Key, Delimited;
  }

  lemma UintFieldIs(number: nat, tag: byte, v: nat, rest: Fields)
    requires Key(number, 0) == [tag]
    ensures EncodeFields(UintFields(number, v, rest)) == UintField(tag, v) + EncodeFields(rest)
  {
    hide Key, PutUvarint;
  }

  lemma BlobEncodingIsFields(b: Blob)
    ensures EncodeBlob(b) == EncodeFields(FieldsOfBlob(b))
  {
    hide Key, Delimited, PutUvarint, BytesField, UintField, BytesFields, UintFields;
    SmallKeys();
    var f4 := UintFields(4, b.namespaceVersion, NoFields);
    var f3 := UintFields(3, b.shareVersion, f4);
    var f2 := BytesFields(2, b.data, f3);
    UintFieldIs(4, 0x20, b.namespaceVersion, NoFields);
    UintFieldIs(3, 0x18, b.shareVersion, f4);
    BytesFieldIs(2, 0x12, b.data, f3);
    BytesFieldIs(1, 0x0a, b.namespaceId, f2);
    assert EncodeFields(NoFields) == [];
    EncodeBlobAssoc(b);
    assert UintField(0x20, b.namespaceVersion) + [] == UintField(0x20, b.namespaceVersion);
  }

  lemma {:induction false} BlobsEncodingIsFields(blobs: seq<Blob>, rest: Fields)
    ensures EncodeFields(FieldsOfBlobs(blobs, rest)) == EncodeBlobs(blobs) + EncodeFields(rest)
    decreases |blobs|
  {
    hide Key, Delimited, FieldsOfBlob, EncodeBlob;
    SmallKeys();
    if blobs == [] {
      assert [] + EncodeFields(rest) == EncodeFields(rest);
    } else {
      BlobEncodingIsFields(blobs[0]);
      BlobsEncodingIsFields(blobs[1..], rest);
    }
  }

  lemma BlobTxEncodingIsFields(t: BlobTx)
    ensures EncodeBlobTx(t) == EncodeFields(FieldsOfBlobTx(t))
  {
    hide Key, Delimited, BytesField, BytesFields, FieldsOfBlobs, EncodeBlobs;
    SmallKeys();
    var f3 := BytesFields(3, t.typeId, NoFields);
    BytesFieldIs(3, 0x1a, t.typeId, NoFields);
    BlobsEncodingIsFields(t.blobs, f3);
    BytesFieldIs(1, 0x0a, t.tx, FieldsOfBlobs(t.blobs, f3));
    assert EncodeFields(NoFields) == [] && BytesField(0x1a, t.typeId) + [] == BytesField(0x1a, t.typeId);
    TxSizes(t);
  }

  // ----- fields that are refused -----

  lemma KeyRead(d: Bytes, i: nat, n: nat, w: nat)
    requires At(d, i, Key(n, w)) && n < NUMBER_LIMIT && w < 8
    ensures i < |d|
    ensures KeyAt(d, i)
         == if w == 4 then Err(UnexpectedEndOfGroup) else if n == 0 then Err(IllegalTag) else Ok((n, w, i + |Key(n, w)|))
  {
    hide VarintAt, Key, At, Int32;
    KeyVarint(d, i, n, w);
    WireTypeOf(n, w);
    Int32OfSmall(n);
  }

  /** A known field with another wire type is refused. */
  lemma WrongWireTypeRefused(d: Bytes, i: nat, n: nat, w: nat, m: Blob, t: BlobTx)
    requires |d| < INT64_LIMIT && At(d, i, Key(n, w)) && 1 <= n <= 4 && w < 8 && w != 4
    ensures i < |d|
    ensures w != (if n <= 2 then 2 else 0) ==> BlobFrom(d, i, m) == Err(WrongWireType)
    ensures n <= 3 && w != 2 ==> TxFrom(d, i, t) == Err(WrongWireType)
  {
    hide KeyAt, Key, At, BytesAt, SkipField;
    KeyRead(d, i, n, w);
  }

  /** A key whose number is 0, or that ends a group that was never started, is refused. */
  lemma BadKeyRefused(d: Bytes, i: nat, n: nat, w: nat, m: Blob, t: BlobTx)
    requires |d| < INT64_LIMIT && At(d, i, Key(n, w)) && n < NUMBER_LIMIT && w < 8 && (n == 0 || w == 4)
    ensures i < |d|
    ensures var e := if w == 4 then UnexpectedEndOfGroup else IllegalTag;
            BlobFrom(d, i, m) == Err(e) && TxFrom(d, i, t) == Err(e)
  {
    hide KeyAt, Key, At, BytesAt, SkipField;
    KeyRead(d, i, n, w);
  }
}
