/** Parsing blobs and blob transactions from arbitrary bytes (pkg/blob/blob.pb.go, pkg/blob/blob.go).
    Go's 64-bit integers wrap around; `Int64` and `Int32` reinterpret the low bits as signed. */
module BlobUnmarshal {
  import opened Blobs
  import opened BlobWire
  import opened ByteSeqs
  import opened Namespaces
  import opened Results
  import opened Varint

  function Int64(x: nat): (r: int)
    ensures -INT64_LIMIT <= r < INT64_LIMIT && (x - r) % U64_LIMIT == 0
  {
    var low := x % U64_LIMIT;
    if low < INT64_LIMIT then low else low - U64_LIMIT
  }

  function Int32(x: nat): (r: int)
    ensures -INT32_LIMIT <= r < INT32_LIMIT && (x - r) % U32_LIMIT == 0
  {
    var low := x % U32_LIMIT;
    if low < INT32_LIMIT then low else low - U32_LIMIT
  }

  /** The varint at `i`: its value before any truncation and the index behind it. */
  function VarintAt(d: Bytes, i: nat, room: nat): (r: Result<(nat, nat)>)
    ensures r.Ok? ==> i < r.value.1 <= |d|
    decreases room
  {
    if room == 0 then Err(IntOverflow)
    else if i >= |d| then Err(UnexpectedEOF)
    else if d[i] < 128 then Ok((d[i], i + 1))
    else
      match VarintAt(d, i + 1, room - 1)
      case Err(e) => Err(e)
      case Ok((v, j)) => Ok((d[i] - 128 + 128 * v, j))
  }

  /** Reading succeeds exactly on varints, and gives the value of their digits. */
  lemma {:induction false} VarintMeaning(d: Bytes, i: nat, room: nat, j: nat)
    ensures VarintAt(d, i, room).Ok? && VarintAt(d, i, room).value.1 == j <==> IsVarint(d, i, j, room)
    ensures IsVarint(d, i, j, room) ==> VarintAt(d, i, room).value.0 == DigitsValue(d[i..j])
    decreases room
  {
    if room > 0 && i < |d| {
      VarintMeaning(d, i + 1, room - 1, j);
      if d[i] < 128 {
        if j == i + 1 {
          assert d[i..j] == [d[i]] && [d[i]][1..] == [];
        }
      } else {
        if IsVarint(d, i, j, room) {
          assert d[i..j][1..] == d[i + 1..j];
        }
        assert IsVarint(d, i, j, room) <==> IsVarint(d, i + 1, j, room - 1);
      }
    }
  }

  /** The loop that the generated code repeats for every varint: seven bits per byte are shifted into
      place. The groups do not overlap, so or-ing them in is adding them; the bits that a shift drops
      are dropped here where the value is used, by Int64, Int32 or a remainder. */
  method ReadVarint(d: Bytes, i0: nat) returns (r: Result<(nat, nat)>)
    ensures r == VarintAt(d, i0, MAX_VARINT_LEN)
  {
    hide VarintAt, Shifted;
    var i: nat, value: nat, unit: nat, shift: nat := i0, 0, 1, 0;
    NothingShifted(VarintAt(d, i0, MAX_VARINT_LEN));
    while true
      invariant 0 <= shift <= 70 && shift % 7 == 0 && i >= i0
      invariant VarintAt(d, i0, MAX_VARINT_LEN) == Shifted(value, unit, VarintAt(d, i, MAX_VARINT_LEN - shift / 7))
      decreases 70 - shift
    {
      VarintStep(d, i, MAX_VARINT_LEN - shift / 7, value, unit);
      if shift >= 64 {
        return Err(IntOverflow);
      }
      if i >= |d| {
        return Err(UnexpectedEOF);
      }
      var b: nat := d[i];
      i := i + 1;
      value := value + (b % 128) * unit;
      if b < 128 {
        return Ok((value, i));
      }
      unit, shift := unit * 128, shift + 7;
    }
  }

  /** A varint whose first bytes contribute `value`; the rest counts `unit` times. */
  function Shifted(value: nat, unit: nat, r: Result<(nat, nat)>): (s: Result<(nat, nat)>)
  {
    match r
    case Err(e) => Err(e)
    case Ok((v, j)) => Ok((value + unit * v, j))
  }

  lemma NothingShifted(r: Result<(nat, nat)>)
    ensures Shifted(0, 1, r) == r
  {
  }

  /** What the byte at `i` contributes. */
  lemma VarintStep(d: Bytes, i: nat, room: nat, value: nat, unit: nat)
    ensures room == 0 ==> Shifted(value, unit, VarintAt(d, i, room)) == Err(IntOverflow)
    ensures room > 0 && i >= |d| ==> Shifted(value, unit, VarintAt(d, i, room)) == Err(UnexpectedEOF)
    ensures room > 0 && i < |d| ==>
              var next := value + (d[i] % 128) * unit;
              Shifted(value, unit, VarintAt(d, i, room))
              == if d[i] < 128 then Ok((next, i + 1)) else Shifted(next, unit * 128, VarintAt(d, i + 1, room - 1))
  {
    if room > 0 && i < |d| {
      ShiftedStep(value, unit, d[i], VarintAt(d, i + 1, room - 1));
    }
  }

  lemma ShiftedStep(value: nat, unit: nat, b: byte, r: Result<(nat, nat)>)
    ensures r.Ok? && b >= 128 ==>
              Shifted(value, unit, Ok((b - 128 + 128 * r.value.0, r.value.1)))
              == Shifted(value + b % 128 * unit, unit * 128, r)
    ensures b < 128 ==> value + unit * b == value + b % 128 * unit
  {
    if r.Ok? && b >= 128 {
      var v := r.value.0;
      assert unit * (b - 128 + 128 * v) == (b - 128) * unit + unit * 128 * v;
    }
  }

  /** The length-delimited data whose length stands at `i`, and the index behind it. */
  function BytesAt(d: Bytes, i: nat): (r: Result<(Bytes, nat)>)
    requires |d| < INT64_LIMIT
    ensures r.Ok? ==> i < r.value.1 <= |d| && |r.value.0| <= |d|
  {
    match VarintAt(d, i, MAX_VARINT_LEN)
    case Err(e) => Err(e)
    case Ok((v, j)) =>
      var byteLen := Int64(v);
      if byteLen < 0 then Err(InvalidLength)
      else
        var postIndex := Int64(j + byteLen);
        if postIndex < 0 then Err(InvalidLength)
        else if postIndex > |d| then Err(UnexpectedEOF)
        else
          assert j + byteLen < U64_LIMIT;
          Ok((d[j..postIndex], postIndex))
  }

  method ReadBytes(d: Bytes, i: nat) returns (r: Result<(Bytes, nat)>)
    requires |d| < INT64_LIMIT
    ensures r == BytesAt(d, i)
  {
    hide VarintAt;
    var read := ReadVarint(d, i);
    if read.Err? {
      return Err(read.error);
    }
    var byteLen, j := Int64(read.value.0), read.value.1;
    if byteLen < 0 {
      return Err(InvalidLength);
    }
    var postIndex := Int64(j + byteLen);
    if postIndex < 0 {
      return Err(InvalidLength);
    }
    if postIndex > |d| {
      return Err(UnexpectedEOF);
    }
    return Ok((d[j..postIndex], postIndex));
  }

  /** Adding to an index in 64-bit arithmetic; a negative result is an error. */
  function Advance(i: nat, step: nat): (r: Result<nat>)
    requires i < INT64_LIMIT && step < INT64_LIMIT
    ensures r.Ok? ==> r.value == i + step < INT64_LIMIT
    ensures r.Err? <==> i + step >= INT64_LIMIT
  {
    if Int64(i + step) < 0 then Err(InvalidLength) else Ok(Int64(i + step))
  }

  /** One element of skipBlob: the index behind it and the group depth. Fixed-size fields and lengths
      are added without looking at the end of the buffer, so the index may lie behind it. */
  function SkipOne(s: Bytes, i: nat, depth: nat): (r: Result<(nat, nat)>)
    requires i < |s| < INT64_LIMIT
    ensures r.Ok? ==> i < r.value.0 < INT64_LIMIT
  {
    match VarintAt(s, i, MAX_VARINT_LEN)
    case Err(e) => Err(e)
    case Ok((wire, j)) =>
      match wire % 8
      case 0 =>
        (match VarintAt(s, j, MAX_VARINT_LEN) case Err(e) => Err(e) case Ok((_, k)) => Ok((k, depth)))
      case 1 =>
        (match Advance(j, 8) case Err(e) => Err(e) case Ok(k) => Ok((k, depth)))
      case 2 =>
        (match VarintAt(s, j, MAX_VARINT_LEN)
         case Err(e) => Err(e)
         case Ok((v, k)) =>
           if Int64(v) < 0 then Err(InvalidLength)
           else match Advance(k, Int64(v)) case Err(e) => Err(e) case Ok(k') => Ok((k', depth)))
      case 3 => Ok((j, depth + 1))
      case 4 => if depth == 0 then Err(UnexpectedEndOfGroup) else Ok((j, depth - 1))
      case 5 =>
        (match Advance(j, 4) case Err(e) => Err(e) case Ok(k) => Ok((k, depth)))
      case _ => Err(IllegalWireType)
  }

  /** The loop body of skipBlob. */
  method SkipElement(s: Bytes, i: nat, depth: nat) returns (r: Result<(nat, nat)>)
    requires i < |s| < INT64_LIMIT
    ensures r == SkipOne(s, i, depth)
  {
    hide VarintAt, Int64;
    var wire := ReadVarint(s, i);
    if wire.Err? {
      return Err(wire.error);
    }
    var wireType, j := wire.value.0 % 8, wire.value.1;
    if wireType == 0 {
      var value := ReadVarint(s, j);
      return match value case Err(e) => Err(e) case Ok((_, k)) => Ok((k, depth));
    } else if wireType == 1 || wireType == 5 {
      var next := Advance(j, if wireType == 1 then 8 else 4);
      return match next case Err(e) => Err(e) case Ok(k) => Ok((k, depth));
    } else if wireType == 2 {
      var length := ReadVarint(s, j);
      if length.Err? {
        return Err(length.error);
      }
      if Int64(length.value.0) < 0 {
        return Err(InvalidLength);
      }
      var next := Advance(length.value.1, Int64(length.value.0));
      return match next case Err(e) => Err(e) case Ok(k) => Ok((k, depth));
    } else if wireType == 3 {
      return Ok((j, depth + 1));
    } else if wireType == 4 {
      return if depth == 0 then Err(UnexpectedEndOfGroup) else Ok((j, depth - 1));
    }
    return Err(IllegalWireType);
  }

  function SkipFrom(s: Bytes, i: nat, depth: nat): (r: Result<nat>)
    requires |s| < INT64_LIMIT
    ensures r.Ok? ==> i < r.value < INT64_LIMIT
    decreases |s| - i
  {
    if i >= |s| then Err(UnexpectedEOF)
    else
      match SkipOne(s, i, depth)
      case Err(e) => Err(e)
      case Ok((j, d)) => if d == 0 then Ok(j) else SkipFrom(s, j, d)
  }

  /** skipBlob: how many bytes an unknown field takes up. */
  method SkipBlob(s: Bytes) returns (r: Result<nat>)
    requires |s| < INT64_LIMIT
    ensures r == SkipFrom(s, 0, 0)
  {
    hide SkipOne;
    var iNdEx, depth := 0, 0;
    while iNdEx < |s|
      invariant 0 <= iNdEx
      invariant SkipFrom(s, 0, 0) == SkipFrom(s, iNdEx, depth)
      decreases |s| - iNdEx
    {
      var next := SkipElement(s, iNdEx, depth);
      if next.Err? {
        return Err(next.error);
      }
      iNdEx, depth := next.value.0, next.value.1;
      if depth == 0 {
        return Ok(iNdEx);
      }
    }
    r := Err(UnexpectedEOF);
  }

  /** Skipping an unknown field that begins at `i`. */
  function SkipField(d: Bytes, i: nat): (r: Result<nat>)
    requires i < |d| < INT64_LIMIT
    ensures r.Ok? ==> i < r.value <= |d|
  {
    match SkipFrom(d[i..], 0, 0)
    case Err(e) => Err(e)
    case Ok(skippy) =>
      match Advance(i, skippy)
      case Err(e) => Err(e)
      case Ok(j) => if j > |d| then Err(UnexpectedEOF) else Ok(j)
  }

  method SkipUnknown(d: Bytes, i: nat) returns (r: Result<nat>)
    requires i < |d| < INT64_LIMIT
    ensures r == SkipField(d, i)
  {
    hide SkipFrom;
    var skippy := SkipBlob(d[i..]);
    if skippy.Err? {
      return Err(skippy.error);
    }
    var next := Advance(i, skippy.value);
    return match next case Err(e) => Err(e) case Ok(j) => if j > |d| then Err(UnexpectedEOF) else Ok(j);
  }

  /** A field key: number, wire type and the index behind it. */
  function KeyAt(d: Bytes, i: nat): (r: Result<(int, nat, nat)>)
    ensures r.Ok? ==> r.value.0 > 0 && i < r.value.2 <= |d|
  {
    match VarintAt(d, i, MAX_VARINT_LEN)
    case Err(e) => Err(e)
    case Ok((v, j)) =>
      var wire := v % U64_LIMIT;
      var fieldNum, wireType := Int32(wire / 8), wire % 8;
      if wireType == 4 then Err(UnexpectedEndOfGroup)
      else if fieldNum <= 0 then Err(IllegalTag)
      else Ok((fieldNum, wireType, j))
  }

  method ReadKey(d: Bytes, i: nat) returns (r: Result<(int, nat, nat)>)
    ensures r == KeyAt(d, i)
  {
    hide VarintAt, Int32;
    var read := ReadVarint(d, i);
    if read.Err? {
      return Err(read.error);
    }
    var wire := read.value.0 % U64_LIMIT;
    var fieldNum, wireType := Int32(wire / 8), wire % 8;
    if wireType == 4 {
      return Err(UnexpectedEndOfGroup);
    }
    return if fieldNum <= 0 then Err(IllegalTag) else Ok((fieldNum, wireType, read.value.1));
  }

  /** One field of a blob: the blob after it and the index behind it. Every field makes progress and
      stays inside the buffer. */
  function BlobField(d: Bytes, i: nat, m: Blob): (r: Result<(Blob, nat)>)
    requires i < |d| < INT64_LIMIT
    ensures r.Ok? ==> i < r.value.1 <= |d|
  {
    match KeyAt(d, i)
    case Err(e) => Err(e)
    case Ok((fieldNum, wireType, j)) =>
      if fieldNum == 1 || fieldNum == 2 then
        if wireType != 2 then Err(WrongWireType)
        else
          match BytesAt(d, j)
          case Err(e) => Err(e)
          case Ok((b, k)) => Ok((if fieldNum == 1 then m.(namespaceId := b) else m.(data := b), k))
      else if fieldNum == 3 || fieldNum == 4 then
        if wireType != 0 then Err(WrongWireType)
        else
          match VarintAt(d, j, MAX_VARINT_LEN)
          case Err(e) => Err(e)
          case Ok((v, k)) =>
            Ok((if fieldNum == 3 then m.(shareVersion := v % U32_LIMIT) else m.(namespaceVersion := v % U32_LIMIT), k))
      else
        match SkipField(d, i)
        case Err(e) => Err(e)
        case Ok(k) => Ok((m, k))
  }

  /** The loop body of Blob.Unmarshal. */
  method ReadBlobField(d: Bytes, i: nat, m: Blob) returns (r: Result<(Blob, nat)>)
    requires i < |d| < INT64_LIMIT
    ensures r == BlobField(d, i, m)
  {
    hide KeyAt, BytesAt, VarintAt, SkipField;
    var key := ReadKey(d, i);
    if key.Err? {
      return Err(key.error);
    }
    var (fieldNum, wireType, j) := key.value;
    if fieldNum == 1 || fieldNum == 2 {
      if wireType != 2 {
        return Err(WrongWireType);
      }
      var read := ReadBytes(d, j);
      if read.Err? {
        return Err(read.error);
      }
      var (b, k) := read.value;
      return Ok((if fieldNum == 1 then m.(namespaceId := b) else m.(data := b), k));
    } else if fieldNum == 3 || fieldNum == 4 {
      if wireType != 0 {
        return Err(WrongWireType);
      }
      var read := ReadVarint(d, j);
      if read.Err? {
        return Err(read.error);
      }
      var v, k := read.value.0 % U32_LIMIT, read.value.1;
      return Ok((if fieldNum == 3 then m.(shareVersion := v) else m.(namespaceVersion := v), k));
    }
    var skipped := SkipUnknown(d, i);
    return match skipped case Err(e) => Err(e) case Ok(k) => Ok((m, k));
  }

  function BlobFrom(d: Bytes, i: nat, m: Blob): (r: Result<Blob>)
    requires i <= |d| < INT64_LIMIT
    decreases |d| - i
  {
    if i == |d| then Ok(m)
    else
      match BlobField(d, i, m)
      case Err(e) => Err(e)
      case Ok((m', j)) => BlobFrom(d, j, m')
  }

  const EMPTY_BLOB := Blob([], [], 0, 0)

  /** Blob.Unmarshal: on every input it ends, and when it succeeds it has read exactly the whole input. */
  method UnmarshalBlob(d: Bytes) returns (r: Result<Blob>, ghost end: nat)
    requires |d| < INT64_LIMIT
    ensures r == BlobFrom(d, 0, EMPTY_BLOB)
    ensures r.Ok? ==> end == |d|
  {
    hide BlobField;
    var iNdEx, m := 0, EMPTY_BLOB;
    end := 0;
    while iNdEx < |d|
      invariant 0 <= iNdEx <= |d|
      invariant BlobFrom(d, 0, EMPTY_BLOB) == BlobFrom(d, iNdEx, m)
      decreases |d| - iNdEx
    {
      var field := ReadBlobField(d, iNdEx, m);
      if field.Err? {
        return Err(field.error), iNdEx;
      }
      m, iNdEx := field.value.0, field.value.1;
    }
    return Ok(m), iNdEx;
  }

  function TxField(d: Bytes, i: nat, m: BlobTx): (r: Result<(BlobTx, nat)>)
    requires i < |d| < INT64_LIMIT
    ensures r.Ok? ==> i < r.value.1 <= |d|
  {
    match KeyAt(d, i)
    case Err(e) => Err(e)
    case Ok((fieldNum, wireType, j)) =>
      if 1 <= fieldNum <= 3 then
        if wireType != 2 then Err(WrongWireType)
        else
          match BytesAt(d, j)
          case Err(e) => Err(e)
          case Ok((b, k)) =>
            if fieldNum == 1 then Ok((m.(tx := b), k))
            else if fieldNum == 3 then Ok((m.(typeId := b), k))
            else
              match BlobFrom(b, 0, EMPTY_BLOB)
              case Err(e) => Err(e)
              case Ok(blob) => Ok((m.(blobs := m.blobs + [blob]), k))
      else
        match SkipField(d, i)
        case Err(e) => Err(e)
        case Ok(k) => Ok((m, k))
  }

  /** The loop body of BlobTx.Unmarshal. */
  method ReadTxField(d: Bytes, i: nat, m: BlobTx) returns (r: Result<(BlobTx, nat)>)
    requires i < |d| < INT64_LIMIT
    ensures r == TxField(d, i, m)
  {
    hide KeyAt, BytesAt, SkipField, BlobFrom;
    var key := ReadKey(d, i);
    if key.Err? {
      return Err(key.error);
    }
    var (fieldNum, wireType, j) := key.value;
    if 1 <= fieldNum <= 3 {
      if wireType != 2 {
        return Err(WrongWireType);
      }
      var read := ReadBytes(d, j);
      if read.Err? {
        return Err(read.error);
      }
      var (b, k) := read.value;
      if fieldNum == 1 {
        return Ok((m.(tx := b), k));
      } else if fieldNum == 3 {
        return Ok((m.(typeId := b), k));
      }
      var blob, end := UnmarshalBlob(b);
      return match blob case Err(e) => Err(e) case Ok(blob) => Ok((m.(blobs := m.blobs + [blob]), k));
    }
    var skipped := SkipUnknown(d, i);
    return match skipped case Err(e) => Err(e) case Ok(k) => Ok((m, k));
  }

  function TxFrom(d: Bytes, i: nat, m: BlobTx): (r: Result<BlobTx>)
    requires i <= |d| < INT64_LIMIT
    decreases |d| - i
  {
    if i == |d| then Ok(m)
    else
      match TxField(d, i, m)
      case Err(e) => Err(e)
      case Ok((m', j)) => TxFrom(d, j, m')
  }

  const EMPTY_TX := BlobTx([], [], [])

  /** BlobTx.Unmarshal. */
  method Unmarshal(d: Bytes) returns (r: Result<BlobTx>, ghost end: nat)
    requires |d| < INT64_LIMIT
    ensures r == TxFrom(d, 0, EMPTY_TX)
    ensures r.Ok? ==> end == |d|
  {
    hide TxField;
    var iNdEx, m := 0, EMPTY_TX;
    end := 0;
    while iNdEx < |d|
      invariant 0 <= iNdEx <= |d|
      invariant TxFrom(d, 0, EMPTY_TX) == TxFrom(d, iNdEx, m)
      decreases |d| - iNdEx
    {
      var field := ReadTxField(d, iNdEx, m);
      if field.Err? {
        return Err(field.error), iNdEx;
      }
      m, iNdEx := field.value.0, field.value.1;
    }
    return Ok(m), iNdEx;
  }

  /** "BLOB", the type id of blob transactions. */
  const BLOB_TX_TYPE_ID: Bytes := [0x42, 0x4c, 0x4f, 0x42]

  /** UnmarshalBlobTx: the transaction, if the bytes are one with the right type id, at least one blob
      and namespace ids of the right size. */
  function AsBlobTx(d: Bytes): (r: Option<BlobTx>)
    requires |d| < INT64_LIMIT
    ensures r.Some? <==>
              && TxFrom(d, 0, EMPTY_TX).Ok?
              && var t := TxFrom(d, 0, EMPTY_TX).value;
                 && t.blobs != [] && t.typeId == BLOB_TX_TYPE_ID
                 && forall i :: 0 <= i < |t.blobs| ==> |t.blobs[i].namespaceId| == NAMESPACE_ID_SIZE
    ensures r.Some? ==> r.value == TxFrom(d, 0, EMPTY_TX).value
  {
    match TxFrom(d, 0, EMPTY_TX)
    case Err(_) => None
    case Ok(t) =>
      if t.typeId != BLOB_TX_TYPE_ID || t.blobs == [] then None
      else if exists i :: 0 <= i < |t.blobs| && |t.blobs[i].namespaceId| != NAMESPACE_ID_SIZE then None
      else Some(t)
  }

  method UnmarshalBlobTx(d: Bytes) returns (bTx: BlobTx, isBlob: bool)
    requires |d| < INT64_LIMIT
    ensures isBlob == AsBlobTx(d).Some?
    ensures isBlob ==> bTx == AsBlobTx(d).value
  {
    hide TxFrom;
    var r, end := Unmarshal(d);
    if r.Err? {
      return EMPTY_TX, false;
    }
    bTx := r.value;
    if bTx.typeId != BLOB_TX_TYPE_ID {
      return bTx, false;
    }
    if |bTx.blobs| == 0 {
      return bTx, false;
    }
    for i := 0 to |bTx.blobs|
      invariant forall j :: 0 <= j < i ==> |bTx.blobs[j].namespaceId| == NAMESPACE_ID_SIZE
    {
      if |bTx.blobs[i].namespaceId| != NAMESPACE_ID_SIZE {
        return bTx, false;
      }
    }
    return bTx, true;
  }
}
