/** Base 128 varints as written and read by the length delimiters of compact shares
    (pkg/shares/utils.go, pkg/shares/split_compact_shares.go). */
module Varint {
  import opened ByteSeqs
  import opened Results

  const MAX_VARINT_LEN := 10
  const U64_LIMIT := 0x1_0000_0000_0000_0000

  /** binary.PutUvarint: seven bits per byte, low bits first, the top bit marks continuation. */
  function PutUvarint(v: nat): (r: Bytes)
    ensures |r| >= 1
  {
    if v < 128 then [v] else [v % 128 + 128] + PutUvarint(v / 128)
  }

  /** The length of the delimiter in front of a unit of `size` bytes. */
  function DelimLen(size: nat): (n: nat)
    ensures n >= 1
  {
    |PutUvarint(size)|
  }

  /** The value of base 128 digits, the least significant group first. */
  function DigitsValue(digits: Bytes): (v: nat)
    decreases |digits|
  {
    if digits == [] then 0 else digits[0] % 128 + 128 * DigitsValue(digits[1..])
  }

  /** What a varint is: at most `room` bytes, of which all but the last one have the top bit set. */
  ghost predicate IsVarint(d: Bytes, i: nat, j: nat, room: nat) {
    && i < j <= |d| && j - i <= room && d[j - 1] < 128 && forall k :: i <= k < j - 1 ==> d[k] >= 128
  }

  /** PutUvarint writes the shortest varint with the value. */
  lemma {:induction false} PutIsVarint(v: nat)
    ensures var r := PutUvarint(v);
            IsVarint(r, 0, |r|, |r|) && DigitsValue(r) == v && (|r| > 1 ==> r[|r| - 1] != 0)
    decreases v
  {
    if v >= 128 {
      var r, rest := PutUvarint(v), PutUvarint(v / 128);
      PutIsVarint(v / 128);
      assert r[1..] == rest && r[0] == v % 128 + 128;
      assert forall k :: 1 <= k < |r| ==> r[k] == rest[k - 1];
    } else {
      assert [v][1..] == [] && DigitsValue([]) == 0;
    }
  }

  lemma {:induction false} DelimLenMonotone(a: nat, b: nat)
    requires a <= b
    ensures DelimLen(a) <= DelimLen(b)
    decreases b
  {
    if a >= 128 {
      DelimLenMonotone(a / 128, b / 128);
    }
  }

  /** 128 to the power n. */
  function Pow128(n: nat): (r: nat)
    ensures r >= 1
  {
    if n == 0 then 1 else 128 * Pow128(n - 1)
  }

  lemma {:induction false} DelimLenBound(v: nat, n: nat)
    requires v < Pow128(n) && n >= 1
    ensures DelimLen(v) <= n
    decreases n
  {
    assert Pow128(1) == 128 * Pow128(0);
    if v >= 128 {
      DelimLenBound(v / 128, n - 1);
    }
  }

  /** binary.ReadUvarint from `input`, with at most `room` bytes still allowed. The result is the
      value and the number of bytes read; None stands for end of input or overflow of 64 bits. */
  function ReadUvarint(input: Bytes, room: nat): (r: Option<(nat, nat)>)
    ensures r.Some? ==> 1 <= r.value.1 <= |input| && r.value.1 <= room
    decreases room
  {
    if input == [] || room == 0 then None
    else if input[0] < 128 then
      if room == 1 && input[0] > 1 then None else Some((input[0], 1))
    else
      match ReadUvarint(input[1..], room - 1)
      case None => None
      case Some((v, n)) => Some((input[0] - 128 + 128 * v, n + 1))
  }

  /** Reading succeeds exactly on varints whose last digit does not overflow 64 bits, and gives the value of
      their digits. */
  lemma {:induction false} ReadMeaning(input: Bytes, room: nat, n: nat)
    ensures ReadUvarint(input, room).Some? && ReadUvarint(input, room).value.1 == n
       <==> IsVarint(input, 0, n, room) && (n == room ==> input[n - 1] <= 1)
    ensures ReadUvarint(input, room).Some? && ReadUvarint(input, room).value.1 == n ==>
              ReadUvarint(input, room).value.0 == DigitsValue(input[..n])
    decreases room
  {
    if room > 0 && input != [] {
      if input[0] < 128 {
        if n == 1 {
          assert input[..1] == [input[0]] && [input[0]][1..] == [] && DigitsValue([]) == 0;
        }
      } else if n > 0 {
        var rest := input[1..];
        ReadMeaning(rest, room - 1, n - 1);
        VarintTail(input, n, room);
        if n <= |input| {
          assert input[..n][1..] == rest[..n - 1];
        }
      }
    }
  }

  lemma VarintTail(input: Bytes, n: nat, room: nat)
    requires input != [] && input[0] >= 128 && n > 0 && room > 0
    ensures IsVarint(input, 0, n, room) <==> IsVarint(input[1..], 0, n - 1, room - 1)
  {
    var rest := input[1..];
    if IsVarint(rest, 0, n - 1, room - 1) {
      assert forall k :: 1 <= k < n - 1 ==> input[k] == rest[k - 1];
    }
  }

  /** The largest value, plus one, that `room` more bytes of a 64-bit varint may hold. */
  function RoomLimit(room: nat): (r: nat)
  {
    if room == 0 then 0 else if room == 1 then 2 else 128 * RoomLimit(room - 1)
  }

  /** Reading undoes writing, whatever follows. */
  lemma {:induction false} ReadPut(v: nat, rest: Bytes, room: nat)
    requires v < RoomLimit(room)
    ensures ReadUvarint(PutUvarint(v) + rest, room) == Some((v, DelimLen(v)))
    decreases room
  {
    if v < 128 {
      assert ([v] + rest)[0] == v;
    } else {
      var input := PutUvarint(v) + rest;
      assert input[0] == v % 128 + 128;
      assert input[1..] == PutUvarint(v / 128) + rest;
      ReadPut(v / 128, rest, room - 1);
    }
  }

  lemma RoomLimitIsU64()
    ensures RoomLimit(MAX_VARINT_LEN) == U64_LIMIT
  {
    assert RoomLimit(2) == 256;
    assert RoomLimit(4) == 128 * (128 * RoomLimit(2));
    assert RoomLimit(6) == 128 * (128 * RoomLimit(4));
    assert RoomLimit(8) == 128 * (128 * RoomLimit(6));
    assert RoomLimit(10) == 128 * (128 * RoomLimit(8));
  }

  /** A value read from n bytes has a delimiter of at most n bytes, also when zero bytes were added
      at the end to get that far. */
  lemma {:induction false} ReadShort(input: Bytes, zeros: nat, room: nat)
    requires input != [] && ReadUvarint(input + Zeros(zeros), room).Some?
    ensures DelimLen(ReadUvarint(input + Zeros(zeros), room).value.0) <= |input|
    ensures ReadUvarint(input + Zeros(zeros), room).value.0 < Pow128(|input|)
    decreases |input|
  {
    var all := input + Zeros(zeros);
    assert all[0] == input[0] && all[1..] == input[1..] + Zeros(zeros);
    if input[0] >= 128 {
      if |input| == 1 {
        assert input[1..] + Zeros(zeros) == Zeros(zeros);
        assert Pow128(1) == 128 * Pow128(0);
      } else {
        ReadShort(input[1..], zeros, room - 1);
      }
    } else {
      assert Pow128(|input|) == 128 * Pow128(|input| - 1);
    }
    DelimLenBound(ReadUvarint(all, room).value.0, |input|);
  }

  /** ParseDelimiter: the unit length at the front of the input, and what follows the delimiter. The
      number of delimiter bytes is recomputed from the value. */
  function ParseDelimiter(input: Bytes): (r: Result<(Bytes, nat)>)
    ensures r.Ok? && input != [] ==> |r.value.0| < |input|
  {
    if input == [] then Ok((input, 0))
    else
      var l := if |input| < MAX_VARINT_LEN then |input| else MAX_VARINT_LEN;
      match ReadUvarint(input[..l] + Zeros(MAX_VARINT_LEN - l), MAX_VARINT_LEN)
      case None => Err(DelimiterOverflow)
      case Some((dataLen, _)) =>
        ReadShort(input[..l], MAX_VARINT_LEN - l, MAX_VARINT_LEN);
        Ok((input[DelimLen(dataLen)..], dataLen))
  }

  /** MarshalDelimitedTx: a unit behind its length. */
  function Delimited(unit: Bytes): (r: Bytes)
    ensures |r| == DelimLen(|unit|) + |unit|
  {
    PutUvarint(|unit|) + unit
  }

  /** ParseDelimiter undoes a delimiter, whatever follows it. */
  lemma ParseDelimiterOf(size: nat, rest: Bytes)
    requires size < U64_LIMIT
    ensures ParseDelimiter(PutUvarint(size) + rest) == Ok((rest, size))
  {
    var delim, input := PutUvarint(size), PutUvarint(size) + rest;
    var l := if |input| < MAX_VARINT_LEN then |input| else MAX_VARINT_LEN;
    hide PutUvarint;
    RoomLimitIsU64();
    ReadPut(size, [], MAX_VARINT_LEN);
    assert delim + [] == delim;
    assert |delim| <= MAX_VARINT_LEN;
    var tail := rest[..l - |delim|] + Zeros(MAX_VARINT_LEN - l);
    assert input[..l] + Zeros(MAX_VARINT_LEN - l) == delim + tail;
    ReadPut(size, tail, MAX_VARINT_LEN);
    assert input[|delim|..] == rest;
  }

  /** In particular that of a unit, whatever follows the unit. */
  lemma ParseDelimited(unit: Bytes, rest: Bytes)
    requires |unit| < U64_LIMIT
    ensures ParseDelimiter(Delimited(unit) + rest) == Ok((unit + rest, |unit|))
  {
    hide PutUvarint, ParseDelimiter;
    assert Delimited(unit) + rest == PutUvarint(|unit|) + (unit + rest);
    ParseDelimiterOf(|unit|, unit + rest);
  }
}
