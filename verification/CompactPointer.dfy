/** Reading from the middle of a sequence of compact shares: what the pointer in a share is good for
    (RawDataUsingReserved in pkg/shares/shares.go, extractRawData in pkg/shares/parse_compact_shares.go). */
module CompactPointer {
  import opened ByteSeqs
  import opened CompactParser
  import opened CompactSplitter
  import opened CompactStream
  import opened Counter
  import opened Namespaces
  import opened Results
  import opened ShareFormat
  import opened Varint

  /** A pointer that is not 0 names the first unit to start in the share, and parsing starts with it. */
  lemma ParseFromPointer(ns: Bytes, units: seq<Bytes>, k: nat) returns (j: nat)
    requires IsCompactNamespace(ns) && Sized(units) && k < SharesFor(|Stream(units)|)
    requires Reserved(Starts(units), k) != 0
    ensures j < |units| && Offset(k) <= Starts(units)[j] < Offset(k + 1)
    ensures j > 0 ==> Starts(units)[j - 1] < Offset(k)
    ensures Reserved(Starts(units), k) == HeaderSize(true, k == 0) + Starts(units)[j] - Offset(k)
    ensures Parse(CompactShares(ns, units)[k..]) == Ok(Complete(units[j..]))
  {
    hide Parse, CompactShares, Complete, Offset, SharesFor, Stream;
    j := FirstInWindow(units, k);
    ParseFromShare(ns, units, k, j);
  }

  lemma FirstInWindow(units: seq<Bytes>, k: nat) returns (j: nat)
    requires Reserved(Starts(units), k) != 0
    ensures j < |units| && Offset(k) <= Starts(units)[j] < Offset(k + 1)
    ensures j > 0 ==> Starts(units)[j - 1] < Offset(k)
  {
    var starts, s := Starts(units), FirstIn(Starts(units), Offset(k), Offset(k + 1));
    hide Starts, Offset, FirstIn;
    j :| 0 <= j < |starts| && starts[j] == s;
    if j > 0 && starts[j - 1] >= Offset(k) {
      StartsIncreasing(units);
      FirstInIsFirst(starts, Offset(k), Offset(k + 1), starts[j - 1]);
    }
  }

  /** From a share with pointer 0 parsing starts with the first byte of the next share, whatever it is. */
  lemma ParseFromZero(ns: Bytes, units: seq<Bytes>, k: nat)
    requires IsCompactNamespace(ns) && k < SharesFor(|Stream(units)|) && Reserved(Starts(units), k) == 0
    ensures Offset(k + 1) <= |PaddedData(Stream(units))|
    ensures Parse(CompactShares(ns, units)[k..]) == ParseUnits(PaddedData(Stream(units))[Offset(k + 1)..])
  {
    hide RawDataUsingReserved, RawData, Offset, ShareAt, ExtractRest, Reserved, SharesOf, ParseUnits, PaddedData, Stream,
         Starts, SharesFor, Version;
    var data, starts, n := PaddedData(Stream(units)), Starts(units), SharesFor(|Stream(units)|);
    OffsetMonotone(k, n);
    var shares := CompactShares(ns, units);
    ShareFields(ns, data, starts, |Stream(units)| % U32_LIMIT, k);
    RestOfShares(ns, data, starts, |Stream(units)| % U32_LIMIT, n, k + 1);
    SharesTail(ns, data, starts, |Stream(units)| % U32_LIMIT, n, k);
    assert shares[k..][1..] == shares[k + 1..];
    VersionsAreZero(ns, data, starts, |Stream(units)| % U32_LIMIT, n, k);
    var rest := data[Offset(k + 1)..Offset(n)];
    assert [] + rest == rest && rest == data[Offset(k + 1)..];
  }

  /** That is the units from there on when one starts with the next share. */
  lemma ParseFromZeroAligned(ns: Bytes, units: seq<Bytes>, k: nat, j: nat)
    requires IsCompactNamespace(ns) && Sized(units) && k < SharesFor(|Stream(units)|) && Reserved(Starts(units), k) == 0
    requires j < |units| && Starts(units)[j] == Offset(k + 1)
    ensures Parse(CompactShares(ns, units)[k..]) == Ok(Complete(units[j..]))
  {
    hide Parse, ParseUnits, PaddedData, CompactShares, Offset, Reserved, Complete, SharesFor, Stream, Starts;
    ParseFromZero(ns, units, k);
    SuffixOfPadded(units, j);
    ParseStream(units[j..], Zeros(|PaddedData(Stream(units))| - |Stream(units)|));
  }

  function Repeated<T>(x: T, n: nat): (r: seq<T>)
    ensures |r| == n
    ensures forall i :: 0 <= i < n ==> r[i] == x
  {
    seq(n, _ => x)
  }

  lemma {:induction false} StreamOfOnes(n: nat)
    ensures Stream(Repeated<Bytes>([1], n)) == Repeated<byte>(1, 2 * n)
  {
    if n > 0 {
      var init := Repeated<Bytes>([1], n - 1);
      assert Repeated<Bytes>([1], n) == init + [[1]];
      StreamSnoc(init, [1]);
      StreamOfOnes(n - 1);
      assert Delimited([1]) == [1, 1];
      assert Repeated<byte>(1, 2 * n) == Repeated<byte>(1, 2 * (n - 1)) + [1, 1];
    }
  }

  // ----- when parsing from pointer 0 is right -----

  /** How many of the increasing offsets lie before `limit`. */
  function StartsBefore(starts: seq<nat>, limit: nat): (n: nat)
    ensures n <= |starts|
  {
    if starts == [] then 0
    else if starts[|starts| - 1] < limit then |starts|
    else StartsBefore(starts[..|starts| - 1], limit)
  }

  lemma {:induction false} StartsBeforeSplits(starts: seq<nat>, limit: nat)
    requires Increasing(starts)
    ensures forall i :: 0 <= i < |starts| ==> (starts[i] < limit <==> i < StartsBefore(starts, limit))
  {
    if starts != [] && starts[|starts| - 1] >= limit {
      StartsBeforeSplits(starts[..|starts| - 1], limit);
    }
  }

  /** The first unit that starts behind the k-th share. */
  function NextUnit(units: seq<Bytes>, k: nat): (j: nat)
    ensures j <= |units|
  {
    StartsBefore(Starts(units), Offset(k + 1))
  }

  /** The units in front of it end in time: no unit reaches beyond the k-th share from before. */
  predicate NothingCrosses(units: seq<Bytes>, k: nat) {
    |Stream(units[..NextUnit(units, k)])| <= Offset(k + 1)
  }

  /** Parsing from the k-th share gives exactly the units behind it. */
  predicate ParsesSuffix(ns: Bytes, units: seq<Bytes>, k: nat)
    requires |ns| == NAMESPACE_SIZE
  {
    k <= |CompactShares(ns, units)| && Parse(CompactShares(ns, units)[k..]) == Ok(units[NextUnit(units, k)..])
  }

  /** Where shares and units are depends only on the lengths of the units. */
  lemma SamePlaces(units: seq<Bytes>, other: seq<Bytes>, k: nat)
    requires Lengths(other) == Lengths(units)
    ensures |Stream(other)| == |Stream(units)| && Starts(other) == Starts(units)
    ensures NextUnit(other, k) == NextUnit(units, k) && NothingCrosses(other, k) == NothingCrosses(units, k)
  {
    SameStarts(units, other);
    SamePrefix(units, other, NextUnit(units, k));
    hide Stream, Starts, StartsBefore, Offset;
  }

  lemma SamePrefix(units: seq<Bytes>, other: seq<Bytes>, n: nat)
    requires Lengths(other) == Lengths(units) && n <= |units|
    ensures |other| == |units| && |Stream(other[..n])| == |Stream(units[..n])|
    ensures |Stream(other)| == |Stream(units)|
  {
    hide Stream, StreamLen;
    assert |Lengths(other)| == |Lengths(units)|;
    assert Lengths(other[..n]) == Lengths(other)[..n] == Lengths(units)[..n] == Lengths(units[..n]);
    StreamLenOfUnits(units[..n]);
    StreamLenOfUnits(other[..n]);
    StreamLenOfUnits(units);
    StreamLenOfUnits(other);
  }

  lemma SameStarts(units: seq<Bytes>, other: seq<Bytes>)
    requires Lengths(other) == Lengths(units)
    ensures Starts(other) == Starts(units)
  {
    hide Stream, Starts;
    assert |Lengths(other)| == |Lengths(units)|;
    forall i | 0 <= i < |units| ensures Starts(other)[i] == Starts(units)[i] {
      StartOf(units, i);
      StartOf(other, i);
      SamePrefix(units, other, i);
    }
  }

  /** When no unit crosses the end of the share, whatever the units hold is read back. */
  lemma NothingCrossesParses(ns: Bytes, units: seq<Bytes>, k: nat)
    requires IsCompactNamespace(ns) && Units(units) && k < SharesFor(|Stream(units)|) && Reserved(Starts(units), k) == 0
    requires NothingCrosses(units, k)
    ensures ParsesSuffix(ns, units, k)
  {
    var j := NextUnit(units, k);
    StartsIncreasing(units);
    StartsBeforeSplits(Starts(units), Offset(k + 1));
    hide Parse, ParseUnits, PaddedData, CompactShares, Offset, Reserved, Complete, SharesFor, Stream, Starts, StartsBefore;
    if j < |units| {
      StartOf(units, j);
      ParseFromZeroAligned(ns, units, k, j);
      CompleteAll(units[j..]);
    } else {
      assert units[..j] == units && units[j..] == [];
      ParseFromZero(ns, units, k);
      OnlyPadding(Stream(units), Offset(k + 1));
    }
  }

  lemma OnlyPadding(data: Bytes, at: nat)
    requires |data| <= at <= |PaddedData(data)|
    ensures ParseUnits(PaddedData(data)[at..]) == Ok([])
  {
    hide SharesFor, Offset, ParseUnits;
    ParseStops(PaddedData(data)[at..]);
  }

  /** The same units, but with unit i filled with the byte x. */
  function Filled(units: seq<Bytes>, i: nat, x: byte): (r: seq<Bytes>)
    requires i < |units|
  {
    units[i := Repeated<byte>(x, |units[i]|)]
  }

  lemma FilledSame(units: seq<Bytes>, i: nat, x: byte)
    requires i < |units| && Units(units)
    ensures |Filled(units, i, x)| == |units| && Units(Filled(units, i, x)) && Lengths(Filled(units, i, x)) == Lengths(units)
    ensures Filled(units, i, x)[i] == Repeated<byte>(x, |units[i]|)
  {
    assert Lengths(Filled(units, i, x)) == Lengths(units);
  }

  /** The unit that crosses the end of a share with pointer 0 starts before that share, and so its
      delimiter does not reach to the next one. */
  lemma CrossingUnit(units: seq<Bytes>, k: nat)
    requires Units(units) && k < SharesFor(|Stream(units)|) && Reserved(Starts(units), k) == 0
    requires !NothingCrosses(units, k)
    ensures var i := NextUnit(units, k) - 1;
            && 0 <= i < |units| && Starts(units)[i] + DelimLen(|units[i]|) <= Offset(k + 1)
            && Offset(k + 1) < Starts(units)[i] + DelimLen(|units[i]|) + |units[i]| <= |Stream(units)|
  {
    var j := NextUnit(units, k);
    StartsIncreasing(units);
    StartsBeforeSplits(Starts(units), Offset(k + 1));
    ReservedZero(units, k);
    hide Offset, Reserved, SharesFor, Starts, Stream, StartsBefore, DelimLen;
    if j == 0 {
      NothingBefore(units);
    } else {
      StartOf(units, j - 1);
      assert Starts(units)[j - 1] < Offset(k + 1);
      DelimiterIsShort(|units[j - 1]|);
      WideShares(k);
    }
  }

  lemma NothingBefore(units: seq<Bytes>)
    ensures |Stream(units[..0])| == 0
  {
  }

  lemma WideShares(k: nat)
    ensures Offset(k) + MAX_VARINT_LEN <= Offset(k + 1)
  {
  }

  lemma DelimiterIsShort(size: nat)
    requires size < U64_LIMIT
    ensures DelimLen(size) <= MAX_VARINT_LEN
  {
    RoomLimitIsU64();
    ReadPut(size, [], MAX_VARINT_LEN);
    assert PutUvarint(size) + [] == PutUvarint(size);
  }

  /** What stands at the end of the share is then a byte of the unit's data. */
  lemma CrossingByte(units: seq<Bytes>, i: nat, x: nat)
    requires i < |units| && Starts(units)[i] + DelimLen(|units[i]|) <= x
    requires x < Starts(units)[i] + DelimLen(|units[i]|) + |units[i]|
    ensures x < |Stream(units)| <= |PaddedData(Stream(units))|
    ensures PaddedData(Stream(units))[x] == units[i][x - Starts(units)[i] - DelimLen(|units[i]|)]
  {
    hide Stream, Starts, Offset, SharesFor, PutUvarint;
    StreamAt(units, i, x - Starts(units)[i]);
  }

  /** A length of 1 with data behind it is read as a unit. */
  lemma OneIsRead(raw: Bytes)
    requires |raw| >= 2 && raw[0] == 1
    ensures ParseUnits(raw) != Ok([])
  {
    var l := if |raw| < MAX_VARINT_LEN then |raw| else MAX_VARINT_LEN;
    var input := raw[..l] + Zeros(MAX_VARINT_LEN - l);
    assert input[0] == 1 && ReadUvarint(input, MAX_VARINT_LEN) == Some((1, 1));
    assert ParseDelimiter(raw) == Ok((raw[1..], 1));
  }

  /** Units of the same lengths that are not read back when a unit crosses the end of the share. */
  lemma CrossingMisreads(ns: Bytes, units: seq<Bytes>, k: nat) returns (other: seq<Bytes>)
    requires IsCompactNamespace(ns) && Units(units) && k < SharesFor(|Stream(units)|) && Reserved(Starts(units), k) == 0
    requires !NothingCrosses(units, k)
    ensures Units(other) && Lengths(other) == Lengths(units) && !ParsesSuffix(ns, other, k)
  {
    hide Parse, ParseUnits, PaddedData, CompactShares, Offset, Reserved, SharesFor, Stream, Starts, NextUnit, DelimLen,
         NothingCrosses, Filled, Lengths;
    CrossingUnit(units, k);
    var j := NextUnit(units, k);
    var x: byte := if j < |units| then 0 else 1;
    other := Filled(units, j - 1, x);
    FilledSame(units, j - 1, x);
    SamePlaces(units, other, k);
    ParseFromZero(ns, other, k);
    CrossingByte(other, j - 1, Offset(k + 1));
    var raw := PaddedData(Stream(other))[Offset(k + 1)..];
    assert raw[0] == PaddedData(Stream(other))[Offset(k + 1)] == x;
    if j < |units| {
      ParseStops(raw);
      assert other[j..] != [];
    } else {
      assert other[j..] == [];
      WholeShares(Stream(other), k);
      OneIsRead(raw);
    }
  }

  /** Behind the end of a share there are whole shares of content. */
  lemma WholeShares(data: Bytes, k: nat)
    requires Offset(k + 1) < |data|
    ensures Offset(k + 1) + 2 <= |PaddedData(data)|
  {
    ShareOrder(|data|, k + 1);
    OffsetMonotone(k + 1, SharesFor(|data|));
    OffsetNext(k + 1);
  }

  /** Parsing from a share with pointer 0 gives the units behind it, for all contents of units of these
      lengths, exactly when no unit crosses the end of the share. */
  lemma ParseFromZeroExact(ns: Bytes, units: seq<Bytes>, k: nat)
    requires IsCompactNamespace(ns) && Units(units) && k < SharesFor(|Stream(units)|) && Reserved(Starts(units), k) == 0
    ensures NothingCrosses(units, k)
       <==> forall other: seq<Bytes> :: Units(other) && Lengths(other) == Lengths(units) ==> ParsesSuffix(ns, other, k)
  {
    hide ParsesSuffix, NothingCrosses, Reserved, SharesFor, Stream, Starts, NextUnit;
    if NothingCrosses(units, k) {
      forall other: seq<Bytes> | Units(other) && Lengths(other) == Lengths(units) ensures ParsesSuffix(ns, other, k) {
        SamePlaces(units, other, k);
        NothingCrossesParses(ns, other, k);
      }
    } else {
      var other := CrossingMisreads(ns, units, k);
    }
  }

  /** An input where a unit crosses the end of a share with pointer 0, so that units are read that were
      never written: the second share of one unit of 1000 ones has
      pointer 0, and parsing from it gives 25 units of a single 1. */
  lemma ParseFromZeroMisreads(ns: Bytes)
    requires IsCompactNamespace(ns)
    ensures var units := [Repeated<byte>(1, 1000)];
            && Units(units) && SharesFor(|Stream(units)|) == 3 && Reserved(Starts(units), 1) == 0
            && Parse(CompactShares(ns, units)[1..]) == Ok(Repeated<Bytes>([1], 25))
  {
    hide Parse, CompactShares, ParseUnits, PaddedData, Stream, Starts, Reserved, SharesFor, Offset, Repeated, Complete;
    var units, ones: seq<Bytes> := [Repeated<byte>(1, 1000)], Repeated<Bytes>([1], 25);
    LongUnit();
    ParseFromZero(ns, units, 1);
    LastOnes(Stream(units));
    StreamOfOnes(25);
    ParseStream(ones, Zeros(428));
    CompleteAll(ones);
  }

  lemma LongUnit()
    ensures var units := [Repeated<byte>(1, 1000)];
            && Stream(units) == [232, 7] + Repeated<byte>(1, 1000) && SharesFor(|Stream(units)|) == 3
            && Reserved(Starts(units), 1) == 0
  {
    var u: Bytes := Repeated<byte>(1, 1000);
    assert [u] == [] + [u];
    StreamSnoc([], u);
    assert PutUvarint(1000) == [232] + PutUvarint(7) == [232, 7];
    assert Starts([u]) == [0] && [0][..0] == [];
  }

  lemma LastOnes(stream: Bytes)
    requires stream == [232, 7] + Repeated<byte>(1, 1000)
    ensures Offset(2) == 952 <= |PaddedData(stream)|
    ensures PaddedData(stream)[952..] == Repeated<byte>(1, 50) + Zeros(428)
  {
    assert SharesFor(|stream|) == 3;
  }
}
