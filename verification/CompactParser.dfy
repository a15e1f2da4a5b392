/** Reading units back from compact shares (pkg/shares/parse_compact_shares.go). */
module CompactParser {
  import opened ByteSeqs
  import opened CompactSplitter
  import opened CompactStream
  import opened Namespaces
  import opened Results
  import opened ShareFormat
  import opened Varint

  /** The complete units at the front of raw data; a zero length or a cut-off unit ends the list. */
  function ParseUnits(raw: Bytes): (r: Result<seq<Bytes>>)
    decreases |raw|
  {
    match ParseDelimiter(raw)
    case Err(e) => Err(e)
    case Ok((actualData, unitLen)) =>
      if unitLen == 0 || unitLen > |actualData| then Ok([])
      else Prepend([actualData[..unitLen]], ParseUnits(actualData[unitLen..]))
  }

  method ParseRawData(rawData0: Bytes) returns (r: Result<seq<Bytes>>)
    ensures r == ParseUnits(rawData0)
  {
    var rawData, units := rawData0, [];
    PrependNothing(ParseUnits(rawData0));
    while true
      invariant ParseUnits(rawData0) == Prepend(units, ParseUnits(rawData))
      decreases |rawData|
    {
      var d := ParseDelimiter(rawData);
      if d.Err? {
        return Err(d.error);
      }
      var (actualData, unitLen) := d.value;
      if unitLen == 0 || unitLen > |actualData| {
        assert units + [] == units;
        return Ok(units);
      }
      PrependPrepend(units, [actualData[..unitLen]], ParseUnits(actualData[unitLen..]));
      rawData := actualData[unitLen..];
      units := units + [actualData[..unitLen]];
    }
  }

  /** The content of shares one after the other. */
  function ExtractRest(shares: seq<Share>): (r: Result<Bytes>)
  {
    if shares == [] then Ok([])
    else
      match RawData(shares[0])
      case Err(e) => Err(e)
      case Ok(raw) => Prepend(raw, ExtractRest(shares[1..]))
  }

  /** The content from the first unit that starts in the first of the shares. */
  function Extract(shares: seq<Share>): (r: Result<Bytes>)
  {
    if shares == [] then Ok([])
    else
      match RawDataUsingReserved(shares[0])
      case Err(e) => Err(e)
      case Ok(raw) => Prepend(raw, ExtractRest(shares[1..]))
  }

  function Parse(shares: seq<Share>): (r: Result<seq<Bytes>>)
  {
    if shares == [] then Ok([])
    else if exists i :: 0 <= i < |shares| && Version(shares[i]) != 0 then Err(UnsupportedShareVersion)
    else
      match Extract(shares)
      case Err(e) => Err(e)
      case Ok(raw) => ParseUnits(raw)
  }

  method ExtractRawData(shares: seq<Share>) returns (r: Result<Bytes>)
    ensures r == Extract(shares)
  {
    var rawData := [];
    for i := 0 to |shares|
      invariant i == 0 ==> rawData == []
      invariant i > 0 ==> Extract(shares) == Prepend(rawData, ExtractRest(shares[i..]))
    {
      var raw := if i == 0 then RawDataUsingReserved(shares[i]) else RawData(shares[i]);
      if raw.Err? {
        return Err(raw.error);
      }
      assert shares[i..][1..] == shares[i + 1..];
      PrependPrepend(rawData, raw.value, ExtractRest(shares[i + 1..]));
      assert i == 0 ==> rawData + raw.value == raw.value;
      rawData := rawData + raw.value;
    }
    assert shares[|shares|..] == [] && rawData + [] == rawData;
    r := Ok(rawData);
  }

  method ParseCompactShares(shares: seq<Share>) returns (r: Result<seq<Bytes>>)
    ensures r == Parse(shares)
  {
    if |shares| == 0 {
      return Ok([]);
    }
    for i := 0 to |shares|
      invariant forall j :: 0 <= j < i ==> Version(shares[j]) == 0
    {
      if Version(shares[i]) != 0 {
        return Err(UnsupportedShareVersion);
      }
    }
    var rawData := ExtractRawData(shares);
    if rawData.Err? {
      return Err(rawData.error);
    }
    r := ParseRawData(rawData.value);
  }

  // ----- parsing undoes splitting -----

  lemma {:induction false} StreamCons(u: Bytes, units: seq<Bytes>)
    ensures Stream([u] + units) == Delimited(u) + Stream(units)
  {
    if units == [] {
      assert [u] + units == [] + [u];
      StreamSnoc([], u);
    } else {
      var init, last := units[..|units| - 1], units[|units| - 1];
      assert ([u] + units) == ([u] + init) + [last];
      StreamSnoc([u] + init, last);
      StreamCons(u, init);
      assert Delimited(u) + Stream(init) + Delimited(last) == Delimited(u) + (Stream(init) + Delimited(last));
    }
  }

  /** The end of the data or a zero byte ends the list of units. */
  lemma ParseStops(tail: Bytes)
    requires tail == [] || tail[0] == 0
    ensures ParseUnits(tail) == Ok([])
  {
    if tail != [] {
      var l := if |tail| < MAX_VARINT_LEN then |tail| else MAX_VARINT_LEN;
      var input := tail[..l] + Zeros(MAX_VARINT_LEN - l);
      assert input[0] == 0;
      assert ReadUvarint(input, MAX_VARINT_LEN) == Some((0, 1));
    }
  }

  /** Lengths that a delimiter can carry. */
  ghost predicate Sized(units: seq<Bytes>) {
    forall i :: 0 <= i < |units| ==> |units[i]| < U64_LIMIT
  }

  /** Units that do not read as padding. */
  ghost predicate Units(units: seq<Bytes>) {
    forall i :: 0 <= i < |units| ==> 0 < |units[i]| < U64_LIMIT
  }

  /** The units in front of the first empty one. */
  function Complete(units: seq<Bytes>): (r: seq<Bytes>)
    ensures r <= units
  {
    if units == [] || units[0] == [] then []
    else
      assert units == [units[0]] + units[1..];
      [units[0]] + Complete(units[1..])
  }

  lemma {:induction false} CompleteAll(units: seq<Bytes>)
    requires Sized(units)
    ensures Complete(units) == units <==> Units(units)
  {
    if units != [] && units[0] != [] {
      CompleteAll(units[1..]);
      assert units == [units[0]] + units[1..];
      if Complete(units) == units {
        assert Complete(units)[1..] == Complete(units[1..]);
        assert forall i :: 0 < i < |units| ==> units[i] == units[1..][i - 1];
      }
    }
  }

  /** What is read from a stream: its units up to the first empty one, whose delimiter reads as padding. */
  lemma {:induction false} ParseStream(units: seq<Bytes>, tail: Bytes)
    requires Sized(units) && (tail == [] || tail[0] == 0 || ParseUnits(tail) == Ok([]))
    ensures ParseUnits(Stream(units) + tail) == Ok(Complete(units))
    decreases |units|
  {
    if units == [] {
      assert Stream(units) + tail == tail;
      if tail == [] || tail[0] == 0 {
        ParseStops(tail);
      }
    } else {
      var u, rest := units[0], units[1..];
      assert units == [u] + rest;
      StreamCons(u, rest);
      var after := Stream(rest) + tail;
      assert Stream(units) + tail == Delimited(u) + after;
      if u == [] {
        assert (Delimited(u) + after)[0] == 0;
        ParseStops(Delimited(u) + after);
      } else {
        ParseDelimited(u, after);
        assert (u + after)[..|u|] == u && (u + after)[|u|..] == after;
        ParseStream(rest, tail);
      }
    }
  }

  /** A unit that is cut off at the end of the data is left out. */
  lemma CutUnitLeftOut(units: seq<Bytes>, u: Bytes, n: nat)
    requires Units(units) && n < |u| < U64_LIMIT
    ensures ParseUnits(Stream(units) + (PutUvarint(|u|) + u[..n])) == Ok(units)
  {
    var tail := PutUvarint(|u|) + u[..n];
    ParseCut(u, n);
    CompleteAll(units);
    ParseStream(units, tail);
  }

  lemma ParseCut(u: Bytes, n: nat)
    requires n < |u| < U64_LIMIT
    ensures ParseUnits(PutUvarint(|u|) + u[..n]) == Ok([])
  {
    hide PutUvarint, ParseDelimiter;
    ParseDelimiterOf(|u|, u[..n]);
  }

  lemma {:induction false} StreamAppend(a: seq<Bytes>, b: seq<Bytes>)
    ensures Stream(a + b) == Stream(a) + Stream(b)
    decreases |b|
  {
    if b == [] {
      assert a + b == a && Stream(a) + [] == Stream(a);
    } else {
      var init, last := b[..|b| - 1], b[|b| - 1];
      assert a + b == (a + init) + [last];
      StreamSnoc(a + init, last);
      StreamAppend(a, init);
      assert Stream(a) + Stream(init) + Delimited(last) == Stream(a) + (Stream(init) + Delimited(last));
    }
  }

  /** The j-th unit starts where the units before it end. */
  lemma {:induction false} StartOf(units: seq<Bytes>, j: nat)
    requires j < |units|
    ensures Starts(units)[j] == |Stream(units[..j])|
    ensures Starts(units)[j] + DelimLen(|units[j]|) + |units[j]| == |Stream(units[..j + 1])| <= |Stream(units)|
    decreases |units|
  {
    var n := |units| - 1;
    assert units == units[..n] + [units[n]];
    StreamSnoc(units[..n], units[n]);
    if j < n {
      StartOf(units[..n], j);
      assert units[..n][..j] == units[..j] && units[..n][..j + 1] == units[..j + 1];
    } else {
      assert units[..j + 1] == units;
    }
  }

  /** Every byte of a delimited unit is found in the stream behind the unit's start. */
  lemma StreamAt(units: seq<Bytes>, i: nat, y: nat)
    requires i < |units| && y < |Delimited(units[i])|
    ensures Starts(units)[i] + y < |Stream(units)|
    ensures Stream(units)[Starts(units)[i] + y] == Delimited(units[i])[y]
  {
    hide Starts, Stream, Delimited;
    StartOf(units, i);
    assert units[..i + 1] == units[..i] + [units[i]] && units == units[..i + 1] + units[i + 1..];
    StreamSnoc(units[..i], units[i]);
    StreamAppend(units[..i + 1], units[i + 1..]);
    Middle3(Stream(units[..i]), Delimited(units[i]), Stream(units[i + 1..]), y);
  }

  lemma Middle3(a: Bytes, b: Bytes, c: Bytes, y: nat)
    requires y < |b|
    ensures (a + b + c)[|a| + y] == b[y]
  {
  }

  lemma {:induction false} StartsIncreasing(units: seq<Bytes>)
    ensures Increasing(Starts(units))
    ensures forall s :: s in Starts(units) ==> s < |Stream(units)|
  {
    if units != [] {
      var init := units[..|units| - 1];
      StartsIncreasing(init);
      IncreasingSnoc(Starts(init), |Stream(init)|);
    }
  }

  lemma IncreasingSnoc(starts: seq<nat>, s: nat)
    requires Increasing(starts) && forall x :: x in starts ==> x < s
    ensures Increasing(starts + [s])
  {
    assert forall i :: 0 <= i < |starts| ==> starts[i] in starts;
  }

  lemma ShareFields(ns: Bytes, data: Bytes, starts: seq<nat>, sequenceLen: nat, k: nat)
    requires IsCompactNamespace(ns) && sequenceLen < U32_LIMIT && Offset(k + 1) <= |data|
    ensures var s := ShareAt(ns, data, starts, sequenceLen, k);
            && NamespaceBytes(s) == ns && Version(s) == 0 && IsSequenceStart(s) == (k == 0)
            && SequenceLen(s) == (if k == 0 then sequenceLen else 0)
            && Offset(k) <= Offset(k + 1)
            && RawData(s) == Ok(data[Offset(k)..Offset(k + 1)])
            && RawDataUsingReserved(s) == Ok(if Reserved(starts, k) == 0 then [] else s[Reserved(starts, k)..])
  {
    OffsetNext(k);
    CompactFields(ns, 0, k == 0, if k == 0 then sequenceLen else 0, Reserved(starts, k),
                  data[Offset(k)..Offset(k + 1)], ShareAt(ns, data, starts, sequenceLen, k));
  }

  lemma SharesTail(ns: Bytes, data: Bytes, starts: seq<nat>, sequenceLen: nat, n: nat, k: nat)
    requires |ns| == NAMESPACE_SIZE && sequenceLen < U32_LIMIT && k < n && Offset(n) <= |data|
    ensures Offset(k + 1) <= Offset(n)
    ensures var shares := SharesOf(ns, data, starts, sequenceLen, n);
            shares[k..] == [ShareAt(ns, data, starts, sequenceLen, k)] + shares[k + 1..]
  {
    hide ShareAt;
    OffsetMonotone(k, n);
  }

  /** The content of the shares from the k-th on is the stream from its offset on. */
  lemma {:induction false} RestOfShares(ns: Bytes, data: Bytes, starts: seq<nat>, sequenceLen: nat, n: nat, k: nat)
    requires IsCompactNamespace(ns) && sequenceLen < U32_LIMIT && k <= n && Offset(n) <= |data|
    ensures Offset(k) <= Offset(n)
    ensures ExtractRest(SharesOf(ns, data, starts, sequenceLen, n)[k..]) == Ok(data[Offset(k)..Offset(n)])
    decreases n - k
  {
    hide ShareAt, RawData, SharesOf;
    OffsetMonotone(k, n);
    if k < n {
      var shares := SharesOf(ns, data, starts, sequenceLen, n);
      RestOfShares(ns, data, starts, sequenceLen, n, k + 1);
      ShareFields(ns, data, starts, sequenceLen, k);
      SharesTail(ns, data, starts, sequenceLen, n, k);
      assert shares[k..][1..] == shares[k + 1..];
      JoinSlices(data, Offset(k), Offset(k + 1), Offset(n));
    } else {
      assert SharesOf(ns, data, starts, sequenceLen, n)[n..] == [] && data[Offset(n)..Offset(n)] == [];
    }
  }

  /** Reading from a share in which a unit starts gives the stream from that unit on. */
  lemma ExtractFrom(ns: Bytes, data: Bytes, starts: seq<nat>, sequenceLen: nat, n: nat, k: nat)
    requires IsCompactNamespace(ns) && sequenceLen < U32_LIMIT && k < n && Offset(n) <= |data|
    requires FirstIn(starts, Offset(k), Offset(k + 1)) != -1
    ensures var s := FirstIn(starts, Offset(k), Offset(k + 1));
            0 <= s < Offset(k + 1) <= Offset(n) &&
            Extract(SharesOf(ns, data, starts, sequenceLen, n)[k..]) == Ok(data[s..Offset(n)])
  {
    hide RawDataUsingReserved, RawData, FirstIn, Offset, ShareAt, ExtractRest, Reserved, SharesOf, Version, SequenceLen;
    OffsetMonotone(k, n);
    OffsetGrows(k);
    var s := FirstIn(starts, Offset(k), Offset(k + 1));
    var shares := SharesOf(ns, data, starts, sequenceLen, n);
    ShareFields(ns, data, starts, sequenceLen, k);
    RestOfShares(ns, data, starts, sequenceLen, n, k + 1);
    SharesTail(ns, data, starts, sequenceLen, n, k);
    assert shares[k..][1..] == shares[k + 1..];
    FromReserved(ns, data, starts, sequenceLen, k);
    JoinSlices(data, s, Offset(k + 1), Offset(n));
  }

  lemma OffsetGrows(k: nat)
    ensures Offset(k) < Offset(k + 1)
  {
  }

  lemma FromReserved(ns: Bytes, data: Bytes, starts: seq<nat>, sequenceLen: nat, k: nat)
    requires |ns| == NAMESPACE_SIZE && sequenceLen < U32_LIMIT && Offset(k + 1) <= |data|
    requires FirstIn(starts, Offset(k), Offset(k + 1)) != -1
    ensures var s := FirstIn(starts, Offset(k), Offset(k + 1));
            && Reserved(starts, k) != 0
            && ShareAt(ns, data, starts, sequenceLen, k)[Reserved(starts, k)..] == data[s..Offset(k + 1)]
  {
    OffsetNext(k);
    var s := FirstIn(starts, Offset(k), Offset(k + 1));
    var content := data[Offset(k)..Offset(k + 1)];
    var share := ShareAt(ns, data, starts, sequenceLen, k);
    var head := HeaderSize(true, k == 0);
    assert share[head..] == content;
    assert share[Reserved(starts, k)..] == content[s - Offset(k)..] == data[s..Offset(k + 1)];
  }

  /** Parsing from any share in which a unit starts gives exactly the units that start in that share
      or later, up to an empty one: unit j is the first one to start at or after the share's content. */
  lemma ParseFromShare(ns: Bytes, units: seq<Bytes>, k: nat, j: nat)
    requires IsCompactNamespace(ns) && Sized(units) && k < SharesFor(|Stream(units)|) && j < |units|
    requires Offset(k) <= Starts(units)[j] < Offset(k + 1)
    requires j > 0 ==> Starts(units)[j - 1] < Offset(k)
    ensures Reserved(Starts(units), k) == HeaderSize(true, k == 0) + Starts(units)[j] - Offset(k)
    ensures Parse(CompactShares(ns, units)[k..]) == Ok(Complete(units[j..]))
  {
    hide Complete, ParseUnits, Extract, ShareAt, PaddedData, SharesOf, SharesFor, Offset, Stream, Starts, FirstIn;
    var data, starts, n := PaddedData(Stream(units)), Starts(units), SharesFor(|Stream(units)|);
    FirstUnit(units, k, j);
    ExtractFrom(ns, data, starts, |Stream(units)| % U32_LIMIT, n, k);
    SuffixOfPadded(units, j);
    assert data[Starts(units)[j]..Offset(n)] == data[Starts(units)[j]..];
    ParseStream(units[j..], Zeros(|data| - |Stream(units)|));
    VersionsAreZero(ns, data, starts, |Stream(units)| % U32_LIMIT, n, k);
  }

  lemma IndexOrder(starts: seq<nat>, i: nat, j: nat)
    requires Increasing(starts) && i < |starts| && j < |starts|
    ensures starts[i] <= starts[j] <==> i <= j
  {
  }

  lemma FirstUnit(units: seq<Bytes>, k: nat, j: nat)
    requires j < |units| && Offset(k) <= Starts(units)[j] < Offset(k + 1)
    requires j > 0 ==> Starts(units)[j - 1] < Offset(k)
    ensures FirstIn(Starts(units), Offset(k), Offset(k + 1)) == Starts(units)[j]
  {
    var starts := Starts(units);
    StartsIncreasing(units);
    hide Starts, Offset, FirstIn;
    FirstInIsFirst(starts, Offset(k), Offset(k + 1), starts[j]);
    var i :| 0 <= i < |starts| && starts[i] == FirstIn(starts, Offset(k), Offset(k + 1));
    IndexOrder(starts, i, j);
    if j > 0 {
      IndexOrder(starts, j - 1, i);
    }
  }

  lemma SuffixOfPadded(units: seq<Bytes>, j: nat)
    requires j < |units|
    ensures var data := PaddedData(Stream(units));
            && |data| >= |Stream(units)|
            && Starts(units)[j] <= |data|
            && data[Starts(units)[j]..] == Stream(units[j..]) + Zeros(|data| - |Stream(units)|)
  {
    hide Starts, Stream, SharesFor, Offset;
    StartOf(units, j);
    assert units == units[..j] + units[j..];
    StreamAppend(units[..j], units[j..]);
    DropPrefix(Stream(units[..j]), Stream(units[j..]), Zeros(|PaddedData(Stream(units))| - |Stream(units)|));
  }

  lemma DropPrefix(a: Bytes, b: Bytes, c: Bytes)
    ensures (a + b + c)[|a|..] == b + c
  {
    assert a + b + c == a + (b + c);
  }

  lemma VersionsAreZero(ns: Bytes, data: Bytes, starts: seq<nat>, sequenceLen: nat, n: nat, k: nat)
    requires IsCompactNamespace(ns) && sequenceLen < U32_LIMIT && k < n && Offset(n) <= |data|
    ensures var shares := SharesOf(ns, data, starts, sequenceLen, n)[k..];
            shares != [] && forall i :: 0 <= i < |shares| ==> Version(shares[i]) == 0
  {
    hide ShareAt, Version;
    var shares := SharesOf(ns, data, starts, sequenceLen, n);
    forall i | 0 <= i < n ensures Version(shares[i]) == 0 {
      OffsetMonotone(i, n);
      ShareFields(ns, data, starts, sequenceLen, i);
    }
    assert forall i :: 0 <= i < n - k ==> shares[k..][i] == shares[k + i];
  }

  /** The reserved bytes are 0 exactly when no unit starts in the share. */
  lemma ReservedZero(units: seq<Bytes>, k: nat)
    ensures Reserved(Starts(units), k) == 0
       <==> forall j :: 0 <= j < |units| ==> !(Offset(k) <= Starts(units)[j] < Offset(k + 1))
  {
    StartsIncreasing(units);
    forall j | 0 <= j < |units| && Offset(k) <= Starts(units)[j] < Offset(k + 1)
      ensures Reserved(Starts(units), k) != 0
    {
      FirstInIsFirst(Starts(units), Offset(k), Offset(k + 1), Starts(units)[j]);
    }
  }

  /** Splitting a list of units and parsing the shares gives the units in front of the first empty one,
      and so the list back exactly when no unit is empty. */
  lemma ParseSplit(ns: Bytes, units: seq<Bytes>)
    requires IsCompactNamespace(ns) && Sized(units)
    ensures Parse(CompactShares(ns, units)) == Ok(Complete(units))
    ensures Parse(CompactShares(ns, units)) == Ok(units) <==> Units(units)
  {
    hide Parse, CompactShares;
    CompleteAll(units);
    if units == [] {
      NothingParsed(ns);
    } else {
      StartOf(units, 0);
      assert units[..0] == [];
      var shares := CompactShares(ns, units);
      ParseFromShare(ns, units, 0, 0);
      assert shares[0..] == shares && units[0..] == units;
    }
  }

  lemma NothingParsed(ns: Bytes)
    requires |ns| == NAMESPACE_SIZE
    ensures Parse(CompactShares(ns, [])) == Ok([])
  {
  }

  lemma ParseLateUnit(units: seq<Bytes>, padding: nat, late: Bytes, z: nat)
    requires Units(units) && Units([late])
    ensures ParseUnits(Stream(units) + Zeros(padding) + Delimited(late) + Zeros(z))
         == Ok(if padding == 0 then units + [late] else units)
  {
    hide ParseUnits, Complete, Stream, Delimited;
    assert [late][0] == late;
    if padding == 0 {
      StreamSnoc(units, late);
      CompleteAll(units + [late]);
      ParseStream(units + [late], Zeros(z));
      assert Stream(units) + Zeros(0) == Stream(units);
    } else {
      CompleteAll(units);
      var tail := Zeros(padding) + Delimited(late) + Zeros(z);
      ParseStream(units, tail);
      assert Stream(units) + Zeros(padding) + Delimited(late) + Zeros(z) == Stream(units) + tail;
    }
  }

  /** A write after an export does not take the padding back. Its unit is found again exactly when the
      export had nothing to pad, that is when the units before it fill their shares. */
  method WriteAfterExport(ns: Bytes, txKey: Bytes -> Bytes, units: seq<Bytes>, late: Bytes) returns (r: Result<seq<Bytes>>)
    requires IsCompactNamespace(ns) && Units(units) && Units([late])
    ensures r == Ok(if |Stream(units)| == Offset(SharesFor(|Stream(units)|)) then units + [late] else units)
  {
    hide SharesOf, Stream, Starts, SharesFor, Offset, Delimited, Parse, PaddedData;
    var writer := WriteUnits(ns, txKey, units);
    var shares := writer.Export();
    ghost var padded := writer.data;
    writer.WriteTx(late);
    ghost var data, starts := writer.data, writer.starts;
    shares := writer.Export();
    LateContent(units, late);
    LateShares(ns, units, late, padded, data, starts, shares);
    r := ParseCompactShares(shares);
  }

  /** The content after the first export: the units and the padding of their last share. */
  lemma LateContent(units: seq<Bytes>, late: Bytes)
    ensures units == [] ==> Stream(units) == [] && PaddedData(Stream(units)) == []
    ensures units != [] ==> Stream(units) != []
    ensures |Delimited(late)| > 0 && Starts([]) == []
    ensures PaddedData(Stream(units)) == Stream(units) + Zeros(Offset(SharesFor(|Stream(units)|)) - |Stream(units)|)
  {
    hide Offset, SharesFor;
    if units != [] {
      StartOf(units, 0);
    } else {
      EmptyPadding();
    }
  }

  lemma EmptyPadding()
    ensures PaddedData([]) == []
  {
  }

  lemma LateShares(
    ns: Bytes, units: seq<Bytes>, late: Bytes, padded: Bytes, data: Bytes, starts: seq<nat>, shares: seq<Share>)
    requires IsCompactNamespace(ns) && Units(units) && Units([late])
    requires padded == PaddedData(Stream(units)) && data == padded + Delimited(late)
    requires starts == Starts(units) + [|padded|]
    requires shares == SharesOf(ns, PaddedData(data), starts, |data| % U32_LIMIT, SharesFor(|data|))
    ensures Parse(shares)
         == Ok(if |Stream(units)| == Offset(SharesFor(|Stream(units)|)) then units + [late] else units)
  {
    hide SharesOf, Stream, Starts, SharesFor, Offset, Delimited, ParseUnits, Extract, FirstIn;
    var all, n := PaddedData(data), SharesFor(|data|);
    FirstStartIsZero(units, padded, starts);
    LateContent(units, late);
    ExtractFrom(ns, all, starts, |data| % U32_LIMIT, n, 0);
    VersionsAreZero(ns, all, starts, |data| % U32_LIMIT, n, 0);
    assert shares[0..] == shares && all[0..Offset(n)] == all;
    var padding := Offset(SharesFor(|Stream(units)|)) - |Stream(units)|;
    ParseLateUnit(units, padding, late, |all| - |data|);
  }

  /** The first unit starts with the stream. */
  lemma FirstStartIsZero(units: seq<Bytes>, padded: Bytes, starts: seq<nat>)
    requires padded == PaddedData(Stream(units)) && starts == Starts(units) + [|padded|]
    ensures FirstIn(starts, Offset(0), Offset(1)) == 0
  {
    assert starts[0] == 0 by {
      hide PaddedData;
      if units == [] {
        EmptyPadding();
      } else {
        StartOf(units, 0);
        assert units[..0] == [];
      }
    }
    StartsIncreasing(units);
    hide Starts, Stream, FirstIn;
    PaddedIsLonger(Stream(units));
    IncreasingSnoc(Starts(units), |padded|);
    FirstInIsFirst(starts, 0, Offset(1), 0);
  }

  lemma PaddedIsLonger(data: Bytes)
    ensures |data| <= |PaddedData(data)|
  {
    hide SharesFor, Offset;
  }
}
