/** Counting compact shares without writing them (pkg/shares/counter.go). */
module Counter {
  import opened ByteSeqs
  import CompactSplitter
  import opened CompactStream
  import Namespaces
  import opened ShareFormat
  import opened Varint

  /** Bytes in the stream of units with these lengths. */
  function StreamLen(lens: seq<nat>): (n: nat)
  {
    if lens == [] then 0
    else StreamLen(lens[..|lens| - 1]) + lens[|lens| - 1] + DelimLen(lens[|lens| - 1])
  }

  function Lengths(units: seq<Bytes>): (lens: seq<nat>)
    ensures |lens| == |units|
  {
    seq(|units|, i requires 0 <= i < |units| => |units[i]|)
  }

  lemma StreamLenSnoc(lens: seq<nat>, n: nat)
    ensures StreamLen(lens + [n]) == StreamLen(lens) + n + DelimLen(n)
  {
    assert (lens + [n])[..|lens|] == lens;
  }

  lemma {:induction false} StreamLenOfUnits(units: seq<Bytes>)
    ensures StreamLen(Lengths(units)) == |Stream(units)|
  {
    if units != [] {
      var init := units[..|units| - 1];
      StreamLenOfUnits(init);
      assert Lengths(units)[..|units| - 1] == Lengths(init);
    }
  }

  lemma {:induction false} StreamLenPrefix(a: seq<nat>, b: seq<nat>)
    ensures StreamLen(a) <= StreamLen(a + b)
    decreases |b|
  {
    if b == [] {
      assert a + b == a;
    } else {
      StreamLenPrefix(a, b[..|b| - 1]);
      assert (a + b)[..|a + b| - 1] == a + b[..|b| - 1];
    }
  }

  /** Pointwise longer units never need fewer shares. */
  lemma {:induction false} SharesMonotone(a: seq<nat>, b: seq<nat>)
    requires |a| == |b| && forall i :: 0 <= i < |a| ==> a[i] <= b[i]
    ensures StreamLen(a) <= StreamLen(b)
    ensures SharesFor(StreamLen(a)) <= SharesFor(StreamLen(b))
  {
    if a != [] {
      SharesMonotone(a[..|a| - 1], b[..|b| - 1]);
      DelimLenMonotone(a[|a| - 1], b[|b| - 1]);
    }
    SharesForMonotone(StreamLen(a), StreamLen(b));
  }

  class CompactShareCounter {
    var lastShares: nat
    var lastRemainder: nat
    var shares: nat
    /** The number of bytes used for data in the last share. */
    var remainder: nat

    /** Neither state has a full share pending. */
    ghost predicate Valid()
      reads this
    {
      remainder < Capacity(shares) && lastRemainder < Capacity(lastShares)
    }

    /** The bytes counted so far. */
    ghost function Total(): (n: nat)
      reads this
    {
      Offset(shares) + remainder
    }

    /** The bytes counted before the last Add. */
    ghost function LastTotal(): (n: nat)
      reads this
    {
      Offset(lastShares) + lastRemainder
    }

    constructor ()
      ensures Valid() && Total() == 0 && LastTotal() == 0
    {
      lastShares, lastRemainder, shares, remainder := 0, 0, 0, 0;
    }

    /** Size is the number of shares that the counted bytes take up. */
    function Size(): (n: nat)
      reads this
      ensures Valid() ==> n == SharesFor(Total())
    {
      SizeIsSharesFor(shares, remainder);
      if remainder == 0 then shares else shares + 1
    }

    /** Counts one more unit behind its delimiter and returns by how much Size changed. */
    method Add(dataLen0: nat) returns (diff: int)
      requires Valid()
      modifies this
      ensures Valid()
      ensures Total() == old(Total()) + dataLen0 + DelimLen(dataLen0)
      ensures diff == SharesFor(Total()) - SharesFor(old(Total())) && diff >= 0
      ensures LastTotal() == old(Total())
    {
      hide SharesFor, DelimLen, Offset;
      var dataLen := dataLen0 + DelimLen(dataLen0);
      lastRemainder, lastShares := remainder, shares;
      Fill(dataLen);
      diff := shares - lastShares;
      if lastRemainder == 0 && remainder > 0 {
        diff := diff + 1;
      } else if lastRemainder > 0 && remainder == 0 {
        diff := diff - 1;
      }
      SizeIsSharesFor(shares, remainder);
      SizeIsSharesFor(lastShares, lastRemainder);
      SharesForMonotone(old(Total()), Total());
    }

    /** The bytes go first into the first share, then into the pending continuation share and then
        into further continuation shares. */
    method Fill(dataLen0: nat)
      requires Valid()
      modifies this`shares, this`remainder
      ensures Valid() && Total() == old(Total()) + dataLen0
    {
      var dataLen := dataLen0;
      if shares == 0 {
        if dataLen >= FIRST_COMPACT_CONTENT - remainder {
          dataLen := dataLen - (FIRST_COMPACT_CONTENT - remainder);
          shares := shares + 1;
          remainder := 0;
        } else {
          remainder := remainder + dataLen;
          dataLen := 0;
        }
      }
      if dataLen >= CONTINUATION_COMPACT_CONTENT - remainder {
        dataLen := dataLen - (CONTINUATION_COMPACT_CONTENT - remainder);
        shares := shares + 1;
        remainder := 0;
      } else {
        remainder := remainder + dataLen;
        dataLen := 0;
      }
      if dataLen > 0 {
        shares := shares + dataLen / CONTINUATION_COMPACT_CONTENT;
        remainder := dataLen % CONTINUATION_COMPACT_CONTENT;
      }
    }

    /** Goes back to the state before the last Add; doing so again changes nothing. */
    method Revert()
      requires Valid()
      modifies this
      ensures Valid() && Total() == old(LastTotal()) && LastTotal() == old(LastTotal())
    {
      shares := lastShares;
      remainder := lastRemainder;
    }
  }

  lemma SizeIsSharesFor(shares: nat, remainder: nat)
    ensures remainder < Capacity(shares) ==>
              SharesFor(Offset(shares) + remainder) == if remainder == 0 then shares else shares + 1
  {
    if 0 < remainder < Capacity(shares) {
      OffsetNext(shares);
      SharesForUnique(Offset(shares) + remainder, shares + 1);
    } else if remainder == 0 && shares > 0 {
      OffsetNext(shares - 1);
      SharesForUnique(Offset(shares), shares);
    }
  }

  /** Counting a list of lengths: Size is what a splitter that writes those units counts. */
  method CountUnits(lens: seq<nat>) returns (c: CompactShareCounter)
    ensures fresh(c) && c.Valid() && c.Total() == StreamLen(lens)
  {
    c := new CompactShareCounter();
    for i := 0 to |lens|
      invariant fresh(c) && c.Valid() && c.Total() == StreamLen(lens[..i])
    {
      assert lens[..i + 1] == lens[..i] + [lens[i]];
      StreamLenSnoc(lens[..i], lens[i]);
      var diff := c.Add(lens[i]);
    }
    assert lens[..|lens|] == lens;
  }

  /** The counter agrees with the splitter on every list of units. */
  method CounterMatchesSplitter(ns: Bytes, txKey: Bytes -> Bytes, units: seq<Bytes>) returns (counted: nat, written: nat)
    requires Namespaces.IsCompactNamespace(ns)
    ensures counted == written == |CompactSplitter.CompactShares(ns, units)|
  {
    hide SharesFor, StreamLen, Stream;
    var c := CountUnits(Lengths(units));
    StreamLenOfUnits(units);
    counted := c.Size();
    var shares;
    shares, written := CompactSplitter.SplitUnits(ns, txKey, units);
  }
}
