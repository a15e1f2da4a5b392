/** Grouping shares into sequences (pkg/shares/parse.go, pkg/shares/share_sequence.go). */
module ShareSequences {
  import opened Blobs
  import opened ByteSeqs
  import CompactParser
  import opened CompactStream
  import opened Namespaces
  import opened Results
  import opened ShareFormat

  /** Shares that belong together: one sequence per reserved namespace, and one per blob. */
  datatype ShareSequence = ShareSequence(namespace: Bytes, shares: seq<Share>)

  /** The zero value that grouping starts from; its namespace has a version byte and no id. */
  const NO_SEQUENCE := ShareSequence([0], [])

  /** The finished sequences and the one that is growing. */
  datatype Groups = Groups(finished: seq<ShareSequence>, current: ShareSequence)

  function Close(g: Groups): (r: seq<ShareSequence>)
  {
    if |g.current.shares| > 0 then g.finished + [g.current] else g.finished
  }

  /** What one share does to the groups. */
  function Join(g: Groups, s: Bytes): (r: Result<Groups>)
  {
    if |s| != SHARE_SIZE then Err(WrongShareSize)
    else if !Supported(NamespaceBytes(s)) then Err(UnsupportedNamespace)
    else if IsSequenceStart(s) then Ok(Groups(Close(g), ShareSequence(NamespaceBytes(s), [s])))
    else if g.current.namespace != NamespaceBytes(s) then Err(InconsistentNamespaces)
    else Ok(g.(current := g.current.(shares := g.current.shares + [s])))
  }

  function JoinAll(g: Groups, shares: seq<Bytes>): (r: Result<Groups>)
    decreases |shares|
  {
    if shares == [] then Ok(g)
    else
      match Join(g, shares[0])
      case Err(e) => Err(e)
      case Ok(next) => JoinAll(next, shares[1..])
  }

  function Grouped(shares: seq<Bytes>): (r: Result<seq<ShareSequence>>)
  {
    match JoinAll(Groups([], NO_SEQUENCE), shares)
    case Err(e) => Err(e)
    case Ok(g) => Ok(Close(g))
  }

  /** ShareSequence.isPadding: a single share that is padding. */
  function IsPaddingSequence(q: ShareSequence): (r: Result<bool>)
  {
    if |q.shares| != 1 then Ok(false) else IsPadding(q.shares[0])
  }

  /** numberOfSharesNeeded by the sequence length in the first share. */
  function SharesNeeded(s: Share): (n: nat)
  {
    if IsCompact(s) then SharesFor(SequenceLen(s)) else SharesNeeded32(SequenceLen(s))
  }

  /** validSequenceLen. */
  function ValidSequenceLen(q: ShareSequence): (r: Result<()>)
  {
    if |q.shares| == 0 then Err(WrongNumberOfShares)
    else
      match IsPaddingSequence(q)
      case Err(e) => Err(e)
      case Ok(padding) =>
        if padding then Ok(())
        else if !Supported(NamespaceBytes(q.shares[0])) then Err(UnsupportedNamespace)
        else if |q.shares| != SharesNeeded(q.shares[0]) then Err(WrongNumberOfShares)
        else Ok(())
  }

  function AllValid(sequences: seq<ShareSequence>): (r: Result<()>)
    decreases |sequences|
  {
    if sequences == [] then Ok(())
    else
      match ValidSequenceLen(sequences[0])
      case Err(e) => Err(e)
      case Ok(_) => AllValid(sequences[1..])
  }

  /** The sequences that are returned, without padding if that is to be ignored. */
  function Kept(sequences: seq<ShareSequence>, ignorePadding: bool): (r: Result<seq<ShareSequence>>)
    decreases |sequences|
  {
    if sequences == [] then Ok([])
    else
      match IsPaddingSequence(sequences[0])
      case Err(e) => Err(e)
      case Ok(padding) =>
        Prepend(if ignorePadding && padding then [] else [sequences[0]], Kept(sequences[1..], ignorePadding))
  }

  function Sequences(shares: seq<Bytes>, ignorePadding: bool): (r: Result<seq<ShareSequence>>)
  {
    match Grouped(shares)
    case Err(e) => Err(e)
    case Ok(sequences) =>
      match AllValid(sequences)
      case Err(e) => Err(e)
      case Ok(_) => Kept(sequences, ignorePadding)
  }

  method CompactSharesNeeded(sequenceLen: nat) returns (sharesNeeded: nat)
    ensures sharesNeeded == SharesFor(sequenceLen)
  {
    if sequenceLen == 0 {
      return 0;
    }
    if sequenceLen < FIRST_COMPACT_CONTENT {
      return 1;
    }
    var bytesAvailable := FIRST_COMPACT_CONTENT;
    sharesNeeded := 1;
    while bytesAvailable < sequenceLen
      invariant sharesNeeded >= 1 && bytesAvailable == Offset(sharesNeeded)
      invariant Offset(sharesNeeded - 1) < sequenceLen
    {
      bytesAvailable := bytesAvailable + CONTINUATION_COMPACT_CONTENT;
      sharesNeeded := sharesNeeded + 1;
    }
    SharesForUnique(sequenceLen, sharesNeeded);
  }

  /** If the shares of the sequence are counted as sparse shares, SparseSharesNeeded returns. */
  ghost predicate CountableSequence(q: ShareSequence) {
    |q.shares| > 0 && IsPaddingSequence(q) != Ok(true) && !IsCompact(q.shares[0]) ==> Returns(SequenceLen(q.shares[0]))
  }

  method CheckSequenceLen(q: ShareSequence) returns (r: Result<()>)
    requires CountableSequence(q)
    ensures r == ValidSequenceLen(q)
  {
    hide IsPadding, Supported, SharesFor, SharesNeeded32, SequenceLen;
    if |q.shares| == 0 {
      return Err(WrongNumberOfShares);
    }
    var isPadding := IsPaddingSequence(q);
    if isPadding.Err? {
      return Err(isPadding.error);
    }
    if isPadding.value {
      return Ok(());
    }
    var firstShare := q.shares[0];
    var sequenceLen := SequenceLen(firstShare);
    if !Supported(NamespaceBytes(firstShare)) {
      return Err(UnsupportedNamespace);
    }
    var sharesNeeded;
    if IsCompact(firstShare) {
      sharesNeeded := CompactSharesNeeded(sequenceLen);
    } else {
      sharesNeeded := SparseSharesNeeded(sequenceLen);
    }
    return if |q.shares| != sharesNeeded then Err(WrongNumberOfShares) else Ok(());
  }

  /** What is grouped, if anything, can be counted. */
  ghost predicate CountableGroups(shares: seq<Bytes>) {
    Grouped(shares).Ok? ==>
      forall i :: 0 <= i < |Grouped(shares).value| ==> CountableSequence(Grouped(shares).value[i])
  }

  /** ParseShares. */
  method ParseShares(shares: seq<Bytes>, ignorePadding: bool) returns (r: Result<seq<ShareSequence>>)
    requires CountableGroups(shares)
    ensures r == Sequences(shares, ignorePadding)
  {
    hide Join, AllValid, Kept, CountableSequence, NO_SEQUENCE;
    var g := Groups([], NO_SEQUENCE);
    for i := 0 to |shares|
      invariant JoinAll(Groups([], NO_SEQUENCE), shares) == JoinAll(g, shares[i..])
    {
      assert shares[i..][1..] == shares[i + 1..];
      var next := Join(g, shares[i]);
      if next.Err? {
        return Err(next.error);
      }
      g := next.value;
    }
    assert shares[|shares|..] == [];
    var sequences := Close(g);
    assert Grouped(shares) == Ok(sequences);
    r := CheckAndFilter(sequences, ignorePadding);
  }

  /** The loops over the finished sequences. */
  method CheckAndFilter(sequences: seq<ShareSequence>, ignorePadding: bool) returns (r: Result<seq<ShareSequence>>)
    requires forall i :: 0 <= i < |sequences| ==> CountableSequence(sequences[i])
    ensures r == match AllValid(sequences)
                 case Err(e) => Err(e)
                 case Ok(_) => Kept(sequences, ignorePadding)
  {
    hide ValidSequenceLen, CountableSequence, IsPaddingSequence;
    for i := 0 to |sequences|
      invariant AllValid(sequences) == AllValid(sequences[i..])
    {
      assert sequences[i..][1..] == sequences[i + 1..] && CountableSequence(sequences[i]);
      var valid := CheckSequenceLen(sequences[i]);
      if valid.Err? {
        return Err(valid.error);
      }
    }
    assert sequences[|sequences|..] == [];
    var result: seq<ShareSequence> := [];
    PrependNothing(Kept(sequences, ignorePadding));
    for i := 0 to |sequences|
      invariant Kept(sequences, ignorePadding) == Prepend(result, Kept(sequences[i..], ignorePadding))
    {
      assert sequences[i..][1..] == sequences[i + 1..];
      var isPadding := IsPaddingSequence(sequences[i]);
      if isPadding.Err? {
        return Err(isPadding.error);
      }
      ghost var kept := if ignorePadding && isPadding.value then [] else [sequences[i]];
      PrependPrepend(result, kept, Kept(sequences[i + 1..], ignorePadding));
      if !(ignorePadding && isPadding.value) {
        result := result + [sequences[i]];
      } else {
        assert result + [] == result;
      }
    }
    assert result + [] == result;
    return Ok(result);
  }

  /** ShareSequence.RawData: the content of the shares, cut to the sequence length. The source panics when
      there is less content than that. */
  function SequenceData(q: ShareSequence): (r: Result<Bytes>)
  {
    match CompactParser.ExtractRest(q.shares)
    case Err(e) => Err(e)
    case Ok(data) =>
      if |q.shares| == 0 then Err(WrongNumberOfShares)
      else if SequenceLen(q.shares[0]) > |data| then Err(SequenceTooShort)
      else Ok(data[..SequenceLen(q.shares[0])])
  }

  // ----- well-formed blocks are found again -----

  /** A sequence as a splitter writes it: a start share and continuation shares of the same namespace. */
  ghost predicate Block(q: ShareSequence) {
    && |q.shares| >= 1 && Supported(q.namespace)
    && (forall i :: 0 <= i < |q.shares| ==> NamespaceBytes(q.shares[i]) == q.namespace)
    && (forall i :: 0 <= i < |q.shares| ==> (IsSequenceStart(q.shares[i]) <==> i == 0))
  }

  /** The shares of the sequences one after the other. */
  function Flat(blocks: seq<ShareSequence>): (r: seq<Share>)
  {
    if blocks == [] then [] else blocks[0].shares + Flat(blocks[1..])
  }

  lemma {:induction false} FlatAppend(a: seq<ShareSequence>, b: seq<ShareSequence>)
    ensures Flat(a + b) == Flat(a) + Flat(b)
    decreases |a|
  {
    if a == [] {
      assert a + b == b;
    } else {
      assert (a + b)[1..] == a[1..] + b && (a + b)[0] == a[0];
      FlatAppend(a[1..], b);
      assert a[0].shares + (Flat(a[1..]) + Flat(b)) == (a[0].shares + Flat(a[1..])) + Flat(b);
    }
  }

  /** The first i shares of a block. */
  function Part(q: ShareSequence, i: nat): (r: ShareSequence)
    requires i <= |q.shares|
  {
    q.(shares := q.shares[..i])
  }

  lemma {:induction false} JoinContinuations(finished: seq<ShareSequence>, q: ShareSequence, i: nat, rest: seq<Share>)
    requires Block(q) && 1 <= i <= |q.shares|
    ensures JoinAll(Groups(finished, Part(q, i)), q.shares[i..] + rest) == JoinAll(Groups(finished, q), rest)
    decreases |q.shares| - i
  {
    hide Supported, NamespaceBytes, IsSequenceStart;
    if i == |q.shares| {
      assert Part(q, i) == q && q.shares[i..] + rest == rest;
    } else {
      var s := q.shares[i];
      assert (q.shares[i..] + rest)[0] == s && (q.shares[i..] + rest)[1..] == q.shares[i + 1..] + rest;
      assert Part(q, i + 1).shares == Part(q, i).shares + [s];
      assert Join(Groups(finished, Part(q, i)), s) == Ok(Groups(finished, Part(q, i + 1)));
      JoinContinuations(finished, q, i + 1, rest);
    }
  }

  lemma JoinBlock(g: Groups, q: ShareSequence, rest: seq<Share>)
    requires Block(q)
    ensures JoinAll(g, q.shares + rest) == JoinAll(Groups(Close(g), q), rest)
  {
    hide Supported, NamespaceBytes, IsSequenceStart, Close;
    var s := q.shares[0];
    assert (q.shares + rest)[0] == s && (q.shares + rest)[1..] == q.shares[1..] + rest;
    assert Part(q, 1) == ShareSequence(NamespaceBytes(s), [s]);
    JoinContinuations(Close(g), q, 1, rest);
  }

  lemma {:induction false} JoinBlocks(g: Groups, blocks: seq<ShareSequence>)
    requires forall i :: 0 <= i < |blocks| ==> Block(blocks[i])
    ensures JoinAll(g, Flat(blocks)).Ok? && Close(JoinAll(g, Flat(blocks)).value) == Close(g) + blocks
    decreases |blocks|
  {
    hide Block, Join;
    if blocks != [] {
      var q := blocks[0];
      JoinBlock(g, q, Flat(blocks[1..]));
      JoinBlocks(Groups(Close(g), q), blocks[1..]);
      NotEmpty(q);
      assert Close(g) + blocks == (Close(g) + [q]) + blocks[1..];
    }
  }

  lemma NotEmpty(q: ShareSequence)
    requires Block(q)
    ensures |q.shares| > 0
  {
  }

  /** Grouping the shares of well-formed sequences gives exactly those sequences. */
  lemma GroupedBlocks(blocks: seq<ShareSequence>)
    requires forall i :: 0 <= i < |blocks| ==> Block(blocks[i])
    ensures Grouped(Flat(blocks)) == Ok(blocks)
  {
    hide Block, JoinAll;
    JoinBlocks(Groups([], NO_SEQUENCE), blocks);
    assert [] + blocks == blocks;
  }
}
