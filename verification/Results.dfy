/** Values that the source returns next to an error. */
module Results {
  datatype Option<+T> = None | Some(value: T)

  datatype Result<+T> = Ok(value: T) | Err(error: Error)

  /** The errors of the modelled code, one per message. */
  datatype Error =
    | DelimiterOverflow
    | InvalidNamespace
    | NotPositive
    | RowRootMismatch
    | InconsistentNamespaces
    | WrongNumberOfShares
    | TxsDoNotStartAtZero
    | PfbsDoNotFollowTxs
    | NotAWrappedPfb
    | NoBlobsAttached
    | NotOneMessage
    | NotAPayForBlobs
    | WrongNumberOfBlobSizes
    | IndexOutOfRange
    | NotASingleBlob
    | UndecodableTx
    | InvalidSquareSize
    | NormalTxAfterBlobTx
    | NotEnoughSpace
    | PaddingTooLong
    | CompactSharesDoNotFit
    | BlobsDoNotFit
    | PfbCounterTooSmall
    | IntOverflow
    | UnexpectedEOF
    | InvalidLength
    | UnexpectedEndOfGroup
    | IllegalWireType
    | WrongWireType
    | IllegalTag
    | ContinuationWithoutStart
    | SequenceTooShort
    | NegativePadding
    | NothingToPad
    | InvalidBlob
    | UnsupportedShareVersion
    | NotACompactShare
    | NotTheFirstShare
    | WrongShareSize
    | UnsupportedNamespace
    | ReservedBytesOutOfRange
    | SubtreeRootNotFound
    | UnexpectedRowRoots
    | RowOutOfRange
    | BlobOutsideSquare

  /** A list behind the elements that come before it, unless it is an error. */
  function Prepend<T>(first: seq<T>, r: Result<seq<T>>): (s: Result<seq<T>>)
  {
    match r
    case Err(e) => Err(e)
    case Ok(rest) => Ok(first + rest)
  }

  lemma PrependPrepend<T>(a: seq<T>, b: seq<T>, r: Result<seq<T>>)
    ensures Prepend(a, Prepend(b, r)) == Prepend(a + b, r)
  {
    if r.Ok? {
      assert a + (b + r.value) == (a + b) + r.value;
    }
  }

  lemma PrependNothing<T>(r: Result<seq<T>>)
    ensures Prepend([], r) == r
  {
    if r.Ok? {
      assert [] + r.value == r.value;
    }
  }
}
