# The data square, modelled and verified in Dafny

This project models how Sunrise turns the transactions of a block into a data square and reads them back,
and proves what that pipeline is for. A square has a power-of-two side and consists of 512-byte shares. It
holds the ordinary transactions, the wrapped pay-for-blob transactions (PFBs), reserved padding, the blobs
sorted by namespace with padding between them, and tail padding.

Check everything with `dafny verify dfyconfig.toml`.

## What is proved

- **A proposer and a validator agree.** For every prioritised list, the validator accepts the list that `Build`
  returns and computes the identical square, error or not; for valid blobs there is no error
  (`SquareAgreement`).
- **Export never fails.** After any run of accepted and rejected appends of valid transactions the square exists,
  fits, and its side is the least power of two for the builder's estimate and within the limit. Exports in
  between change nothing (`SquareTheorems`, `SquareAgreement`).
- **Deconstruct undoes Construct**, for every accepted list of transactions with valid blobs, exactly when no normal
  transaction is empty and every blob transaction is canonically encoded (`DeconstructTheorem`).
- **The two blob commitments agree.** For every blob of every exported square, the commitment read from the cached row
  trees equals the one created from the blob alone (`Inclusion`, on top of `Paths`, `CommitmentPaths`, `Nmt`,
  `SubtreeCacher` and `Commitment`).
- **A commitment fixes its blob.** Without hash collisions two valid blobs have the same commitment exactly when they
  are equal, whatever their lengths and trees (`Binding`).
- **The proposer is greedy and the estimate tight.** Nothing that `Build` leaves out fits on top of what it admits, and a
  list that fits comes back complete (`Admission`). The estimate of a blob is the most room it can take up from any
  start, so that a rejection always has a start that leaves too little room (`Estimate`).
- **The layout.** Every slot is written, blobs are disjoint and aligned, namespaces do not decrease in the square and in
  all row and column trees, everything outside transactions and blobs is zero padding, the range of a namespace, of a
  transaction and of a blob is found exactly, and `ParseShares` groups the square into its sequences (`SquarePlacement`,
  `SquarePadding`, `RowTrees`, `NamespaceRange`, `Locations`, `ShareSequenceTheorem`).
- **The codecs.** Compact and sparse shares and the `BlobTx` wire format round-trip, the compact-share counter
  refines the splitter, parsing arbitrary bytes is total, unknown fields are skipped exactly, and the parsers accept just
  what the format allows (`CompactParser`, `SparseParser`, `Counter`, `BlobUnmarshal`, `BlobRoundTrip`, `WireFields`,
  `Acceptance`).

## How it is built

Values are datatypes and functions. Code that updates fields or fills buffers is a class or a method with loops, proved
against a specification function: `ExportedSquare` for the builder, `SharesOf` for the compact splitter, `TxFrom` for the
wire parser. The theorems are lemmas about those functions. In-place updates of the source that are fields here: the
builder's `blobs` (re-sorted by every export) and `pfbs` (whose share indexes every export overwrites).

Assumptions that stand for foreign code are explicit arguments:

- `SquareLayout.WrapperCodec`: the encoding of index wrappers. `Lawful` says that decoding undoes encoding, that an
  encoding is not empty and that it does not grow when the varints of the share indexes do not.
- `Deconstruction.Decoder`: the transaction decoder, reduced to the messages it finds and the blob sizes of a `MsgPayForBlobs`.
- `Nmt.Hasher` and `merkle`: leaf hash, node hash and the Merkle root over subtree roots, all uninterpreted. Only the
  cacher assumes that the inner nodes of one row do not collide, and only `Binding` that no hashes collide.
- The shares of the extended square are an argument of which only the original quarter is constrained
  (`Commitment.Extends`).
- `Env.txKey`: the hash that identifies a transaction in the ranges that a compact splitter records.

Some facts about the source that the proofs bring out:

- The comment at pkg/inclusion/paths.go:101-105 allows `end >= start`. The loop returns exactly for `start < end`: the method
  ends there after a number of iterations of `Paths.Run`, and `Paths.EmptyRangeDiverges` shows that the same iterations
  never return otherwise.
- A write to a compact splitter after an export does not take the padding back. `CompactParser.WriteAfterExport` writes units,
  exports, writes a late unit, exports again and parses: the late unit is found exactly when the units before it fill
  their shares.
- An empty unit ends what is parsed from compact shares, so parsing undoes splitting exactly when no unit is empty
  (`CompactParser.ParseSplit`).
- Parsing from a compact share whose pointer is 0 begins with the first byte of the next share
  (`CompactPointer.ParseFromZero`). For units of given lengths that gives the units behind the share, whatever they hold,
  exactly when no unit reaches beyond the share from before (`CompactPointer.ParseFromZeroExact`);
  `CompactPointer.ParseFromZeroMisreads` is an input where units are read that were never written.
- The 32-bit loop of `SparseSharesNeeded` gives the right count exactly for lengths of at most 4294967036 bytes
  (`Blobs.SharesNeededIsRight`), a larger one for longer data, and never ends for the largest 32-bit length
  (`Blobs.LongestBlobDiverges`). The model computes what the source computes for all lengths but the last.
- `GetCommitment` does not check where the aligned place of a blob ends. It reads the leaves of the original square when that
  place ends in it (`Commitment.PlaceInOriginal`), as it does for every aligned start (`Commitment.AlreadyAligned`), and a
  leaf of a row behind it otherwise (`Commitment.PlaceReachesParity`). 65 shares from share 191 of a square of side 16 are
  such a case (`Commitment.UnalignedStartLeaves`).
- A PFB list without any blob leaves no slot unwritten although `WriteSquare` skips the reserved padding in that case, because
  worst-case and final wrappers then coincide (`SquareTheorems.NoBlobsNoGap`).

## Model

| member | source | states |
|---|---|---|
| `SquareAgreement.ProposerAndValidatorAgree` | pkg/square/square.go:23-58 | for every list, the transactions `Build` admits, normal ones first, are accepted by `Construct` and give the same result as the proposer's export |
| `SquareAgreement.BuildThenConstruct` | pkg/square/square.go:23-58 | running `Build` and then `Construct` on its list gives equal results; the list is taken from the input without inventing or duplicating |
| `SquareAgreement.ProposalSucceeds` | pkg/square/square.go:23-58 | with valid blobs and a limit within the upper bound, a proposal always leads to a square |
| `SquareAgreement.OrderedIsAccepted` | pkg/square/builder.go:39-74 | if normal transactions followed by blob transactions fit as a whole, every prefix fits and the list has no problem |
| `SquareAgreement.AdmittedFits` | pkg/square/square.go:23-44 | what a proposer admits is sorted into normal and blob transactions and costs at most the capacity |
| `SquareAgreement.ExportTwice` | pkg/square/builder.go:121-211 | a second export returns the same square |
| `SquareAgreement.ExportBetweenAppends` | pkg/square/builder.go:78-211 | whatever exports happen between appends, the final result is the export of what the appends alone admit |
| `SquareAgreement.AnyRunExports` | pkg/square/builder.go:78-211 | after any run of accepted and rejected valid appends Export succeeds and the side is within the limit |
| `SquareTheorems.ExportSucceeds` | pkg/square/builder.go:121-211 | for everything a builder can have admitted the export is the closed-form square, of side times side complete shares |
| `SquareTheorems.SideIsLeast` | pkg/square/builder.go:127-130 | the side is a power of two, holds the estimate, is least with that property and at most the limit |
| `SquareTheorems.BlobsEndWithinCost` | pkg/square/builder.go:375-411 | the end of the last aligned blob is at most the builder's running estimate |
| `SquareTheorems.PfbCounterCovers` | pkg/square/builder.go:92-118 | the PFBs with real share indexes need no more bytes and shares than were counted with worst-case indexes |
| `SquareTheorems.FinalPfbNoLonger` | pkg/square/builder.go:413-424 | real share indexes take no more varint bytes than the worst-case ones, and fit 32 bits |
| `SquareTheorems.NoBlobsNoGap` | pkg/square/square.go:265-271 | without blobs the counted and written PFB shares coincide, so that skipping the reserved padding leaves no hole |
| `SquareTheorems.PartsFit` | pkg/square/square.go:243-253 | neither size check of `WriteSquare` can fail |
| `SquareBuilder.Builder.constructor` | pkg/square/builder.go:39-55 | an empty builder with the square of the side as capacity |
| `SquareBuilder.Builder.AppendTx` | pkg/square/builder.go:78-88 | accepted if and only if the estimate with it stays within capacity; a rejected transaction leaves no trace |
| `SquareBuilder.Builder.AppendBlobTx` | pkg/square/builder.go:92-118 | the same for a PFB with its blobs, including the revert of the counter |
| `SquareBuilder.Builder.Export` | pkg/square/builder.go:121-211 | the result depends on the admitted transactions alone, not on earlier exports, and the invariant is kept |
| `SquareBuilder.Builder.PlaceBlobs` | pkg/square/builder.go:148-182 | the blob loop: shares, recorded indexes and first index are those of the aligned layout of the sorted blobs |
| `SquareBuilder.Builder.SortBlobs` | pkg/square/builder.go:132-137 | the blobs are in the order of a stable sort by namespace, and sorting again changes nothing |
| `SquareBuilder.Builder.FindTxShareRange` | pkg/square/builder.go:269-318 | the span of the transaction, or the export's error, or an index error |
| `SquareBuilder.Builder.FindBlobStartingIndex` | pkg/square/builder.go:215-241 | the recorded share index of the blob, or the right error |
| `SquareBuilder.Builder.BlobShareLength` | pkg/square/builder.go:247-265 | the number of shares of the blob, found by a search that succeeds exactly for existing blobs |
| `SquareBuilder.MakeElement` | pkg/square/builder.go:375-407 | the element of a blob: its share count and subtree width minus one as padding |
| `Estimate.OffsetIsMostRoom` | pkg/square/builder.go:375-411 | the estimate for a blob is the greatest distance from any cursor to the end of the blob placed from there: never exceeded, and reached by some cursor |
| `Estimate.RejectedOnlyIfTooLarge` | pkg/square/builder.go:78-118 | the estimate exceeds the capacity if and only if there are cursors from which the blobs, behind the written worst-case compact shares, take up more than the capacity |
| `Estimate.SingleBlobRejected` | pkg/square/builder.go:92-118 | a transaction with one blob is rejected if and only if some start leaves no room for the blob |
| `Estimate.CountedIsWritten` | pkg/square/builder.go:78-118 | the compact part of the estimate is the number of shares that the splitter makes of the transactions and the worst-case PFBs |
| `Estimate.WorstIndexIsFirstOutside` | pkg/square/builder.go:413-424 | the worst-case index is the least number that is no share index in any square within the upper bound |
| `SquareBuilder.WriteSquare` | pkg/square/square.go:238-277 | copying the parts into an array of empty slots gives their concatenation with reserved and tail padding, or the right error |
| `SquareElements.CostMonotone` | pkg/square/builder.go:78-118 | more transactions never cost less |
| `SquareElements.AllRecorded` | pkg/square/builder.go:165-167 | once all elements are recorded the PFBs are determined, whatever indexes they held before |
| `Square.NewBuilder` | pkg/square/builder.go:39-74 | rejects bad sizes, normal transactions behind blob transactions and lists that do not fit; otherwise holds exactly the list |
| `Square.Construct` | pkg/square/square.go:52-58 | the export of the whole list, or the first problem |
| `Square.Build` | pkg/square/square.go:23-44 | the export of the greedily admitted transactions and their list |
| `Admission.BuildAdmitsWhatFits` | pkg/square/square.go:23-44 | running `Build`: no occurrence of a transaction that is left out would fit on top of what is admitted; a list that fits as a whole comes back complete, normal transactions first, each kind in the order of the list |
| `Admission.NothingElseFits` | pkg/square/square.go:23-44 | the same of the admitted transactions for every capacity, counted as multisets |
| `Admission.AllAdmitted` | pkg/square/square.go:23-44 | when the whole list costs at most the capacity, all of it is admitted in order |
| `SquarePlacement.ElementPlaced` | pkg/square/builder.go:148-182 | the shares of every sorted blob stand at its index, which is a multiple of its subtree width |
| `SquarePlacement.BlobsDisjoint` | pkg/square/builder.go:148-182 | no two blobs overlap |
| `SquarePlacement.BlobFound` | pkg/square/builder.go:165-167 | the index a PFB records for a blob leads to exactly the shares of that blob |
| `SquarePlacement.DefaultsMatch` | pkg/inclusion/blob_share_commitment_rules.go:17-46 | the recorded indexes are the non-interactive defaults for the sorted lengths, and `FitsInSquare` answers true |
| `SquarePlacement.NamespacesInOrder` | pkg/square/builder.go:132-182 | the namespaces of a square are supported and lexicographically non-decreasing |
| `SquarePadding.OutsideIsPadding` | pkg/square/square.go:238-277 | every share of a square outside the transactions and the blobs is padding with zero content: reserved padding in front of the blobs, tail padding behind them, and between them padding in the namespace of the share before |
| `RowTrees.TreesTakeSquare` | pkg/wrapper/nmt_wrapper.go:94-115 | however an exported square is extended, the leaves of every row and every column carry namespaces in non-decreasing order, so that the trees take them |
| `RowTrees.LeafParts` | pkg/wrapper/nmt_wrapper.go:94-115 | a share of the original quarter is kept behind its own namespace, any other behind the parity namespace, which is not less than any |
| `BlobArea.BlobLoopFillsArea` | pkg/square/builder.go:148-182 | on valid blobs the blob loop has no error: padding stays within its bound and every write succeeds |
| `BlobArea.AreaLength` | pkg/square/builder.go:148-182 | the blob shares with their padding reach exactly from the first index to the end of the last blob |
| `NamespaceRange.GetShareRangeForNamespace` | pkg/shares/namespace.go:13-49 | the scan, with its error cases, as a function of the shares |
| `NamespaceRange.RangeIsExact` | pkg/shares/namespace.go:9-49 | on sorted shares the range holds a share if and only if the share has the namespace; without any it is the empty range |
| `NamespaceRange.RangeInSquare` | pkg/shares/namespace.go:9-49 | in every exported square the range of any namespace is exact |
| `Deconstruction.Deconstruct` | pkg/square/square.go:66-156 | the decoded transactions or the first error, for any shares |
| `Acceptance.DeconstructAccepts` | pkg/square/square.go:66-156 | any square but the empty one gives these transactions if and only if its transaction shares are in front, its PFB shares directly behind them, both parse, and every PFB gives a transaction |
| `Acceptance.UnwrapAccepts` | pkg/square/square.go:111-152 | a PFB gives a transaction if and only if it decodes, its sizes are found and its blobs can be read, and then it is their canonical encoding |
| `Acceptance.SizesAccepted` | pkg/square/square.go:116-133 | sizes are found if and only if the PFB has indexes and one message, a PFB with as many sizes |
| `Acceptance.ReadBlobAccepts` | pkg/square/square.go:135-147 | a blob is read if and only if its shares lie in the square and hold just that blob |
| `DeconstructTheorem.DeconstructExported` | pkg/square/square.go:66-156 | an exported square gives back the normal transactions in front of the first empty one and the canonical blob transactions, in order |
| `DeconstructTheorem.DeconstructUndoesConstruct` | pkg/square/square.go:52-156 | `Deconstruct(Construct(txs)) == txs` if and only if no normal transaction is empty and every blob transaction is canonically encoded; what comes back otherwise |
| `DeconstructTheorem.ConstructThenDeconstruct` | pkg/square/square.go:52-156 | running both operations gives the list back if and only if every transaction is recoverable |
| `DeconstructTheorem.AcceptedSplits` | pkg/square/builder.go:39-74 | an accepted list is normal transactions followed by blob transactions, and fits |
| `Locations.TxSpanIsExact` | pkg/square/builder.go:269-318 | the range of a transaction holds a share if and only if the share stores a byte of the delimited transaction in the exported square |
| `Locations.TxShareRange` | pkg/square/square.go:160-167 | the span in the square of the list, or the error of building it |
| `Locations.BlobShareRange` | pkg/square/square.go:171-189 | the range of an existing blob, and an error otherwise |
| `Locations.BlobSpanIsExact` | pkg/square/square.go:171-189 | the shares in that range of the exported square are exactly those of the blob |
| `Inclusion.CreateCommitment` | pkg/inclusion/commitment.go:20-76 | the commitment to the blob's namespaced shares, or why the blob is refused |
| `Inclusion.CommitmentsAgree` | pkg/inclusion/get_commit.go:13-31 | for every blob of an exported square the commitment read through the cacher equals the created one |
| `Binding.CommitmentBinds` | pkg/inclusion/commitment.go:20-76 | under hash functions without collisions two valid blobs have the same commitment if and only if they are the same blob, whatever their lengths |
| `Binding.SubtreeRootsBind` | pkg/inclusion/commitment.go:53-76 | lists of subtree roots are equal only for equal leaves cut into equal trees |
| `Inclusion.LeavesInSquare` | pkg/inclusion/commitment.go:53-66 | the leaves of a blob's shares in the square are the leaves that its commitment is created from |
| `Inclusion.TreeRowsExtend` | pkg/wrapper/nmt_wrapper.go:94-115 | what the row trees push for an extended square has those leaves in its original quarter |
| `Commitment.GetCommitment` | pkg/inclusion/get_commit.go:13-31 | for any caches: an error when the blob does not fit, otherwise the root over what is read at the ends of the paths that cover the aligned place with the mountain range, or the first error |
| `Commitment.CommitmentRead` | pkg/inclusion/get_commit.go:13-31 | from caches that hold the rows that is the commitment to the leaves at the aligned place in the left halves of the rows |
| `Commitment.PlaceInOriginal` | pkg/inclusion/get_commit.go:13-31 | those are the leaves of the original square when the place ends in it |
| `Commitment.PlaceReachesParity` | pkg/inclusion/get_commit.go:13-31 | otherwise a leaf of a row at or below the side is among them |
| `Commitment.UnalignedStartLeaves` | pkg/inclusion/get_commit.go:15-18 | a blob that fits but whose aligned place leaves the square |
| `Commitment.PathsFindCommitment` | pkg/inclusion/get_commit.go:18-30 | the i-th walk, through the left half of its row, finds the i-th root of the commitment's mountain range |
| `CommitmentPaths.CalculateCommitmentPaths` | pkg/inclusion/paths.go:14-45 | the paths lead, in order and without crossing a row, to subtrees whose sizes are the mountain range of the blob, with trees no wider than a row |
| `CommitmentPaths.PathsDiverge` | pkg/inclusion/paths.go:14-45 | otherwise the range of the first row is empty, and the search for its subtrees never returns |
| `CommitmentPaths.GenSubTreeRootPath` | pkg/inclusion/paths.go:52-64 | masking with shifted ones yields the bits of the position, highest first |
| `CommitmentPaths.PositionOfPath` | pkg/inclusion/paths.go:52-64 | that walk leads to the position it was made for |
| `Paths.CalculateSubTreeRootCoordinates` | pkg/inclusion/paths.go:106-171 | for every `start < end` the loop returns, and its nodes tile the range from left to right without gap or overlap, each maximal |
| `Paths.MaximalIsLargest` | pkg/inclusion/paths.go:97-99 | no node at the same place that is deep enough and fits is larger |
| `Paths.TilesAreMountains` | pkg/inclusion/paths.go:106-171 | from an aligned start the sizes of the tiles are the Merkle mountain range sizes |
| `Paths.EmptyRangeDiverges` | pkg/inclusion/paths.go:101-171 | for `end <= start` no number of the same iterations returns |
| `Mountain.MerkleMountainRangeSizes` | pkg/inclusion/commitment.go:96-115 | the sizes are those of the specification, and the loop ends |
| `Mountain.EmptyTreesDiverge` | pkg/inclusion/commitment.go:96-115 | with trees of size 0 the same iterations never cover anything |
| `Mountain.MountainsShape` | pkg/inclusion/commitment.go:90-115 | the sizes are non-increasing powers of two and add up to the total |
| `Mountain.MountainsSplit` | pkg/inclusion/commitment.go:96-115 | a range can be cut behind any number of full trees |
| `Nmt.WalkFindsSubtree` | pkg/inclusion/nmt_caching.go:53-75 | walking a complete cache from the root arrives at the root of the leaves under the path |
| `Nmt.WalkStep` | pkg/inclusion/nmt_caching.go:53-75 | a walk goes one step further if and only if the cache knows the node it has come to, and then to the child on that side |
| `Nmt.DescendIsSlice` | pkg/inclusion/nmt_caching.go:53-75 | those leaves are the contiguous run given by the node's position |
| `SubtreeCacher.SubTreeRootCacher.Visit` | pkg/inclusion/nmt_caching.go:37-46 | inner nodes are recorded, leaves are not |
| `SubtreeCacher.SubTreeRootCacher.ComputeRoot` | pkg/inclusion/nmt_caching.go:37-46 | computing a root leaves every inner node in the cache, if none collide |
| `SubtreeCacher.EdsSubTreeRootCacher.Constructor` | pkg/inclusion/nmt_caching.go:98-114 | a row gets a fresh cache, a column none |
| `SubtreeCacher.EdsSubTreeRootCacher.RowRoots` | pkg/inclusion/nmt_caching.go:98-114 | computing all row roots fills the caches of all rows |
| `SubtreeCacher.EdsSubTreeRootCacher.GetSubTreeRoot` | pkg/inclusion/nmt_caching.go:118-129 | the walk in the row's cache, or the right error |
| `CommitmentRules.BlobMinSquareSizeFits` | pkg/inclusion/blob_share_commitment_rules.go:77-79 | the side is a power of two and its square has room |
| `CommitmentRules.BlobMinSquareSizeLeast` | pkg/inclusion/blob_share_commitment_rules.go:77-79 | no smaller power of two has |
| `CommitmentRules.SquareSizeOfSquare` | pkg/da/data_availability_header.go:205-207 | the side is recovered from the number of shares |
| `CommitmentRules.SubTreeWidthIsPow2` | pkg/inclusion/blob_share_commitment_rules.go:86-103 | subtree widths are powers of two |
| `CommitmentRules.SubTreeWidthIsLeast` | pkg/inclusion/blob_share_commitment_rules.go:86-103 | the width is the least power of two with which at most threshold subtrees cover the shares, unless the side of the smallest square for the shares is less |
| `CommitmentRules.SubTreeWidthDividesSide` | pkg/inclusion/blob_share_commitment_rules.go:86-103 | the width of a blob that fits divides the side |
| `CommitmentRules.NextShareIndex` | pkg/inclusion/blob_share_commitment_rules.go:56-73 | the first multiple of the blob's width at or after the cursor |
| `CommitmentRules.BlobIndexesLayout` | pkg/inclusion/blob_share_commitment_rules.go:37-46 | consecutive blobs are aligned and disjoint |
| `CommitmentRules.BlobSharesUsedNonInteractiveDefaults` | pkg/inclusion/blob_share_commitment_rules.go:37-46 | the 32-bit indexes of the aligned layout and the shares it uses |
| `CommitmentRules.FitsInSquare` | pkg/inclusion/blob_share_commitment_rules.go:17-32 | true if and only if the aligned blobs end inside the square |
| `PowersOfTwo.RoundUpPowerOfTwo` | pkg/shares/powers_of_two.go:10-16 | the least power of two that is at least the input |
| `PowersOfTwo.RoundDownPowerOfTwo` | pkg/shares/powers_of_two.go:19-28 | the greatest power of two that is at most a positive input, an error otherwise |
| `PowersOfTwo.BitTrickDecidesPow2` | pkg/shares/powers_of_two.go:42-44 | the bit trick decides the property |
| `CompactSplitter.CompactShareSplitter.constructor` | pkg/shares/split_compact_shares.go:32-45 | no content |
| `CompactSplitter.CompactShareSplitter.WriteTx` | pkg/shares/split_compact_shares.go:49-98 | the delimited unit is appended to the content, its start recorded in the reserved bytes of its share, and its shares recorded under its key |
| `CompactSplitter.CompactShareSplitter.ShareRanges` | pkg/shares/split_compact_shares.go:141-158 | the recorded ranges, all moved by the offset |
| `CompactSplitter.RecordedRangeOf` | pkg/shares/split_compact_shares.go:49-64 | a unit without a later unit of the same key has the range of its own bytes recorded |
| `Locations.RecordedRangeIsExact` | pkg/shares/split_compact_shares.go:23-27 | that range holds exactly the shares of the export that store a byte of the unit |
| `CompactSplitter.CompactShareSplitter.StackPending` | pkg/shares/split_compact_shares.go:101-111 | a full pending share is finished, the content unchanged |
| `CompactSplitter.CompactShareSplitter.Export` | pkg/shares/split_compact_shares.go:114-139 | the shares of the zero-padded content with its length in the first share; a second export returns the same |
| `CompactSplitter.CompactShareSplitter.WriteSequenceLen` | pkg/shares/split_compact_shares.go:161-185 | only the length bytes of the first share change |
| `CompactSplitter.CompactShareSplitter.SequenceLength` | pkg/shares/split_compact_shares.go:192-203 | the 32-bit length of the content without padding |
| `CompactSplitter.CompactShareSplitter.Count` | pkg/shares/split_compact_shares.go:212-218 | the number of shares that the content needs |
| `CompactSplitter.SplitUnits` | pkg/shares/split_compact_shares.go:49-139 | writing all units and exporting gives the specified shares, as many as were counted |
| `CompactParser.ParseSplit` | pkg/shares/parse_compact_shares.go:9-86 | splitting and parsing gives the units in front of the first empty one, and so the whole list if and only if no unit is empty |
| `CompactParser.CutUnitLeftOut` | pkg/shares/parse_compact_shares.go:47-66 | a unit that is cut off at the end of the data is left out, the units before it are found |
| `Acceptance.ParseAccepts` | pkg/shares/parse_compact_shares.go:9-86 | for any shares: refused for an unsupported version if and only if some share has one; otherwise the content is extracted if and only if all namespaces are supported and the first pointer lies in its share |
| `CompactParser.ParseFromShare` | pkg/shares/parse_compact_shares.go:68-86 | parsing from a share in which a unit starts gives exactly the units that start there or later, up to an empty one |
| `CompactPointer.ParseFromPointer` | pkg/shares/shares.go:195-237 | a pointer that is not 0 is the byte index of the first unit that starts in the share, and parsing gives the units from it on |
| `CompactPointer.ParseFromZero` | pkg/shares/parse_compact_shares.go:68-86 | from a share with pointer 0 the content of the following shares is parsed from its first byte |
| `CompactPointer.ParseFromZeroAligned` | pkg/shares/parse_compact_shares.go:68-86 | when a unit starts with the next share, that gives the units from it on |
| `CompactPointer.ParseFromZeroExact` | pkg/shares/parse_compact_shares.go:68-86 | for all contents of units of these lengths that gives the units behind the share, if and only if no unit crosses the end of the share |
| `CompactPointer.SamePlaces` | pkg/shares/share_builder.go:124-152 | starts, pointers and crossings depend only on the lengths of the units |
| `CompactPointer.ParseFromZeroMisreads` | pkg/shares/parse_compact_shares.go:68-86 | a concrete crossing unit from which units are read that were never written |
| `CompactParser.ReservedZero` | pkg/shares/share_builder.go:124-152 | the reserved bytes are 0 if and only if no unit starts in the share |
| `CompactParser.WriteAfterExport` | pkg/shares/split_compact_shares.go:67-139 | a unit written after an export is found again, on the splitter and the parser themselves, if and only if the units before it fill their shares |
| `CompactParser.ParseCompactShares` | pkg/shares/parse_compact_shares.go:9-30 | version check, extraction and parsing as a function of the shares |
| `CompactParser.ParseRawData` | pkg/shares/parse_compact_shares.go:47-66 | the complete units at the front of the data |
| `CompactParser.ExtractRawData` | pkg/shares/parse_compact_shares.go:72-86 | the content from the first unit that starts in the first share |
| `ShareBuilder.Builder.constructor` | pkg/shares/share_builder.go:26-45 | a fresh share: namespace, info byte and empty length and reserved bytes |
| `ShareBuilder.Builder.AddData` | pkg/shares/share_builder.go:56-75 | as much as fits is appended, the rest returned |
| `ShareBuilder.Builder.MaybeWriteReservedBytes` | pkg/shares/share_builder.go:127-152 | the current position is recorded unless one already is |
| `ShareBuilder.Builder.WriteSequenceLen` | pkg/shares/share_builder.go:155-170 | the length bytes of a first share are overwritten, nothing else |
| `ShareBuilder.Builder.ZeroPadIfNecessary` | pkg/shares/share_builder.go:93-96 | zeros up to the share size, and how many |
| `Counter.CompactShareCounter.Add` | pkg/shares/counter.go:23-68 | counts the unit and its delimiter and returns the exact change of the size |
| `Counter.CompactShareCounter.Revert` | pkg/shares/counter.go:72-75 | the state before the last addition, also when repeated |
| `Counter.CompactShareCounter.Size` | pkg/shares/counter.go:78-83 | the number of shares for the bytes counted |
| `Counter.CounterMatchesSplitter` | pkg/shares/counter.go:9-83 | counter and splitter give the same number for every list of units |
| `Counter.SharesMonotone` | pkg/shares/counter.go:23-83 | pointwise longer units never need fewer shares |
| `Varint.ParseDelimited` | pkg/shares/utils.go:46-71 | the delimiter of a unit is parsed back, whatever follows |
| `Varint.PutIsVarint` | pkg/shares/utils.go:11-14 | a delimiter is the shortest varint whose seven-bit digits have the value |
| `Varint.ReadMeaning` | pkg/shares/utils.go:46-71 | reading succeeds if and only if the input begins with a varint that does not overflow, and gives the value of its digits |
| `Varint.ReadShort` | pkg/shares/utils.go:46-71 | a delimiter read from zero-extended input is no longer than the input, so cutting it off stays in range |
| `Blobs.SparseSharesNeeded` | pkg/shares/share_sequence.go:126-142 | for every 32-bit length but the largest the loop returns, with the least count whose wrapped capacity reaches the length |
| `Blobs.SharesNeededIsRight` | pkg/shares/share_sequence.go:126-142 | the count of the 32-bit loop is the right one if and only if the length is at most 4294967036, and never too small |
| `Blobs.LongestBlobDiverges` | pkg/shares/share_sequence.go:135-140 | for the largest 32-bit length the guard of the loop always holds |
| `SparseSplitter.SparseShareSplitter.Write` | pkg/shares/split_sparse_shares.go:26-69 | the blob's shares are appended, or the blob is refused without a change |
| `SparseSplitter.SparseShareSplitter.WriteNamespacePaddingShares` | pkg/shares/split_sparse_shares.go:75-101 | padding shares in the namespace of the last share are appended, or the right error |
| `SparseSplitter.NewPaddingShare` | pkg/shares/padding.go:16-33 | a sequence start of length 0 filled with zeros |
| `SparseParser.PaddingShareContent` | pkg/shares/padding.go:16-33 | what a padding share holds behind its header is zeros |
| `SparseSplitter.BlobSharesCount` | pkg/shares/split_sparse_shares.go:26-69 | a valid blob takes up as many shares as `SparseSharesNeeded` says |
| `SparseParser.ParseSparseShares` | pkg/shares/parse_sparse_shares.go:18-83 | the blobs in the shares or the first error |
| `SparseParser.ParseItems` | pkg/shares/parse_sparse_shares.go:18-83 | blobs with any namespace padding between them are parsed back exactly |
| `Acceptance.FoldAccepts` | pkg/shares/parse_sparse_shares.go:18-71 | any shares are grouped if and only if all have version 0 and a supported namespace and the first that is not padding is a start; every start gives one sequence |
| `Acceptance.TrimAccepts` | pkg/shares/parse_sparse_shares.go:73-83 | sequences are cut if and only if each holds as many bytes as its length, and then to just that |
| `Acceptance.PaddingNamespacesIgnored` | pkg/shares/shares.go:114-129 | shares in the two padding namespaces are ignored whatever they hold |
| `ShareSequences.ParseShares` | pkg/shares/parse.go:43-98 | the grouped, validated and filtered sequences or the first error |
| `ShareSequences.CompactSharesNeeded` | pkg/shares/share_sequence.go:106-122 | the number of compact shares for the length |
| `ShareSequences.CheckSequenceLen` | pkg/shares/share_sequence.go:49-101 | padding passes, other sequences must have as many shares as their length needs |
| `ShareSequences.GroupedBlocks` | pkg/shares/parse.go:43-74 | grouping the shares of well-formed sequences gives exactly those sequences |
| `Acceptance.GroupedExactly` | pkg/shares/parse.go:43-74 | any shares are grouped into sequences if and only if the sequences are well-formed and their shares, one after the other, are the given ones |
| `Acceptance.SequencesExactly` | pkg/shares/parse.go:43-98 | the same of `ParseShares` without filtering, where every sequence that is not padding must have as many shares as its length needs |
| `ShareSequenceTheorem.SquareParses` | pkg/shares/parse.go:43-98 | an exported square parses without error and, ignoring padding, into the sequence of the transactions, that of the PFBs and one per blob |
| `ShareSequenceTheorem.ParseSquare` | pkg/shares/parse.go:43-98 | the same of running `ParseShares` |
| `ShareSequenceTheorem.BlobIsGood` | pkg/shares/share_sequence.go:20-71 | a blob's sequence is valid, is not padding, and its raw data is the blob's data |
| `ShareSequenceTheorem.CompactIsGood` | pkg/shares/share_sequence.go:20-71 | the sequence of units is valid, is not padding, and its raw data is the delimited units |
| `ShareProof.NewShareInclusionProof` | pkg/proof/proof.go:59-166 | the collected shares are the slice of the square for the range, in order, from leaves of the original half only; the row roots match |
| `ShareProof.CollectedIsSlice` | pkg/proof/proof.go:106-152 | row by row the collected shares are the square from the start of the range on |
| `BlobWire.BlobTxSizeExact` | pkg/blob/blob.pb.go:298-342 | `Size` is the number of bytes of the encoding |
| `BlobWire.SovIsDelimLen` | pkg/blob/blob.pb.go:344-346 | the bit-length formula is the length of the varint |
| `BlobWire.EncodeVarintBlob` | pkg/blob/blob.pb.go:287-297 | the varint is written in front of the offset and nothing else is touched |
| `BlobWire.MarshalBlob` | pkg/blob/blob.pb.go:204-234 | the blob's encoding is written right in front of the end, as many bytes as its size |
| `BlobWire.MarshalToSizedBuffer` | pkg/blob/blob.pb.go:251-285 | writing back to front fills the buffer with exactly the encoding |
| `BlobRoundTrip.BlobTxRoundTrip` | pkg/blob/blob.go:58-90 | `UnmarshalBlobTx` undoes `MarshalBlobTx` for every non-empty list of blobs with 28-byte ids |
| `BlobRoundTrip.ReadBlobUint` | pkg/blob/blob.pb.go:447-484 | a number field of up to 64 bits is read by its low 32 bits |
| `WireFields.BlobTxEncodingIsFields` | pkg/blob/blob.pb.go:204-285 | the encoding is a list of keyed fields in order of their numbers, with no field for a zero or empty value |
| `BlobUnmarshal.ReadVarint` | pkg/blob/blob.pb.go:358-373 | the shifting loop reads the varint or reports overflow or end of input |
| `BlobUnmarshal.VarintMeaning` | pkg/blob/blob.pb.go:358-373 | reading succeeds if and only if at most ten bytes form a varint, and gives the value of their digits |
| `BlobUnmarshal.SkipBlob` | pkg/blob/blob.pb.go:656-733 | the length of an unknown field, with nested groups, under 64-bit arithmetic |
| `WireFields.SkipFieldIsExact` | pkg/blob/blob.pb.go:656-733 | an unknown field with a varint, eight bytes, a delimited payload, four bytes or a group of such fields is skipped to exactly the index behind it |
| `WireFields.UnknownFieldsAtEnd` | pkg/blob/blob.pb.go:506-655 | unknown fields at the end of a blob transaction change neither what is read nor whether it is recognised |
| `WireFields.UnknownFieldsIgnored` | pkg/blob/blob.pb.go:506-655 | unknown fields in front of, between and behind encodings are ignored: what follows is read as if they were not there |
| `WireFields.ConcatenationMerges` | pkg/blob/blob.pb.go:506-655 | unmarshalling two encodings one after the other continues with the second where the first ended |
| `WireFields.WrongWireTypeRefused` | pkg/blob/blob.pb.go:350-655 | a known field with a wrong wire type is refused, in blobs and in blob transactions |
| `WireFields.BadKeyRefused` | pkg/blob/blob.pb.go:370-378 | a field number of 0 or the end of a group that was not started is refused |
| `BlobUnmarshal.ReadBlobField` | pkg/blob/blob.pb.go:353-500 | one field of a blob, read with the varint loop, or the first error |
| `BlobUnmarshal.ReadTxField` | pkg/blob/blob.pb.go:509-650 | one field of a blob transaction, with nested blobs, or the first error |
| `BlobUnmarshal.UnmarshalBlob` | pkg/blob/blob.pb.go:350-505 | terminates on every input; success means that the whole input was read |
| `BlobUnmarshal.BlobField` | pkg/blob/blob.pb.go:353-500 | every field makes progress and stays in the buffer |
| `BlobUnmarshal.Unmarshal` | pkg/blob/blob.pb.go:506-655 | the same for blob transactions |
| `BlobUnmarshal.UnmarshalBlobTx` | pkg/blob/blob.go:58-76 | the decoded transaction if type id, blob count and namespace ids are right |
| `Sorting.StableSortSorts` | pkg/square/builder.go:132-137 | the result is sorted and a permutation |
| `Sorting.StableSortIsStable` | pkg/square/builder.go:132-137 | elements with equal keys keep their order |
| `Sorting.SortPrefixFirst` | pkg/square/builder.go:92-137 | sorting before more elements are appended does not change the final order |
| `Namespaces.NamespaceOrder` | pkg/namespace/consts.go:33-83 | reserved and user namespaces in the order in which they occur in a square |
| `Namespaces.UserNamespaces` | pkg/namespace/namespace.go:107-118 | a supported namespace is open to users if and only if it differs from all reserved ones before its last byte |
| `Namespaces.SupportedIsNewV0` | pkg/namespace/namespace.go:41-105 | the supported namespaces of version 0 are exactly those that `NewV0` makes, one for every ten-byte id |
| `Namespaces.NewV0IsSupported` | pkg/namespace/namespace.go:41-60 | `NewV0` refuses exactly the ids longer than ten bytes and pads the others on the left |
| `Namespaces.ReservedAreSupported` | pkg/namespace/namespace.go:72-105 | the reserved namespaces pass validation and are distinct |

## Left out

- Reed-Solomon extension, the nmt library and SHA-256 are foreign code; rows are binary trees over uninterpreted hashes.
- `IndexWrapper`, `MsgPayForBlobs` and transaction decoding are foreign code and appear as the arguments described above.
- `ValidateBlobTx`, ante handlers, `FilterTxs`, `PrepareProposal` and `ProcessProposal` depend on state that is not modelled.
- ShareProof.NewShareInclusionProof: has the rows, leaf ranges, row roots and shares of the result; the Merkle and namespace proofs next to them come from foreign libraries.
- CompactSplitter.CompactShareSplitter.constructor: takes the two compact namespaces and share version 0, which is what every caller in the source passes; other namespaces give a splitter on which every write fails.
- Commitment.GetCommitment: excludes row roots whose half number is not a power of two, which no square has, blobs of no shares at a start where the source's path loop runs for ever (`CommitmentPaths.PathsReturn`, `CommitmentPaths.PathsDiverge`), and caches with a missing row, on which the source panics.
- CommitmentPaths.CalculateCommitmentPaths: excludes the same blobs of no shares.
- Mountain.MerkleMountainRangeSizes: excludes trees of size 0 for a total that is not 0, on which the source runs for ever (`Mountain.EmptyTreesDiverge`).
- Blobs.SparseSharesNeeded: excludes the largest 32-bit length, on which the source runs for ever.
- SquareBuilder.MakeElement: excludes data of such a length modulo 2^32, for the same reason.
- SquareBuilder.Builder.AppendBlobTx: excludes transactions with a blob of such a length.
- Square.NewBuilder: excludes transactions with a blob of such a length.
- Square.Construct: excludes transactions with a blob of such a length.
- Square.Build: excludes transactions with a blob of such a length.
- Locations.TxShareRange: excludes transactions with a blob of such a length.
- Locations.BlobShareRange: excludes transactions with a blob of such a length.
- SquareAgreement.ProposerAndValidatorAgree: excludes transactions with a blob of such a length.
- SquareAgreement.BuildThenConstruct: excludes transactions with a blob of such a length.
- SquareAgreement.ExportBetweenAppends: excludes appends with a blob of such a length.
- Deconstruction.Deconstruct: excludes squares with a PFB for which the decoder reports such a blob size.
- ShareSequences.ParseShares: excludes shares that form a sparse sequence of such a length.
- ShareSequences.CheckSequenceLen: excludes sparse sequences of such a length.
- SquareTheorems.ExportSucceeds: takes, like the theorems built on it, the limit on the side to be at most the upper bound for the app version, as the callers do.
- BlobUnmarshal.Unmarshal: takes inputs shorter than 2^63 bytes, which is all that Go can hold.
- Square roots and logarithms are exact integer functions; the source computes them in floating point on small integers.
- Panics (an unsupported namespace in a raw-data accessor, a slice out of range in `Deconstruct` or `parseSparseShares`) are error values; share versions above 127 are not modelled.
- Aliasing and capacity of Go slices, and mutexes, are not modelled: byte strings are values and the cacher is sequential.
- Or-ing seven-bit groups into a varint is modelled as adding them, which is the same because the groups do not overlap.
- The generated code in `pkg/proof/proof.pb.go` and `api/` repeats the shape of the blob codec.
- `Blob.Sort` sorts a caller's blobs by namespace, `Square.WrappedPFBs` and `GetWrappedPFB` return the PFBs of a square or builder, `AvailableBytesFrom*` give the capacity of a number of shares, and `RoundUpPowerOfTwoStrict` gives the next larger power of two.
