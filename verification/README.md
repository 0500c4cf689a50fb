# Verified model of the checkpointed local log

This project models the append-only log in three layers and proves what each is
for.  `dafny verify dfyconfig.toml` checks everything.

**The Merkle Mountain Range.** Hashes are terms: a leaf, interior or bag hash
has its own constructor, because the three preimages have different widths, so
collision resistance is injectivity; a prover may supply any term, and any
other 32-byte string is a `Raw` one.  The specification is a forest of perfect
trees (`Forest.dfy`), and the key fact about positions is a closed form: the
height of a position is its distance from the leaf before it (`Positions.dfy`).
The loops of the two independent formulations, the core's and the profile's,
are proved against that.  The verifiers are then *exact*: against the root of a
log, inclusion, consistency and range verification accept precisely the log's
own data, each with precisely one proof, which is the one the prover makes at
that size from the array however far it has grown (one up to the spelling of
hex digests: the parser takes upper case and embedded white space too).
From this follow the agreement of the two consistency verifiers, the safety of
a chain of checkpoints over every registration history, the size of range
proofs, and what the older draft's de-duplication by value does on honest input.

**The durable state and its clients.** `Engine.dfy` is the compare-and-set
state (`EngineExact.dfy` says in elementary terms what it takes and refuses), `Runner.dfy` the checkpoint runner, `Delivery.dfy` the witness delivery
runner.  `System.dfy` interleaves any number of both: appends, loads, scans,
commits, collections, predecessor checks and deliveries are separate steps, a
submission's outcome is arbitrary, and the theorems hold after every sequence
of steps.  `CatchUp.dfy` runs one runner's catch-up loop among arbitrary steps
of the others; `Loaders.dfy` compares what the Python and the Go runner accept
when they load.  `Wire.dfy` and `Journal.dfy` are the JSONL journal down to bytes and
short writes.  `Lines.dfy`, `Ledger.dfy` and `Segments.dfy` are the ledger: segment files,
the two derived indexes, crash recovery, rotation and segment manifests.

**Parsers and verifiers.** `Cbor.dfy` is deterministic CBOR (section 4.2.1 of
RFC 8949), `ReceiptCbor.dfy` the encoding rule for witness receipts as a
decoder and as a byte walk, `Receipt.dfy` the Merkle inclusion verifier of RFC
9162 on 64-bit integers.

## What is modelled how

- A signature is the name of the key that made it, and a checkpoint statement
  is the record of its claims; a statement's bytes are equal when the records
  are.  A segment's SHA-256 is the segment's bytes.
- Files are byte sequences.  What the disk does, what a witness answers, and
  which step comes next are parameters, so every statement is about all of them.
- Times are integers in milliseconds.  Base64, time text and JSON text are codecs
  of which only two things are used: they read back what the journal writes
  with them, and JSON text holds no newline byte.
- Text in CBOR is its UTF-8 bytes.  Well-formedness is by the byte patterns of section
  4 of RFC 3629, and is proved to be encoding by the arithmetic of its section 3.
- 64-bit integers are a `newtype` where overflow is the question (`Receipt.dfy`,
  `BackoffInt64`); elsewhere the originals use unbounded integers or check the
  bound themselves, and the bound is in the model.

## Where the code differs from its own description

- `verify_segment` says a segment's records are bound to the MMR "at
  `mmr_size`", but the manifest's `mmr_size` is never compared with the range
  proof's size, and its `bytes` is never looked at.  `Segments.WrongSizesAccepted`
  is an accepted manifest in which both are wrong.  `Segments.AcceptedSizes` is the
  exact condition: the promise holds of an accepted manifest if and only if its
  `mmr_size` equals its proof's size.  Whatever it holds, the records are those
  at the proof's size, which is pinned to the last seq.
- The two checkpoint runners do not accept the same stored states.  The Python
  loader does not check that interior nodes hash their children, nor that the
  stored statement's predecessor is smaller and named in full; the Go loader does.
  The Go verifier does not compare the sizes in a statement's proof with the sizes
  the statement claims; the Python one does.  `Loaders.LoadersCompare` and
  `Loaders.VerifiersCompare` say that, for statements as records of their claims,
  this is the whole difference; `Loaders.UnlinkedLoads` is a state in it, and
  `Loaders.RunLoads` shows that no run of the runners below 2^50 nodes ever stores
  one.  How the statement's bytes are encoded is outside that comparison.
- A closed journal may already hold the operation that failed.  When all bytes of
  its line were written, and both the sync and the truncation failed, the caller
  sees an error and the next open finds the operation done; in every other case
  it finds the state before (`JournalSpec.ClosingMutate`).
- A rotation is over when the store manifest has been saved, but a process whose
  save failed goes on appending to the new segment, which the manifest on disk
  does not list.  A restart then makes the old segment active again
  (`Segments.StrayRun`), and once that one gets another record it can never be
  closed under a manifest that verifies (`Segments.AstrayUnverifiable`).  `Segments.RestartStrays` is the
  exact condition, and without it the segments tile the log after every run
  (`Segments.RunTiles`).

## Model

| member | source | states |
|---|---|---|
| `Positions.RunIn` | `python/checkpoint/core.py:274-301` | inside a perfect tree, the positions from leaf `f`'s to the next leaf's have heights 0, 1, 2, ...: the height of a position is its distance from the leaf before it |
| `Positions.HeightClosed` | `python/checkpoint/core.py:274-301` | the same for every position: height = position minus node count of the leaves strictly before it |
| `Positions.CompleteIff` | `python/checkpoint/core.py:304-330` | a size is complete exactly when it is 2f - popcount(f) for some leaf count f |
| `Positions.CompleteIffLeafNext` | `cll-02-vectors/profile_main.py:119-123` | a size is complete exactly when the position at it has height 0 |
| `Positions.Children` | `python/checkpoint/core.py:374-395` | where the two children of an interior position are, their heights and the first leaf under each |
| `Positions.SpanIn` | `python/checkpoint/core.py:298-301` | a subtree of height g that ends at a leaf run holds 2^g leaves and starts at the node count of the leaves before it |
| `Positions.MountainFacts` | `python/checkpoint/core.py:304-330` | each peak's height, that mountains are contiguous, heights fall strictly, and the last peak ends the array |
| `Positions.MountainCount` | `cll-02-vectors/profile_main.py:201-224` | there are as many mountains as one bits in the leaf count |
| `Positions.GreedyIsMountains` | `python/checkpoint/core.py:304-330` | taking the largest fitting mountain again and again from a complete size gives the one bits of its leaf count |
| `Positions.CompleteStep` | `python/log/engine.py:101-114` | a size is complete exactly when what is left after its largest mountain is complete and smaller than that mountain |
| `Bits.PeakHeightsAreBits` | `python/checkpoint/core.py:304-312` | a log of f leaves has a peak of height k exactly when bit k of f is set |
| `Bits.SplitMountains` | `cll-02-vectors/profile_main.py:226-258` | what the highest differing bit of two leaf counts means: mountains above it are shared, all lower old ones lie inside the new mountain at it |
| `CorePositions.HeightAt` | `python/checkpoint/core.py:274-295` | the core's descent finds the height |
| `CorePositions.PeakPositions` | `python/checkpoint/core.py:304-330` | accepts exactly the complete sizes below 2^50 and returns the peak positions of their mountains |
| `CorePositions.LeafCount` | `python/checkpoint/core.py:333-336` | accepts exactly those sizes and inverts the node count |
| `CorePositions.LeafIndexToPos` | `python/checkpoint/core.py:339-345` | the position of a leaf: height 0, and the leaf before it is that one |
| `CorePositions.PosToLeafIndex` | `python/checkpoint/core.py:348-352` | accepts exactly leaf positions below 2^50 and inverts the previous row |
| `EnginePositions.MmrLeafCount` | `python/log/engine.py:101-114` | not None exactly for complete sizes, of any magnitude, and inverts the node count |
| `ProfilePositions.IndexHeight` | `cll-02-vectors/profile_main.py:83-87` | the bit-jumping loop finds the same height as the core's descent, at every position |
| `ProfilePositions.PeakPositions` | `cll-02-vectors/profile_main.py:90-99` | the profile's peaks are the core's on complete sizes and the greedy mountains on all others |
| `ProfilePositions.LeafCount` | `cll-02-vectors/profile_main.py:102-112` | the leaves of the largest complete MMR that fits |
| `ProfilePositions.IsComplete` | `cll-02-vectors/profile_main.py:119-123` | decides completeness |
| `Forest.ForestIsMmr` | `python/checkpoint/core.py:367-398` | the post-order walk of the forest over the leaves obeys the local rule: every interior node hashes its position and its two children |
| `Forest.MmrIffForest` | `go/mmr/tree.go:68-94` | an array obeys the local rule over given leaves exactly when it is that forest |
| `Forest.ForestPrefix` | `python/checkpoint/core.py:371-374` | nodes are write-once: an earlier log's array is a prefix of a later one's |
| `AppendSpec.AppendIsForest` | `python/checkpoint/core.py:367-398` | adding a leaf and then parents while the next position is interior turns the forest over L into the forest over L + [leaf] |
| `AppendSpec.TrailMerge` | `python/checkpoint/core.py:387-395` | the core's stopping condition (the last unmerged peak has the current height) and the profile's (the next position is higher) agree at every step |
| `Append.AddLeaf` | `python/checkpoint/core.py:367-398` | the core's append: fails exactly on incomplete or too large sizes, and otherwise grows the array by the climb |
| `Append.AddLeafHash` | `cll-02-vectors/profile_main.py:148-156` | the profile's append on any array, complete or not: the given leaf, then parents while the next position is higher; on a complete array it is the core's climb |
| `Append.ProfileClimbIsClimb` | `python/checkpoint/core.py:387-395` | the profile's loop, which looks at the next position's height, and the core's, which follows the mountains, grow every array in the same way |
| `Append.RestoreTree` | `go/mmr/tree.go:68-94` | accepts an array exactly when it is the forest built from its own height-0 nodes |
| `Append.NodeStore.AppendNodes` | `python/checkpoint/store.py:29-30` | the node store grows by exactly the given hashes |
| `Paths.LocatePath` | `python/checkpoint/core.py:422-448` | the top-down walk returns the sibling path from the target up to the root |
| `Paths.FoldExact` | `python/checkpoint/core.py:543-561` | inside a true tree, a start hash and witnesses fold to the root exactly when both are the tree's own |
| `Accumulators.RootFromPeaks` | `python/checkpoint/core.py:146-173` | the pop-two loop computes the right-to-left bag |
| `Accumulators.BagInjective` | `python/checkpoint/core.py:146-173` | peak lists of equal length with one bagged root are equal |
| `Accumulators.EarlierAccumulator` | `python/checkpoint/index.py:192-210` | peaks at any earlier size keep their positions and hashes after any growth |
| `Inclusion.FindContainingPeak` | `python/checkpoint/core.py:411-419` | the index of the mountain that spans a position, -1 exactly past the end |
| `Inclusion.VerifyInclusion` | `python/checkpoint/core.py:502-566` | returns true exactly for the proofs the predicate `Accepts` describes |
| `Inclusion.AcceptedArguments` | `python/checkpoint/core.py:502-530` | whatever the root, nothing is accepted but a complete size below 2^50, an index within it, and a proof made out for both |
| `Inclusion.Prove` | `python/checkpoint/core.py:478-499` | succeeds exactly on valid arguments and returns the honest proof |
| `Inclusion.InclusionExact` | `python/checkpoint/core.py:502-566` | against the root of L at its size, exactly the body L[k] is accepted at index k, with exactly one proof, the honest one |
| `Inclusion.HonestFromGrown` | `python/checkpoint/index.py:217-221` | a proof for an earlier size, read from an array that has grown since, is the proof read when the log had that size |
| `Inclusion.InclusionExactAt` | `python/checkpoint/index.py:217-221` | against the root of L's first f entries, exactly L[k] is accepted at k, with exactly the proof read from the array of all of L |
| `Inclusion.ProvedIsAccepted` | `python/checkpoint/core.py:478-499` | whatever the prover returns over L's array, at any size it accepts, verifies against the root of L's prefix of that size |
| `Consistency.VerifyConsistency` | `python/checkpoint/core.py:623-694` | returns true exactly for the proofs the predicate `Accepts` describes |
| `Consistency.AcceptedArguments` | `python/checkpoint/core.py:623-650` | whatever the roots, nothing is accepted but complete sizes below 2^50, the first not above the second, and a proof made out for both |
| `Consistency.CheckPeaks` | `python/checkpoint/core.py:670-692` | the loop over old peaks: every one must fold into the new peak that contains it |
| `Consistency.ProveConsistency` | `python/checkpoint/core.py:589-620` | succeeds exactly on valid sizes and returns the honest proof |
| `Consistency.PeaksProvenExact` | `python/checkpoint/core.py:670-692` | against the true new peaks, old peaks and witnesses are proven exactly when they are the earlier log's accumulator and the true siblings |
| `Consistency.ConsistencyExact` | `python/checkpoint/core.py:623-694` | against the root of L at its size, exactly the roots of prefixes of L at their sizes are accepted, each with exactly one proof, the honest one |
| `Consistency.HonestFromGrown` | `python/checkpoint/index.py:232-237` | a consistency proof between two earlier sizes does not depend on how far the array has grown since |
| `Consistency.ConsistencyExactAt` | `python/checkpoint/index.py:232-237` | against the root of L's first f entries, exactly the roots of shorter prefixes are accepted, each with exactly the proof read from the array of all of L |
| `Consistency.ProvedIsAccepted` | `python/checkpoint/core.py:589-620` | whatever the prover returns over L's array, for any two sizes it accepts, verifies against the roots of L's prefixes of those sizes |
| `Range.ProveRange` | `python/checkpoint/core.py:715-773` | succeeds exactly on valid ranges and returns the hashes of the maximal subtrees outside the range |
| `Range.ReconstructRangeSubtree` | `python/checkpoint/core.py:776-802` | rebuilds a subtree's hash from bodies and witnesses, consuming witnesses in order, down to the leaves |
| `Range.VerifyRange` | `python/checkpoint/core.py:805-872` | returns true exactly for the proofs the predicate `Accepts` describes |
| `Range.AcceptedArguments` | `python/checkpoint/core.py:805-835` | whatever the root, nothing is accepted but a complete size below 2^50, a range within it, as many bodies, and a proof made out for them |
| `Range.RebuildExact` | `python/checkpoint/core.py:776-802` | a subtree rebuilds to its true hash exactly from the true bodies and the true siblings, although the prover skips covered subtrees and the verifier does not |
| `Range.RangeExact` | `python/checkpoint/core.py:715-872` | against the root of L at its size, exactly the bodies L[from..to] are accepted, with exactly one proof and every witness consumed |
| `Range.HonestFromGrown` | `python/checkpoint/index.py:223-230` | a range proof at an earlier size does not depend on how far the array has grown since |
| `Range.RangeExactAt` | `python/checkpoint/index.py:223-230` | against the root of L's first f entries, exactly the bodies of the range are accepted, with exactly the proof read from the array of all of L |
| `RangeSize.AllSiblingsSplit` | `python/checkpoint/core.py:715-773` | a proof's witnesses are those left of the range followed by those right of it |
| `RangeSize.WitnessShape` | `go/mmr/tree.go:289-308` | the left witnesses are the accumulator of the first `from` leaves, popcount(from) of them, and the total is at most popcount(from) + 2 * bit length of the leaf count |
| `Upward.UpIsPath` | `cll-02-vectors/profile_main.py:161-175` | the profile's bottom-up path, which knows no root, is the core's top-down path |
| `Upward.InclusionProofPath` | `cll-02-vectors/profile_main.py:161-175` | for every start and every end, complete or not: the sibling positions of as many upward steps as it takes to leave the array |
| `Upward.StopsAtPeak` | `cll-02-vectors/profile_main.py:161-175` | in a complete array those are the steps up to the containing peak, and the path is the core's top-down path |
| `Upward.IncludedRoot` | `cll-02-vectors/profile_main.py:178-189` | the profile's fold from a node upwards |
| `Upward.FoldUpIsFold` | `cll-02-vectors/profile_main.py:178-189` | it equals the core's fold along the same path |
| `ProfileConsistency.ConsistentRoots` | `cll-02-vectors/profile_main.py:201-258` | fails exactly when lengths or paths do not fit or paths to the split peak disagree; otherwise returns the shared peaks and the split peak |
| `ProfileConsistency.VerifyAccumulator` | `cll-02-vectors/profile_main.py:261-277` | the accumulator for the new size, and exactly when there is one |
| `ProfileConsistency.AccumulatorExists` | `cll-02-vectors/profile_main.py:201-277` | there is one exactly for a larger complete size, paths that fit and agree at the split peak, and right peaks for the rest of its peaks |
| `ProfileConsistency.VerifiersAgree` | `python/checkpoint/core.py:670-692` | for complete sizes a < b: the core accepts old peaks, witnesses and new peaks exactly when the profile, on the same paths and some right peaks, yields those new peaks |
| `Claims.CheckClaims` | `cll-02-vectors/cll02.py:250-295` | returns the error of the first check that fails, in the order of the checks; the decoder's own code for a proof that does not decode |
| `Claims.NoFailure` | `cll-02-vectors/cll02.py:250-295` | no check fails exactly on the checkpoints the predicate `Passes` describes: sizes, commitments and the step from the previous accumulator to the new one |
| `Claims.FailureExact` | `cll-02-vectors/cll02.py:250-295` | every code with its condition over the claims, given that the checks before it pass: sizes as node counts, commitments as long as the leaf count has one bits, and the codes about the proof |
| `Claims.RegistrationContinuity` | `cll-02-vectors/cll02.py:298-309` | first-seen, continuous or refused, by the last registered size and commitment |
| `Claims.HonestPasses` | `cll-02-vectors/cll02.py:250-295` | every honest growth step has right peaks with which its checkpoint passes |
| `Claims.ChainSafety` | `cll-02-vectors/cll02.py:250-309` | whatever was submitted: if the last commitment registered for a log is the accumulator of L, every earlier one is the accumulator of a prefix of L, steps without growth included |
| `Draft03.ConsistentRoots` | `mmr-profile-vectors/draft03.py:293-305` | folds every origin peak, of the empty origin log too, dropping a value equal to the one before |
| `Draft03.ConsistentAccumulator` | `mmr-profile-vectors/draft03.py:321-327` | those roots followed by the right peaks |
| `Draft03.ResultExact` | `mmr-profile-vectors/draft03.py:321-327` | there is a result exactly for two complete sizes, a proof for every old peak, and as many peaks in all as the new size has |
| `Draft03.PeaksDistinct` | `mmr-profile-vectors/draft03.py:293-305` | neighbouring peaks differ as values if the lower one is interior or the leaves are tagged, so de-duplication by value drops only repeated proofs of one peak |
| `Draft03.HonestAccumulator` | `mmr-profile-vectors/draft03.py:293-327` | on honest proofs the value de-duplication yields the true accumulator, as the newer text does, for tagged and untagged leaves alike |
| `Engine.NewRows` | `python/log/engine.py:343-352` | every row added is a row of the proposal whose key is not stored yet |
| `Engine.NewRowsExact` | `python/log/engine.py:343-352` | the n-th row added is the n-th row of the proposal whose key is not stored: every such row, once, in order, and no other |
| `Engine.ApplyKeepsValid` | `python/log/engine.py:355-373` | a commit on a valid state leaves a valid state; nodes and rows stored before come first, unchanged |
| `EngineExact.MetadataExact` | `python/log/engine.py:240-298` | the header rules of a state, spelt out: nodes are those of as many leaves as are indexed, the checkpoint lies within, rows are within range and no two have the same key |
| `EngineExact.CommitExact` | `python/log/engine.py:317-373` | exactly when a commit is taken, and which error it has otherwise: contention on a stale caller before anything else; invalid on a malformed or shrinking state; contention on a checkpoint lost, moved back or changed at its size, or a stored row changing checkpoint |
| `Engine.AppliedIsProposed` | `python/log/engine.py:355-373` | what is stored is the proposal, except that stored rows are kept and only new keys added |
| `Engine.DeltaKeepsValid` | `python/log/engine.py:376-400` | a replayed delta leaves a valid state |
| `EngineExact.DeltaExact` | `python/log/engine.py:376-400` | exactly when a replayed delta is taken, which error it has otherwise, and every field of the result |
| `Engine.DeltaReproduces` | `python/log/engine.py:376-400` | replaying the delta of a commit reproduces the commit exactly |
| `Engine.FirstWithValue` | `python/log/engine.py:463-474` | the value index finds the entry with a value |
| `Engine.Engine.Append` | `python/log/engine.py:463-474` | idempotent by value, dense sequence numbers, refused at the portable limit |
| `EngineExact.AppendExact` | `python/log/engine.py:463-474` | an entry with the value is returned as it is and nothing changes; otherwise one entry is added at the end with the next seq, unless the log is full |
| `Engine.Engine.ReplayEntry` | `python/log/engine.py:476-484` | accepts exactly the next dense entry with a new value |
| `EngineExact.NextExact` | `python/log/engine.py:476-484` | the entry accepted: the next seq within the portable range, and a value that no entry has |
| `Engine.Engine.GetEntry` | `python/log/engine.py:486-490` | the entry with a value, not found exactly when there is none |
| `Engine.Engine.ScanEntries` | `python/log/engine.py:492-494` | the entries after a sequence number, at most the limit, on valid arguments only |
| `EngineExact.ScanExact` | `python/log/engine.py:492-494` | which arguments are refused, how many entries come back, and which |
| `Engine.Engine.CommitCll` | `python/log/engine.py:496-497` | compare-and-set on size and checkpoint bytes; the state is untouched on every error |
| `Engine.Engine.CommitCllDelta` | `python/log/engine.py:499-500` | the same for a journal delta |
| `Engine.Engine.CommitWitness` | `python/log/engine.py:533-545` | replaces one row if attempts and checkpoint are as expected, and nothing else |
| `EngineExact.WitnessExact` | `python/log/engine.py:403-417` | invalid exactly on a row or attempts out of range; taken exactly when a stored row has the same key, the expected attempts and the same checkpoint, and then that row is replaced |
| `Engine.Engine.Restore` | `python/log/engine.py:456-461` | forgets the entries after a snapshot and brings its state back, value index included |
| `Statements.VerifyStatement` | `python/checkpoint/cose_wire.py:563-682` | true exactly for statements signed by their own key whose consistency proof verifies, or that name no predecessor |
| `Statements.StatementExact` | `python/checkpoint/cose_wire.py:563-682` | against a log whose size and root it names, a statement verifies exactly when its own key signed it, it names the log, and it has no predecessor and no proof, or claims a prefix of the log with the one honest proof |
| `RunnerSpec.AddEntriesTrue` | `python/checkpoint/runner.py:259-267` | indexing any batch gives the forest over all entries so far |
| `RunnerSpec.AddEntriesExact` | `python/checkpoint/runner.py:259-267` | indexing fails exactly on a batch whose seqs do not go on where the index ends, or when the array is full |
| `RunnerSpec.SignedTrue` | `python/checkpoint/runner.py:278-300` | what the runner signs over true nodes verifies, carries the true peaks and succeeds the checkpoint before it |
| `RunnerSpec.CanSignExact` | `python/checkpoint/runner.py:278-300` | signing is possible exactly over a complete array below 2^50, after a complete non-empty earlier size if there is one |
| `RunnerSpec.AdvanceTrue` | `python/checkpoint/runner.py:253-317` | every proposal made from a true state and a true batch is a true state: nodes, pending time, checkpoint and queued rows |
| `RunnerSpec.SignsExactly` | `python/checkpoint/runner.py:268-305` | a pass signs if and only if entries after the last covered one are indexed and they are at least the cadence's number or the first of them is at least the cadence's age old; it then queues one fresh row per witness, and otherwise leaves checkpoint and rows alone |
| `RunnerSpec.TrueStateLoads` | `python/checkpoint/runner.py:215-251` | a state cached after a commit is one that a fresh load accepts |
| `RunnerSpec.QueueIsNew` | `python/checkpoint/runner.py:301-303` | the rows queued for a new checkpoint have keys no stored row has |
| `RunnerSpec.PassProgress` | `python/checkpoint/runner.py:268-305` | a pass that changes nothing found every entry indexed and nothing due; one that changes something leaves nothing due at its time |
| `RunnerSpec.NotDueIsUpToDate` | `python/checkpoint/runner.py:268-274` | nothing left to index and nothing due means: fewer entries than the cadence's number are uncheckpointed, and the first of them is younger than its age |
| `RunnerSpec.SoundPass` | `python/checkpoint/runner.py:253-317` | on a sound log a pass cannot fail, and what it proposes commits |
| `Loaders.LoadersCompare` | `go/checkpoint/runner.go:127-145` | below 2^50 nodes and for statements as records of their claims: the Python loader accepts a state in which interior nodes hash their children and the stored statement's predecessor is smaller and named in full, if and only if the Go loader accepts it and the statement's proof has the claimed sizes |
| `Loaders.VerifiersCompare` | `go/checkpoint/checkpoint.go:180-280` | for statements as records of their claims: the Python verifier accepts one whose predecessor is smaller and named in full, if and only if the Go verifier accepts it and its proof has the claimed sizes |
| `Loaders.UnlinkedLoads` | `python/checkpoint/runner.py:215-227` | a state the Python loader accepts and the Go loader refuses: a node over two leaves that is not their hash |
| `Loaders.RunLoads` | `go/checkpoint/runner.go:233-259` | after every run of runners and deliveries, below 2^50 nodes, both loaders accept the stored state |
| `Runner.CheckpointRunner.Load` | `python/checkpoint/runner.py:215-251` | succeeds exactly on states whose size, index and stored checkpoint are consistent, and rebuilds the node store |
| `Runner.CheckpointRunner.VerifyCheckpoint` | `python/checkpoint/runner.py:228-251` | the checks on the stored checkpoint |
| `Runner.CheckpointRunner.IndexBatch` | `python/checkpoint/runner.py:259-267` | adds a batch to the node store, or reports a gap or a bad size |
| `Runner.CheckpointRunner.SignCheckpoint` | `python/checkpoint/runner.py:278-300` | signs exactly when sizes and the predecessor allow it |
| `Runner.CheckpointRunner.AdvanceOnce` | `python/checkpoint/runner.py:253-317` | one pass on the cached state, committed by compare-and-set; on a true state it is what the entries say (`Advanced`): indexed to the end or by one scan, signed exactly when the cadence is met |
| `Runner.CheckpointRunner.RunOnce` | `python/checkpoint/runner.py:186-191` | one pass from a fresh load |
| `Runner.CheckpointRunner.CatchUp` | `python/checkpoint/runner.py:193-213` | with the store to itself: ends with every entry indexed and nothing due, after at most max(1, ceil(k / scan limit)) commits; on a sound log it never fails, and at its end fewer entries than the cadence's number are uncheckpointed and the first of them is younger than its age |
| `WitnessRows.CommitRows` | `python/log/engine.py:343-373` | a checkpoint commit only adds rows, and covers every row of the committer's copy |
| `WitnessRows.DeliveryRows` | `python/log/engine.py:403-417` | a delivery commit succeeds only while its item is still the stored row, and changes that row alone |
| `RunnerSystem.StepKeeps` | `python/checkpoint/runner.py:215-317` | the invariant of the interleaved system: any append, load, scan, commit, collection, check or delivery by any client keeps it, and takes nothing back |
| `RunnerSystem.RunKeeps` | `python/checkpoint/runner.py:215-317` | so it holds after every run |
| `RunnerSystem.SameState` | `python/log/engine.py:317-325` | compare-and-set on size and checkpoint bytes pins the whole state, witness rows aside |
| `RunnerSystem.RacingRunners` | `python/checkpoint/runner.py:253-317` | over every interleaving: stored nodes are the MMR of the first indexed entries, the pending time is that of the first uncheckpointed entry, and each committed checkpoint names the previous one with strictly larger size, true peaks and an accepted consistency proof |
| `RunnerSystem.ReceiptsStay` | `python/checkpoint/witness.py:421-430` | from the moment a row has a receipt, no event changes that row |
| `RunnerSystem.FailuresStay` | `python/checkpoint/witness.py:430-440` | from the moment a row has failed for good, no event changes that row |
| `RunnerSystem.DeliveryOrder` | `python/checkpoint/witness.py:406-409` | of two stored rows of one witness, if the later one's statement names the earlier one's size as its predecessor and the later one has a receipt, so has the earlier one |
| `RunnerSystem.StaleRowsIgnored` | `python/log/engine.py:343-373` | a runner's commit with a stale copy of the rows only adds rows |
| `CatchUpSystem.CatchUpAmongOthers` | `python/checkpoint/runner.py:193-213` | catching up with any steps of other clients between its own, between contention and the reload too: the system's invariant holds and nothing is taken back; it reloads at most once between two commits, gives up only on contention right after a reload and only while others still act, and when it finishes after they stopped every entry is indexed and nothing is due |
| `CatchUpSystem.CaughtUpIsUpToDate` | `python/checkpoint/runner.py:193-213` | when it finishes after the others stopped, the stored state is up to date with the entries in that sense |
| `CatchUpSystem.CommitOrContend` | `python/log/engine.py:355-373` | what a pass proposes either commits or meets contention, never another error, and it commits whenever the cached state is the stored one up to witness rows |
| `CatchUpSystem.CachedIsFresh` | `go/checkpoint/runner.go:225-230` | right after a commit, in any run, the cached state is what a fresh load returns, witness rows aside |
| `DeliverySpec.PendingMeaning` | `python/log/engine.py:420-433` | only rows without receipt or permanent failure whose time has come, each once, by size and then by witness id, at most the limit, and none left out that should come before one returned |
| `DeliverySpec.StringOrderMeaning` | `python/log/engine.py:432` | witness ids are compared character by character: equal up to where the first ends or has the smaller character |
| `DeliverySpec.CappedStays` | `python/checkpoint/witness.py:442-448` | once at the maximum, the delay stays there |
| `Delivery.Backoff` | `python/checkpoint/witness.py:442-448` | min(base * 2^attempts, maximum), for every number of attempts |
| `Delivery.BackoffInt64` | `go/witness/runner.go:205-218` | the same value on 64-bit durations, with no overflow |
| `Delivery.Deliver` | `python/checkpoint/witness.py:393-440` | what becomes of the row, in terms of the answer (`Concluded`): failed for good exactly when the statement or the receipt does not verify or the failure is not retryable; a receipt exactly when it verified; one attempt more; the next time and the error text; a row whose predecessor has no receipt is not submitted and stops the pass |
| `Delivery.WrittenBackConcludes` | `python/checkpoint/witness.py:405-440` | the row written back on the expected attempts is that row, and no other row changes |
| `Delivery.NeverAgain` | `python/log/engine.py:420-433` | a row with a receipt, and one that failed for good, is never handed out for delivery again, at any time |
| `Delivery.DelayWithin` | `python/checkpoint/witness.py:442-450` | the wait is min(base * 2^attempts, maximum), and jitter only shortens it |
| `Decimals.DecimalRoundTrip` | `python/log/wire.py:97-109` | a text parses to n exactly when n has 64 bits and the text is its canonical decimal |
| `Wire.RowRoundTrip` | `python/log/wire.py:179-244` | every witness row within range reads back as written, receipt metadata included |
| `Wire.StateRoundTrip` | `python/log/wire.py:247-297` | every state within range reads back as written, checkpoint fields together or not at all |
| `Wire.EventRoundTrip` | `python/log/jsonl.py:150-178` | every journal event within range reads back as written |
| `Wire.EventSound` | `python/log/jsonl.py:116-178` | an event is read only from an object of schema version 4 with its type text and all its mandatory fields, each of the right kind and within range, receipt and checkpoint fields together or not at all |
| `JournalSpec.ReplayConcat` | `python/log/jsonl.py:107-143` | replay goes on after whole lines from the state they lead to |
| `JournalSpec.ReplayCut` | `python/log/jsonl.py:144-148` | cutting off an incomplete tail leaves lines that replay to the same state |
| `JournalSpec.EventReplays` | `python/log/jsonl.py:206-222` | the event an operation writes fits the wire, and replaying it is performing the operation |
| `JournalSpec.CrashRecovers` | `python/log/jsonl.py:180-195` | whatever prefix of an event's line reached the file, replay finds the state before it, or after it when the newline is there |
| `JournalSpec.MutateKeeps` | `python/log/jsonl.py:180-222` | one operation under any sequence of short writes, failed syncs, failed truncations and failed syncs after them keeps an open store's file equal to its engine, and a closed store's recoverable to the state before or after the one operation that broke off |
| `JournalSpec.ClosingMutate` | `python/log/jsonl.py:180-204` | an operation closes the store if and only if its line was not written and synced, and was not both cut off and synced again; the engine is as before, and replay finds the operation's effect exactly when every byte of its line was written and the truncation failed, otherwise the state before |
| `JournalSpec.MutateResult` | `python/log/jsonl.py:180-222` | which result an operation has and when it changes nothing: closed, refused by the engine, nothing to write, too long, written and synced, undone, or corrupt |
| `JournalSpec.RunClosed` | `python/log/jsonl.py:180-204` | a run that ends closed was closed by one of its operations, and replay finds the state before that one, or after it exactly when its whole line was written and not cut off again |
| `JournalSpec.JournalRefinesEngine` | `python/log/jsonl.py:107-222` | after any run of operations with failed writes the journal replays to exactly the engine, and a crash in the next one recovers to one side of it |
| `JournalSpec.ReopenRecords` | `python/log/jsonl.py:78-103` | what opening keeps is whole lines, a prefix of the file, and they record the state it finds |
| `JournalSpec.ReopenExact` | `python/log/jsonl.py:107-178` | opening finds a state exactly when the whole lines are events, the first an initialization, that lead to it one after the other, and a torn tail may be cut if there is one |
| `Journal.JsonlStore.AppendEvent` | `python/log/jsonl.py:180-195` | writes one event in as many writes as it takes, or undoes it |
| `Journal.JsonlStore.WriteAll` | `python/log/jsonl.py:185-191` | the write loop gets out exactly what the series of short writes allows |
| `JournalSpec.WrittenExact` | `python/log/jsonl.py:185-191` | short writes get out what they take in all before the first that fails, and never more than there is |
| `Journal.JsonlStore.Rollback` | `python/log/jsonl.py:197-204` | cuts the file back and syncs it; when either fails the store is closed, with the file cut exactly if the truncation succeeded |
| `Journal.JsonlStore.Append` | `python/log/jsonl.py:231-237` | the engine's append made durable or undone |
| `Journal.JsonlStore.CommitCll` | `python/log/jsonl.py:256-264` | the engine's commit made durable as a delta or undone |
| `Journal.JsonlStore.CommitWitness` | `python/log/jsonl.py:278-288` | the engine's witness commit made durable or undone |
| `Journal.JsonlStore.ReplayEvent` | `python/log/jsonl.py:150-178` | one event applied to the engine, corrupt on every failure |
| `Journal.JsonlStore.ReplayAll` | `python/log/jsonl.py:107-148` | the byte-offset loop computes the replay; a torn tail is cut only when repair is allowed |
| `Journal.Open` | `python/log/jsonl.py:78-103` | `init` and `open`: never creates without being asked, an opened store is in step with its file, and an empty file is opened exactly when that is asked for and the first line is written and synced |
| `Lines.FileIsLines` | `python/log/jsonl.py:116-143` | every file is its whole lines followed by an incomplete one without a newline |
| `LedgerSpec.IdealRow` | `python/ledger/store.py:912-931` | the ideal index: seqs from 1, and each row is the first line in segment order with its id, at its true offset |
| `LedgerSpec.IdealCovers` | `python/ledger/store.py:912-931` | no line's id is missing from it |
| `LedgerSpec.LastIndexed` | `python/ledger/store.py:820-837` | the largest offset the index names in the active segment is that of one of the lines it was built from |
| `LedgerSpec.TailStartExact` | `python/ledger/store.py:820-837` | reading starts after the line at the largest offset indexed for the segment, at 0 if there is none, and nowhere exactly when that line is not there in full |
| `LedgerSpec.ReadOn` | `python/ledger/store.py:845-875` | reading on from any line after which everything indexed is known reads exactly the rest |
| `LedgerSpec.RecoverReconciles` | `python/ledger/store.py:789-889` | from anything a crash may leave, recovery succeeds, removes the torn tail and nothing else, and the indexes are exactly those of the segments; the lookup index stays in use exactly when it can be read and takes as many writes as rows are missing, and then is complete |
| `LedgerSpec.RecoverRefuses` | `python/ledger/store.py:789-889` | recovery refuses exactly when the last indexed line is not there in full or a later line is no record; then nothing is cut off, no row is lost and appends stay refused |
| `LedgerSpec.RecoverTwice` | `python/ledger/store.py:789-803` | a second recovery cuts nothing off, indexes nothing and changes nothing, except that a lookup index that can no longer be read is dropped |
| `LedgerSpec.SkippedExact` | `python/ledger/store.py:848-856` | the offsets reported as skipped are exactly those of lines whose id an indexed line or an earlier line has |
| `LedgerSpec.InterruptedRecoverable` | `python/ledger/store.py:789-889` | what a recovery leaves that breaks off, after any number of lines read and lookup rows written, before or after the torn tail is cut, can be recovered |
| `LedgerSpec.ResumedRecovery` | `python/ledger/store.py:789-803` | a recovery that broke off and is repeated ends with the same segments and rows as one that ran through |
| `LedgerSpec.CrashedAppend` | `python/ledger/store.py:608-632` | a broken-off append, recovered, did not happen, or, when its whole line was written, did |
| `LedgerSpec.AppendKeeps` | `python/ledger/store.py:577-646` | an append that ends well keeps files and indexes in step; one that breaks off leaves what recovery takes |
| `LedgerSpec.AppendOutcome` | `python/ledger/store.py:577-646` | which of the three results an append has and the new store: a duplicate changes nothing; a finished append adds one line and one row at its offset, and its lookup row exactly if the index is in use and takes the write, which is also when it stays in use |
| `LedgerSpec.LookupLives` | `python/ledger/store.py:766-787` | over any run in which no lookup read or write fails, the lookup index stays in use, and it is complete whenever the store is in step |
| `LedgerSpec.StepKeeps` | `python/ledger/store.py:522-646` | over every run of appends, crashes, restarts, recoveries and recoveries that break off the store is in step or recoverable |
| `LedgerSpec.FillIsFull` | `python/ledger/store.py:933-972` | filling the lookup index adds every missing row once and keeps the others |
| `Ledger.LedgerStore.Append` | `python/ledger/store.py:577-646` | duplicates and unrecovered stores are refused before any byte is written; otherwise one line, one row and one lookup row |
| `Ledger.LedgerStore.CatchUpLookup` | `python/ledger/store.py:933-972` | the loop, and its shortcut on equal counts, add the missing rows in order up to the first write that fails, which drops the index, and report the seqs written |
| `Ledger.LedgerStore.Recover` | `python/ledger/store.py:789-889` | the whole new store and the whole report, on success and on a corrupt line: the rows of the lines before that one stay, nothing is cut off and appends stay refused |
| `Ledger.LedgerStore.IndexLines` | `python/ledger/store.py:845-875` | complete lines are indexed in order up to the first that is no record, known ids skipped, each new row written to the lookup index until a write fails |
| `Ledger.Leaves` | `python/ledger/store.py:912-931` | the first line per id in segment order, exactly when every line is a record |
| `Ledger.FileLinesExact` | `python/ledger/store.py:912-931` | iterating over a file loses no byte of it, an incomplete last line included |
| `Ledger.LedgerStore.Reindex` | `python/ledger/store.py:991-1034` | the records index of the segments, or unchanged |
| `Ledger.LedgerStore.RebuildLookup` | `python/ledger/store.py:1379-1409` | the lookup index of the segments |
| `Ledger.RebuildsAgree` | `python/ledger/store.py:1379-1409` | on whole segments, recovery, reindexing and rebuilding the lookup index leave the same seqs, ids, segments and offsets |
| `LedgerSpec.SameCount` | `python/ledger/store.py:940-944` | a lookup index with as many rows as the records index is complete |
| `MmrLedger.MmrIndex.Sync` | `python/checkpoint/index.py:153-177` | folds unindexed records into the MMR in seq order; a gap or a full MMR is an error |
| `MmrLedger.MmrIndex.Root` | `python/checkpoint/index.py:189-196` | the bagged root over all indexed ids |
| `MmrLedger.MmrIndex.ProveRange` | `python/checkpoint/index.py:223-230` | the honest proof at the size where the range ends, however far the log has grown since |
| `MmrLedger.VerifyRange` | `python/checkpoint/index.py:97-121` | returns true exactly for the proofs the predicate `Accepts` describes |
| `MmrLedger.ProofExact` | `python/checkpoint/index.py:97-121` | against the root of the first `to` ids, exactly ids `from` to `to` are accepted, with exactly the honest proof |
| `Segments.PlainIdeal` | `python/ledger/store.py:463-467` | without repeated ids, the index lists every line of every segment in order |
| `Segments.RotateTiles` | `python/ledger/store.py:444-518` | a rotation's manifest starts right after the last one ended and covers exactly the closed segment |
| `Segments.RotatesExactly` | `python/ledger/store.py:643-646` | a finished append closes its segment exactly when its line brings the segment to the size limit, and the manifest on disk lists it exactly when that is saved |
| `Segments.SegmentsTile` | `python/ledger/store.py:482-494` | closed segments tile seqs from 1 without gap or overlap, and each manifest's size is the node count at its last seq |
| `Segments.RunTiles` | `python/ledger/store.py:444-518` | after every run of appends with rotation, crashes in the middle of an append, a rotation or a recovery, restarts and recoveries, manifests tile the log and the store is in step or recoverable, unless a restart has forgotten a segment that holds records |
| `Segments.RestartStrays` | `python/ledger/store.py:269-302` | a restart forgets records exactly when a segment that the store manifest on disk does not list holds any bytes |
| `Segments.NeverAstray` | `python/ledger/store.py:389-411` | no run forgets one while every store manifest gets saved, or while there is no restart |
| `Segments.StrayRun` | `python/ledger/store.py:511-517` | a run that does: a record that fills its segment, a store manifest that cannot be saved, one more record, and a restart |
| `Segments.AstrayUnverifiable` | `python/ledger/store.py:463-494` | what follows: once the segment that is active again gets another record, and whatever is added later, no manifest that states its first seq, last seq and count is accepted |
| `Segments.SpanWidth` | `python/ledger/store.py:463-469` | a segment has as many rows as its seq range is wide exactly when no other segment's row lies in that range |
| `Segments.RunVerifies` | `python/ledger/segments.py:252-324` | after every such run over records written as plain text, each closed segment's manifest is accepted with its own bytes and with no others |
| `Segments.SegmentedLedger.SegmentSpan` | `python/ledger/store.py:463-469` | smallest seq, largest seq and number of a segment's rows, wherever they lie |
| `Segments.SpanBounds` | `python/ledger/store.py:463-469` | smallest and largest are seqs of rows of the segment and bound all of them |
| `Segments.SegmentedLedger.RotateSegment` | `python/ledger/store.py:444-518` | closes a non-empty active segment under a forced checkpoint with exactly its manifest, and changes no row; on every error nothing in the store changes |
| `Segments.VerifySegment` | `python/ledger/segments.py:252-324` | returns true exactly for the segments the predicate `SegmentAccepts` describes |
| `Segments.ClosedVerifies` | `python/ledger/segments.py:252-324` | every closed segment of a tiled store verifies from its bytes and manifest alone, its lines being text without other line breaks |
| `Segments.ClosedExact` | `python/ledger/segments.py:280-287` | a closed segment's manifest is accepted with that segment's bytes and with no others |
| `Segments.AcceptedIsExact` | `python/ledger/segments.py:252-324` | against an honest root, an accepted segment holds exactly the log's ids of its seq range, and its proof is the honest one |
| `Segments.SegmentExact` | `python/ledger/segments.py:252-324` | against an honest root, a segment is accepted if and only if it is the sealed bytes, well-formed text, of as many records as the manifest and its seq range say, under exactly the log's ids of that range, with the honest proof |
| `Segments.AcceptedSizes` | `python/ledger/segments.py:278-321` | an accepted segment is bound to the MMR at the manifest's own `mmr_size`, as promised, if and only if that field equals the range proof's size, which is the node count at the last seq |
| `Segments.SizesUnchecked` | `python/ledger/segments.py:278-321` | the verdict does not depend on the manifest's `mmr_size` and `bytes` fields |
| `Segments.WrongSizesAccepted` | `python/ledger/segments.py:252-324` | a manifest with a wrong `mmr_size` and a wrong `bytes` that is accepted |
| `TextLines.PlainLines` | `python/ledger/segments.py:285-296` | text lines of a file are its records exactly as written when no record holds another of the line breaks that text splitting honours |
| `TextLines.NonBlankExact` | `python/ledger/segments.py:289` | the lines kept are all that are not blank, in order |
| `ScalarLines.SplitExact` | `python/ledger/segments.py:289` | splitting the bytes of a text is splitting its characters at the ten line breaks, CR LF being one |
| `ScalarLines.BlankExact` | `python/ledger/segments.py:289` | a line is blank exactly when all its characters are white space |
| `MerkleTree.RootExact` | `go/witness/verify.go:355-387` | a leaf and a path lead to the tree head of section 2.1.1 of RFC 9162 exactly when they are the entry and its audit path of section 2.1.3.1 |
| `MerkleTree.PathLengthExact` | `go/witness/verify.go:406-419` | the expected length is the audit path's |
| `MerkleTree.PathLengthBound` | `go/witness/verify.go:406-419` | a tree of at most 2^h entries has paths of at most h nodes |
| `Receipt.LargestPowerBelow` | `go/witness/verify.go:396-405` | the largest power of two below n, without leaving 64 bits for any n |
| `Receipt.ExpectedPath` | `go/witness/verify.go:406-419` | the exact path length, at most 62 for sizes to 2^62 |
| `Receipt.Siblings.Fold` | `go/witness/verify.go:361-384` | pops exactly the needed siblings and computes the root, or fails for lack of them |
| `Receipt.RootFromProof` | `go/witness/verify.go:355-387` | recomputes the root exactly when index, size and path length fit |
| `Receipt.ReceiptExact` | `go/witness/verify.go:355-419` | against the tree head of D at its size, exactly the entry at the index is accepted, with exactly one path |
| `CborHeads.HeadReads` | `cll-02-vectors/cll02.py:40-46` | reading a head undoes writing it |
| `CborHeads.HeadIsShortest` | `cll-02-vectors/cll02.py:79-93` | only shortest heads are read |
| `DeterministicCbor.DecodeEncode` | `cll-02-vectors/cll02.py:49-121` | decoding what was encoded gives the value back, whatever follows it: encodings are prefix-free |
| `DeterministicCbor.ParseSound` | `cll-02-vectors/cll02.py:76-121` | whatever decodes is the encoding of the value it decodes to |
| `DeterministicCbor.Bijection` | `cll-02-vectors/cll02.py:49-73` | decode(b) = v exactly when v is within range and cbor(v) = b, with keys in the bytewise order of section 4.2.1 of RFC 8949 |
| `Bytes.LessMeaning` | `cll-02-vectors/cll02.py:109-120` | keys are in order when the first byte where they differ is smaller, or the first ends where the second goes on |
| `Unicode.Utf8Exact` | `cll-02-vectors/cll02.py:98-102` | text that decodes is exactly the encoding, by section 3 of RFC 3629, of some sequence of Unicode scalar values |
| `Unicode.EncodingInjective` | `cll-02-vectors/cll02.py:98-102` | and of only one sequence |
| `CborDecoder.Decode` | `cll-02-vectors/cll02.py:67-73` | the decoder on offsets computes that, and refuses trailing bytes |
| `CborDecoder.Dec` | `cll-02-vectors/cll02.py:76-121` | one item at an offset, and where it ends |
| `CborDecoder.DecEntries` | `cll-02-vectors/cll02.py:109-120` | the map loop accepts exactly strictly rising key encodings |
| `ReceiptEncoding.EncodeReadsBack` | `ts/src/cbor-strict.ts:43-51` | every value within the rule decodes back from its shortest, order-preserving encoding |
| `ReceiptEncoding.ParseSound` | `ts/src/cbor-strict.ts:80-127` | every accepted byte string re-encodes to itself |
| `ReceiptEncoding.DecodeExact` | `ts/src/cbor-strict.ts:52-131` | decoding and encoding undo each other, in both directions, with and without the outer tag |
| `ReceiptEncoding.WalkIsParse` | `python/cbor.py:179-237` | the byte walk accepts exactly the byte strings the decoder accepts and ends where it ends |
| `ReceiptEncoding.KeyBytes` | `python/cbor.py:226-236` | keys are equal as values exactly when they are equal as bytes |
| `ReceiptDecoder.ItemDecoder.Decode` | `ts/src/cbor-strict.ts:52-131` | the decoder with one moving offset computes that |
| `ReceiptDecoder.ItemDecoder.Argument` | `ts/src/cbor-strict.ts:69-79` | gathers an argument byte by byte and refuses anything but its shortest form |
| `ReceiptDecoder.ItemDecoder.ReadPairs` | `ts/src/cbor-strict.ts:114-126` | the map loop accepts exactly distinct integer or text keys, in any order |
| `ReceiptWalker.ReceiptItem` | `python/cbor.py:157-176` | accepts exactly the byte strings the decoder accepts |
| `ReceiptWalker.ReceiptWalk` | `python/cbor.py:179-237` | one item by offsets, and where it ends |

## Left out

- SHA-256, Ed25519 and COSE signatures, the canonical JSON checkpoint body, and COSE header checks around receipts: hashes are injective terms and a signature is its signer.
- HTTP clients, SCRAPI, threads, timers, file locks and SQL drivers: a submission's outcome, a disk's behaviour and the order of steps are arbitrary parameters.
- Python's dynamic type checks (booleans passed as integers, wrong argument classes) and byte-width checks on values that the types of the model already exclude: identifiers, statement and reason lengths among them.
- Naive or out-of-range datetimes: times are integers, and the journal's are of the years 1 to 9999, which have a text form.
- Key revocation, admission modes and producer envelopes, so the `consequential` and `authenticity` columns of index rows, timestamps, and the lookups by time and by correlation.
- Unmounting of segments: all segments are mounted.
- The cut of an error text to its size limit before it is stored.
- The loop of one delivery pass over its rows, and the pools that run passes for several witnesses at once: each delivery is its own task in `System.dfy`, which allows every order a pass can produce and more.
- Runner.CheckpointRunner.CatchUp: the method has the store to itself; the same loop among other clients is the function `CatchUp` of `CatchUp.dfy`, which interleaves it with arbitrary steps of theirs and so cannot be a method of one store.
- The Go tree's own inclusion, consistency and range provers, which repeat the Python ones: only its restore check and its range witness bound are used.
- The massif database cross-check hashes, the profile's printed variants of helper functions, the CLI and the vector generators.
- Sorting in deterministic CBOR: `Encode` takes the least remaining key each time instead of calling a sort.
- JournalSpec.JournalRefinesEngine: for states whose node list is shorter than 2^64, which the 64-bit decimals of the wire format need, and for times of the years 1 to 9999, which time text needs; nothing else can be written.
- Ledger.LedgerStore.CatchUpLookup: a records row whose line cannot be read back from its segment, which the loop passes over or reports as corrupt, is not modelled; no run of appends, crashes and recoveries has one.
- Ledger.LedgerStore.Recover: the method runs to its end or to a line that is no record; a recovery that breaks off elsewhere is the event `RecoverBroken` of a run.
- The spelling of hex digests in proofs: a respelt proof counts as the same proof.
- Segments.SegmentedLedger.RotateSegment: the method runs to its end; a rotation that does not get there, or whose last write fails, is part of a run (`Rotation`).
- Loaders.LoadersCompare: for statements as records of their claims; what the Go loader refuses in their encoding (the size cap on the body, canonical re-encoding, a cadence that is not positive, the form of times, the rule for identifiers) is not modelled.
- Loaders.VerifiersCompare: the same.
- What a power loss does to bytes that were never synced: a crash leaves the file as the process last saw it.
