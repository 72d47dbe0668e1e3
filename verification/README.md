# A verified model of ShadSpace's storage node

The project models four parts of the node and proves what they guarantee.

1. **Secret sharing** (`internal/shamir`). `Split` evaluates integer polynomials and keeps each
   value modulo 256; `Combine` interpolates over the integers. 256 is no field, so the proof goes
   through finite differences: the Lagrange weights of consecutive coordinates are integers, every
   division is exact, and the interpolated integer is congruent to the secret. Files
   `FiniteDifferences`, `LagrangeWeights`, `Interpolation`, `Shamir`.
2. **Validator committee** (`internal/network/validator.go`). Weights, the deterministic top two
   thirds, weighted draws without replacement, the append into the candidates' own array. Files
   `WeightedDraw`, `Validators`.
3. **Erasure-coded file store** (`internal/storage`). The engine, the shard manager and the file
   manager as classes, each method proved equal to a transition function over values
   (`ChunkStore`, `FileStore`); roll back, retrieval, conservation of bytes, the exact condition
   for a store to succeed, restart and cleanup are proved about those functions. Files
   `ErasureCode`, `Sharding`, `ChunkStore`, `FileStore`, `StoreRollback`, `FileRuns`,
   `Restarts`, `Conservation`, `StoreOutcome`, `StorageEngine`, `FileManagement`.
4. **Peers and gossip** (`internal/network`). Ranking, placement, the list-valued file index and
   the lock hierarchy. Files `PeerRanking`, `PeerStanding`, `FileIndex`, `NetworkState`,
   `Distribution`, `LockOrder`, `LockRoutines`.

The handlers of single events (`RecordSuccessfulInteraction`, `RecordFailedInteraction`,
`HandleNodeInfo`, `OnPeerConnected`, `OnPeerDisconnected`, `Activate`) are proved equal to one transition each; what matters about them is
stated over runs of these transitions, in `PeerStanding` and `Validators`.

`Results`, `Sequences` and `FiniteSums` hold shared vocabulary. Random draws, clock readings,
connected peers, delivered messages and the outcome of every file operation are inputs, so each
theorem holds for all of them. `dafny verify dfyconfig.toml` checks everything.

## Where the code falls short of its purpose

Each of these is proved with the exact condition under which the purpose is met.

- `Combine` takes the low byte of the absolute value of the interpolated sum. A negative sum turns
  byte b into 256 - b (`RoundTripExactly`, `RoundTripCanFail`).
- `ReconstructData` places shards by list position although its callers drop missing shards from
  the list. Every shard lands in its own slot exactly if no shard with data follows a missing one
  (`PlacementAgreesExactly`, `RetrievedPlacementExactly`); otherwise a file can be lost although
  enough shards are left (`RetrievalFailsWithoutFirstShard`).
- A failed metadata save inside `StoreChunk` keeps the index entry of that shard
  (`StoreFileIsAllOrNothing`, `IndexRestoredExactly`). A later `StoreFile` of the content that would
  otherwise succeed fails exactly if one of its shards has such an entry, so one with few enough
  shards still succeeds (`LeftoverEntryBlocksExactly`). The entry can be deleted exactly if its
  file is still there (`LeftoverEntryBlocksStore`).
- A reward lowers the visible score of a peer without an entry, because a missing entry reads as
  zero in one place and as one half in another (`RewardNeverLowersExactly`,
  `RewardCanLower`).
- Unsigned subtraction lets a peer that reports more use than capacity pass as having free space
  (`SuitableMeansFreeSpaceExactly`, `OverfullPeerPasses`).
- The quota check adds in 64 bits: it is right exactly while used bytes and chunk size together
  stay below 2^64 (`StoreChunkWithinQuota`).
- A restart keeps a stored file exactly if both metadata files list all of it
  (`RestartKeepsExactly`). Failed saves take nothing off the record: one that cannot open its file
  leaves the old one, one that fails later leaves a file that does not decode, and only then a
  restart loses the stored file (`KeptSurvivesExactly`, `StoredFileSurvivesRestarts`).
- `UpdateFileMetadata` replaces the entry of a file that is stored here. Without shard hashes, as
  `StoreFileDistributed` passes it, the local shards can no longer be read (`OpDisturbsExactly`,
  `UpdateHidesShards`).
- The announcement of a file by this node replaces the list of its holders, and the start-up entry
  for local files is made without looking for a duplicate (`OverwriteForgetsExactly`,
  `RunDuplicateFreeExactly`).
- `selectStoragePeers` means to skip gateways but tests only the ranked peers; among the others a
  gateway that is usable is taken like any peer (`GatewaysChosenExactly`, `GatewayFillsPlace`).
- Metadata with some shard hashes, but too few for a shard that can be read, makes the retrieval
  index past their list and panic (`FileManager.RetrieveFile`).
- A peer that is swept comes back fully reliable, however unreliable it was
  (`SweepResetsReliability`).
- An announcement without locations makes the handler of any receiving node panic after the merge
  (`HandleFileAnnounce`).
- Every activation moves the next committee on and empties its slot, so two selections less than the
  activation delay apart end without a current committee (`CurrentCommitteeExactly`,
  `OverlappingSelections`). Nothing in the repository makes two selections: the selection loop
  returns after its first success (`validator.go:98-103`) and is started once (`pos.go:36-43`);
  only a second call of `ValidatorManager.Start`, which is exported and unguarded, could.
- `StoreFileDistributed` announces a file before it stores the metadata the announcement needs, so
  a file new to this node is not announced (`AnnounceFile`).
- A merge and a withdrawal in the file index commute only if they concern different entries
  (`WithdrawalCommutes`).

The comment above the weight formula says 0.6 and 0.4; the code uses 0.4, 0.3 and 0.3, and so does
the model.

## Model

| member | source | states |
|---|---|---|
| Shamir.Split | internal/shamir/shamir.go:11-50 | which inputs are refused and why; otherwise share i carries label (i+1) mod 256 and, per byte, the low byte of a polynomial with that byte as constant term |
| Shamir.EvaluatePolynomial | internal/shamir/shamir.go:84-93 | the term-by-term sum of coefficient times power is the polynomial's value in Horner form |
| Shamir.LowByte | internal/shamir/shamir.go:45-74 | the low 64 bits of the absolute value, modulo 256: the residue of a nonnegative number, the negated residue of a negative one |
| Shamir.Combine | internal/shamir/shamir.go:53-78 | refuses an empty list; otherwise every byte is the low byte of the interpolated sum of that position |
| Interpolation.LagrangeProducts | internal/shamir/shamir.go:99-112 | the skipping inner loop computes the products over all other coordinates |
| Interpolation.LagrangeInterpolation | internal/shamir/shamir.go:95-121 | for distinct coordinates the loops compute the sum of the Euclidean quotients |
| Interpolation.DenominatorNonzero | internal/shamir/shamir.go:108-116 | distinct coordinates rule out division by zero |
| Interpolation.ProductPermutation | internal/shamir/shamir.go:102-112 | numerators and denominators do not depend on the order of the shares |
| Interpolation.DivisionIsExact | internal/shamir/shamir.go:98-117 | for consecutive coordinates in any order every division leaves no remainder and yields integer weight times share |
| LagrangeWeights.WeightsAreQuotients | internal/shamir/shamir.go:98-117 | the integer weight times t!(m-1-t)! is, up to sign, the product of the other coordinates |
| LagrangeWeights.FactorialDividesRising | internal/shamir/shamir.go:114-116 | r! divides any product of r consecutive positive integers |
| LagrangeWeights.WeightsInterpolate | internal/shamir/shamir.go:95-121 | the integer weights take any polynomial with at most m coefficients from m consecutive values to its value at 0 |
| FiniteDifferences.DifferenceVanishes | internal/shamir/shamir.go:84-93 | the m-th difference of a polynomial with at most m coefficients is zero everywhere |
| FiniteDifferences.AlternatingRowIsDifference | internal/shamir/shamir.go:84-93 | the m-th difference is the alternating binomial sum of m+1 consecutive values |
| FiniteDifferences.AlternatingRowFactorial | internal/shamir/shamir.go:98-117 | the factorial formula for the signed binomial coefficients |
| Shamir.EvalCongruent | internal/shamir/shamir.go:42-46 | integer polynomials respect congruence modulo 256 of their argument, so wrapped labels still fit their values |
| Shamir.InterpolationIsCongruent | internal/shamir/shamir.go:84-121 | for at least as many points as coefficients, congruent to a polynomial at consecutive coordinates in any order, the interpolated integer is congruent to the constant term |
| Shamir.InterpolationRecoversSecret | internal/shamir/shamir.go:26-47 | for any k or more shares of one split with consecutive labels, whatever was drawn, the interpolated integer is the byte modulo 256 |
| Shamir.CombinedByte | internal/shamir/shamir.go:63-75 | the returned byte is the secret for a nonnegative sum and its negation modulo 256 for a negative one |
| Shamir.RoundTripExactly | internal/shamir/shamir.go:53-78 | the round trip holds exactly when every position has a nonnegative sum or a byte that is 0 or 128 |
| Shamir.RoundTripCanFail | internal/shamir/shamir.go:72-75 | two shares of byte 1 with coefficient 255 combine to 255 |
| Validators.CalculateWeights | internal/network/validator.go:277-290 | every candidate's weight field gets the weighted sum of stake, reputation and availability |
| Validators.WeightRates | internal/network/validator.go:279-289 | after the weights are computed, weight differs by 0.4 per 10000 of stake and 0.3 per unit of reputation and of availability, from 0 for nothing |
| Validators.DominanceIsMoreWeight | internal/network/validator.go:279-289 | no less of anything and more of stake, reputation or availability is strictly more weight |
| Validators.SortDescending | internal/network/validator.go:298-301 | the array becomes a permutation of itself in descending weight order |
| Validators.ScanCandidates | internal/network/validator.go:336-350 | the inner loop finds the first unselected candidate whose cumulative weight reaches the draw |
| Validators.DrawOne | internal/network/validator.go:330-351 | a round selects exactly one new candidate and takes its weight off the unselected weight |
| Validators.WeightedRandomSelection | internal/network/validator.go:320-354 | ends for every stream of draws, with exactly the asked number of candidates, those that the successive weighted draws select |
| WeightedDraw.IntervalsPartition | internal/network/validator.go:336-350 | every draw in (0, unselected weight] lies in the interval of exactly one unselected candidate |
| WeightedDraw.IntervalsInRange | internal/network/validator.go:336-350 | no interval reaches outside (0, unselected weight] |
| WeightedDraw.ScanIsWeightedDraw | internal/network/validator.go:331-350 | the scan finds the candidate whose interval holds the draw, the first unselected one for a zero draw, and somebody exactly if somebody is unselected |
| WeightedDraw.WeightAfterSelection | internal/network/validator.go:345-348 | selecting a candidate lowers the unselected weight by exactly its weight |
| WeightedDraw.PicksAreDistinct | internal/network/validator.go:330-351 | n draws from at least n candidates select n distinct ones |
| WeightedDraw.PickExactly | internal/network/validator.go:331-350 | draw k selects p exactly if p is left by the first k draws and the draw times the weight left lies in its interval (or is zero and p is first) |
| WeightedDraw.PickIsProportional | internal/network/validator.go:331-350 | the positive draws that select a candidate form an interval as long as its share of the weight left |
| WeightedDraw.EverybodyCanBeDrawn | internal/network/validator.go:331-350 | every unselected candidate with any weight is selected by some draw in [0, 1] |
| WeightedDraw.DrawFromNothing | internal/network/validator.go:330-351 | once everybody is selected no further draw selects anything, so asking for more than there are cannot end |
| Validators.SelectValidators | internal/network/validator.go:293-317 | returns all candidates if there are no more than asked for; otherwise the committee of some sorted order, which overwrites the front of the candidates' array |
| Validators.SelectFromSorted | internal/network/validator.go:303-316 | of a sorted array: its top two thirds, then draws from the rest, written over the array behind the top |
| Validators.AppendInPlace | internal/network/validator.go:313 | appending within capacity replaces what stood behind the slice and nothing else |
| Validators.CommitteeProperties | internal/network/validator.go:293-317 | for any order among ties: exact size, distinct members, all of them candidates, the top part no lighter than anybody outside it |
| Validators.Dominance | internal/network/validator.go:277-305 | for any order among ties, a candidate with no less of stake, reputation and availability, and more of one of them, than a member of the deterministic part is in that part |
| Validators.SeatsAreDrawnByWeight | internal/network/validator.go:303-350 | every seat behind the top goes to the unseated candidate that owns the draw, and to nobody else |
| Validators.SelectCommittee | internal/network/validator.go:119-134 | all candidates up to 21; above, the selection from a sorted order by the computed weights, with the 14 heaviest first and dominance respected |
| Validators.ValidatorManager.PerformValidationSelection | internal/network/validator.go:109-181 | fails only without eligible peers; weighs every candidate; the next committee has min(N, 21) distinct eligible members and above 21 is the 14 heaviest and seven weighted draws of a sorted order, whatever the order among ties; the current committee stays |
| Validators.CurrentCommitteeExactly | internal/network/validator.go:166-175 | over every run of selections and activations the committee in charge is the one selected right before the last activation, and none if no selection came between two activations |
| Validators.OverlappingSelections | internal/network/validator.go:166-175 | two selections before the first activation end with no committee in charge |
| ErasureCode.SumCodeIsLawful | internal/storage/sharding.go:58-72 | the law asked of the erasure code is satisfiable: one parity shard over two data shards |
| Sharding.JoinInvertsSplit | internal/storage/sharding.go:64-131 | joining any codeword of the padded split at the original size gives the data back |
| Sharding.ShardData | internal/storage/sharding.go:41-87 | the refused inputs; otherwise the codeword of the split data with indices from 1, hashes and sizes |
| Sharding.ReconstructData | internal/storage/sharding.go:90-136 | the refused inputs; otherwise reconstruction from the shards placed by list position, joined at the given size |
| Sharding.ShardedExactly | internal/storage/sharding.go:41-56 | what is refused, and that everything else is sharded |
| Sharding.ReconstructedRefusesExactly | internal/storage/sharding.go:90-122 | what is refused; too few shards means fewer positions with data than required |
| Sharding.PlacementAgreesExactly | internal/storage/sharding.go:107-117 | placement by position equals placement by index exactly when every shard with data stands at the position of its index; for shards that all have data, when the indices are 1, ..., m |
| Sharding.PrefixReconstructs | internal/storage/sharding.go:90-136 | any prefix of at least the required shards reconstructs the file |
| ChunkStore.PathsAreInjective | internal/storage/engine.go:78 | different chunks have different files |
| ChunkStore.ChunkFilesAreApart | internal/storage/engine.go:78 | no chunk file takes the place of a metadata file |
| StorageEngine.Engine.StoreChunk | internal/storage/engine.go:62-103 | the new index, disk, metadata file and status for every combination of outcomes |
| StorageEngine.Engine.RetrieveChunk | internal/storage/engine.go:106-121 | the content of an indexed chunk whose file is there and readable |
| StorageEngine.Engine.DeleteChunk | internal/storage/engine.go:124-148 | the new index, disk, metadata file and status; an entry without a file cannot be deleted |
| StorageEngine.Engine.CalculateUsedBytes | internal/storage/engine.go:158-166 | the 64-bit sum of the sizes of the indexed files that exist |
| StorageEngine.Engine.SaveMetadata | internal/storage/engine.go:268-281 | the metadata file holds the index, is unchanged, or is undecodable, by outcome |
| StorageEngine.Engine.LoadMetadata | internal/storage/engine.go:240-265 | the decoded index without the entries whose file is missing; empty if there is nothing to decode |
| StorageEngine.Engine.constructor | internal/storage/engine.go:27-47 | a new engine has the default quota and the recovered index |
| StorageEngine.Engine.Cleanup | internal/storage/engine.go:284-329 | removes exactly the removable plain files that are neither the metadata file nor named in the index |
| ChunkStore.StoreChunkFailure | internal/storage/engine.go:66-99 | a failed store changes at most the chunk's own entry and file, and leaves a file exactly for a partial write or a failed cleanup |
| ChunkStore.StoreChunkStatusExactly | internal/storage/engine.go:66-99 | each status has exactly its cause, in the order of the checks |
| ChunkStore.StoreChunkLeaves | internal/storage/engine.go:88-99 | a stored chunk can be read; a failed write leaves what was written or what was there |
| ChunkStore.DeleteChunkExactly | internal/storage/engine.go:128-146 | which deletions fail and why, and that the chunk is gone after all others, even if saving fails |
| ChunkStore.StoreChunkAddsSize | internal/storage/engine.go:71-92 | storing adds exactly the chunk's size to the used bytes |
| ChunkStore.DeleteChunkFreesSize | internal/storage/engine.go:134-139 | deleting frees exactly the chunk's size |
| ChunkStore.StoreChunkWithinQuota | internal/storage/engine.go:70-75 | refusal means that the chunk does not fit, and a stored chunk keeps the quota, exactly while the 64-bit sum does not wrap around |
| ChunkStore.LoadedChunksHaveFiles | internal/storage/engine.go:255-261 | after loading every indexed chunk has a file, whatever was on disk |
| ChunkStore.LoadedExactly | internal/storage/engine.go:240-261 | exactly the recorded entries with a file are loaded, and none from a record that cannot be opened or decoded |
| ChunkStore.RecordIsLastWritten | internal/storage/engine.go:268-281 | over every run the metadata file is the index of the last save that could create it, undecodable if that save failed, and untouched by saves that could not |
| ChunkStore.LastSaveHoldsIndex | internal/storage/engine.go:92-144 | over every run from any state, a fresh engine included, the metadata file holds the index whenever the last attempted save succeeded |
| ChunkStore.RestartRecovers | internal/storage/engine.go:240-265 | after any such run a restart recovers exactly the entries whose files exist, and the whole index exactly if all files are there |
| ChunkStore.CleanupRemovesOrphansOnly | internal/storage/engine.go:294-325 | cleanup never removes an indexed chunk, and with successful removals leaves only indexed names and the metadata file among plain files |
| ChunkStore.CleanupExactly | internal/storage/engine.go:294-325 | exactly the removable files of the directory go that are neither `metadata.gob` nor named like an indexed chunk file |
| FileStore.DecimalIsInjective | internal/storage/operations.go:130 | shard numbers are told apart by their decimal form |
| FileStore.ShardIdsAreInjective | internal/storage/operations.go:129-134 | shard identifiers never collide across files or indices, whatever strings stand for the hashes |
| FileManagement.FileManager.StoreFile | internal/storage/operations.go:89-159 | the new state and result for every combination of outcomes, roll back included |
| FileManagement.FileManager.StoreNewShards | internal/storage/operations.go:129-140 | shards are stored in order; at the first failure the earlier ones are deleted again |
| FileManagement.FileManager.AddFile | internal/storage/operations.go:142-154 | a failed index save deletes all shards and the entry |
| FileManagement.FileManager.RetrieveFile | internal/storage/operations.go:162-223 | the result for every metadata entry and every set of readable shards, integrity check and index out of range included |
| FileManagement.FileManager.DeleteFile | internal/storage/operations.go:226-253 | the new state and result; shard deletion errors are ignored |
| FileManagement.FileManager.UpdateFileMetadata | internal/storage/operations.go:439-445 | the new state, whether or not saving succeeds: the entry is replaced |
| FileManagement.Reopen | internal/storage/engine.go:27-47 | a new engine and file manager over an old directory are the restarted state |
| StoreRollback.StoreFileIsAllOrNothing | internal/storage/operations.go:129-154 | after a failure with successful removals both indexes are as before except for the entry of a failed metadata save, foreign files are untouched, and fresh shard paths leave the disk as it was exactly if the failing store left nothing |
| StoreRollback.IndexRestoredExactly | internal/storage/engine.go:66-99 | a failed call restores the chunk index exactly if no shard gets as far as a failing save of it; always if every such save succeeds |
| StoreRollback.ExistingChunksUntouched | internal/storage/operations.go:129-154 | chunks that existed earlier keep entry and content whatever fails, deletions included |
| StoreRollback.LeftoverEntryBlocksStore | internal/storage/engine.go:66-144 | whatever else is in the way, a StoreFile of the content with more shards than the number of the leftover entry fails; the entry can be deleted exactly if its file is still there |
| StoreOutcome.LeftoverEntryBlocksExactly | internal/storage/operations.go:129-140 | in any valid state, a new file that fits, stored without failures, succeeds exactly if none of its shards has an entry already |
| FileRuns.StoreFileHolds | internal/storage/operations.go:128-158 | after a success every shard is held as sharding produced it and the metadata describes it |
| FileRuns.StoreFileRecords | internal/storage/operations.go:109-143 | the recorded name, sizes, counts, peers and shard hashes |
| FileRuns.StoreFileResultExactly | internal/storage/operations.go:90-159 | the result for every cause of failure, in order |
| FileRuns.RetrieveFileFailsExactly | internal/storage/operations.go:163-208 | which retrievals fail before reconstruction, told from what is indexed and readable |
| FileRuns.OpDisturbsExactly | internal/storage/operations.go:89-445 | storing, deleting or updating metadata disturbs a held file exactly if it deletes it or replaces its metadata by something else |
| FileRuns.UpdateHidesShards | internal/storage/operations.go:172-175 | after an update without shard hashes the file cannot be retrieved |
| FileRuns.RunKeepsFileHeld | internal/storage/operations.go:89-445 | no run of operations that spare the file, with any failures, disturbs a held file |
| FileRuns.RetrieveAfterTailLoss | internal/storage/operations.go:177-223 | with any tail lost but enough shards left, the exact bytes come back |
| FileRuns.StoredFileIsRetrievable | internal/storage/operations.go:89-223 | the whole promise: store, any run, any tail loss, retrieve the stored bytes |
| Restarts.CallIsItsEvents | internal/storage/operations.go:129-154 | each call is the run of its chunk operations, one by one |
| Restarts.DeleteFileRecord | internal/storage/operations.go:226-253 | a restart forgets the deleted file exactly if its record could be written or did not list it; success exactly if it was indexed and the index saved |
| Restarts.UpdateFileRecord | internal/storage/operations.go:439-445 | what a restart finds after an update, by the outcome of the save |
| Restarts.StoreFileRecord | internal/storage/operations.go:142-154 | only a call that stored every shard writes the record; what a restart finds after it |
| Restarts.RestartKeepsExactly | internal/storage/operations.go:349-366 | a restart keeps a held file exactly if both metadata files list all of it |
| Restarts.CallKeeps | internal/storage/engine.go:268-281 | whatever fails in it, a call that spares a held file leaves it held, and leaves each metadata file listing it or undecodable |
| Restarts.KeptSurvivesExactly | internal/storage/engine.go:240-261 | a restart keeps such a file exactly if both metadata files decode |
| Restarts.RunKeeps | internal/storage/engine.go:240-281 | over every run with any failures, and restarts that each find both metadata files decodable, the file stays held and on record |
| Restarts.StoredFileSurvivesRestarts | internal/storage/engine.go:240-265 | store, any such run, any tail loss, restart: the stored bytes are retrieved exactly if both metadata files decode this time too |
| FileRuns.RetrievedBytesHaveTheHash | internal/storage/operations.go:213-218 | bytes are returned only under their own hash |
| FileRuns.RetrievalFailsWithoutFirstShard | internal/storage/operations.go:180-208 | with the first of three shards lost, the required two do not recover the file |
| Conservation.StoreFileAddsShare | internal/storage/operations.go:129-143 | a stored file adds total shards times rounded-up shard size |
| Conservation.StoreFileWithinQuota | internal/storage/engine.go:70-75 | a stored file keeps the quota if no quota check wraps around |
| Conservation.FailedStoreFileIsNeutral | internal/storage/operations.go:131-138 | without input/output failures a failed StoreFile leaves the used bytes alone |
| Conservation.DeleteFileFreesShare | internal/storage/operations.go:236-244 | deleting a file frees exactly that share |
| Conservation.BytesAreConserved | internal/storage/engine.go:71-166 | over every run of StoreFile and DeleteFile without failures, for every quota, used bytes are the 64-bit sum of the files' shares; if no quota check wraps around the sum is exact and never exceeds the quota |
| StoreOutcome.RunKeepsOwned | internal/storage/operations.go:129-143 | over every run without failures the chunk index holds nothing but shards of indexed files |
| StoreOutcome.StoreSucceedsExactlyAfterRun | internal/storage/operations.go:89-159 | after every such run StoreFile succeeds if the content is not empty, 1 <= required <= total, the file is not indexed, and its share fits into what the indexed files leave of the quota; exactly then if no quota check wraps around |
| StoreOutcome.ExampleIsStored | internal/storage/operations.go:89-159 | two bytes in three shards, two of them required, are stored under a quota of three bytes |
| StoreOutcome.DeleteUndoesStore | internal/storage/operations.go:226-253 | deleting right after storing restores both indexes and every file that is not a shard of this one, and the whole disk under fresh paths |
| PeerRanking.UpdatesKeepRange | internal/network/reputation.go:24-41 | scores stay within [0, 1] over every list of changes |
| PeerRanking.UpdateMovesScore | internal/network/reputation.go:28-39 | a change moves the score by exactly its amount until an end is reached, penalties lower and rewards raise it, and nobody else's score moves |
| PeerRanking.RewardNeverLowersExactly | internal/network/reputation.go:28-53 | a reward does not lower the visible score exactly for known peers or rewards of at least one half |
| PeerRanking.RewardCanLower | internal/network/reputation.go:28-53 | a first reward of 0.1 takes an unknown peer from 0.5 to 0.1 |
| PeerRanking.SortByScore | internal/network/reputation.go:120-126 | the nested exchange loops leave a descending permutation |
| PeerRanking.GetBestPeers | internal/network/reputation.go:101-135 | a duplicate-free descending list of eligible peers, as many as asked for or all, with nobody better left out |
| PeerRanking.BestPeersMeaning | internal/network/reputation.go:105-134 | nobody below the minimum is listed, everybody at or above it is if the list is not full, and nobody left out scores more |
| NetworkState.NetworkView.UpdatePeer | internal/network/reputation.go:24-41 | the new score is the clamped sum, nobody else's moves; scores in range stay in range |
| PeerStanding.RunKeepsInRange | internal/network/reputation.go:138-159 | over every run of interactions, announcements, connections, disconnections, periodic updates and sweeps, scores and reliabilities stay within [0, 1] |
| PeerStanding.InteractionMovesOne | internal/network/reputation.go:138-159 | an interaction moves the reliability of one known peer in its own direction, unless it is at that end already, and touches nobody else |
| PeerStanding.EventMovesScore | internal/network/reputation.go:138-159 | by how much a good or bad interaction, an announcement, a connection and a disconnection move a score |
| PeerStanding.PeriodicUpdateMovesScores | internal/network/reputation.go:77-97 | which peers decay by a tenth or a twentieth, which gain 0.02, and that no other score moves |
| PeerStanding.SweepForgetsExactly | internal/network/decentralized_node.go:364-369 | a sweep forgets exactly the peers unseen for more than ten minutes |
| PeerStanding.IntroductionsRecord | internal/network/gossip-discovery.go:113-126 | an announcement updates information and time and keeps reliability; a connection only makes a peer known |
| PeerStanding.ReliabilityIsItsInteractions | internal/network/gossip-discovery.go:113-129 | over every run the reliability of a known peer is decided by the interactions with it alone; announcements and connections never reset it |
| PeerStanding.SweepResetsReliability | internal/network/decentralized_node.go:421-432 | a peer found stale by a sweep returns with reliability 1.0, whatever it was and whatever happened in between; from then on only later interactions count |
| NetworkState.NetworkView.PerformReputationUpdate | internal/network/reputation.go:73-98 | in any map order, exactly the peers unseen for long decay and the active reliable ones are boosted |
| PeerStanding.SeenPeerStays | internal/network/decentralized_node.go:360-384 | a peer seen at some time is not swept within the ten minutes that follow |
| PeerStanding.SevenFailures | internal/network/storage_operations.go:698-702 | a fully reliable peer without announcement stays suitable for exactly seven failures in a row |
| PeerStanding.SuccessesBuildUp | internal/network/reputation.go:138-147 | n successes in a row raise reliability by 0.05 each, up to one |
| PeerStanding.SuitableUnannounced | internal/network/storage_operations.go:697-702 | without announcement a peer is suitable from a reliability of 0.3 on |
| PeerStanding.OverfullPeerPasses | internal/network/storage_operations.go:693-697 | an active peer without capacity and with one used byte passes as suitable |
| PeerStanding.SuitableMeansFreeSpaceExactly | internal/network/storage_operations.go:688-702 | the suitability test means free space exactly unless the unsigned subtraction wraps around |
| NetworkState.NetworkView.HandleFileAnnounce | internal/network/gossip-discovery.go:143-170 | every announced location is merged into its list; an announcement without locations ends in a panic |
| NetworkState.NetworkView.AdoptLocalFiles | internal/network/decentralized_node.go:187-201 | this node is entered for each local file, even where it is listed already |
| NetworkState.NetworkView.HandleFileDelete | internal/network/gossip-discovery.go:205-222 | exactly the named peer leaves the named list; an empty list goes away |
| NetworkState.NetworkView.UpdateFileIndex | internal/network/decentralized_node.go:265-284 | the same as announcing one location with one peer |
| NetworkState.NetworkView.RemoveFileFromIndex | internal/network/decentralized_node.go:287-307 | the same as a delete message |
| NetworkState.NetworkView.MergeQueryResponse | internal/network/storage_operations.go:919-940 | every list of the answer is merged, in whatever map order |
| NetworkState.NetworkView.CleanupStalePeers | internal/network/decentralized_node.go:360-384 | exactly the stale peers lose entry, score and every place in the lists |
| FileIndex.RunRefinesSets | internal/network/gossip-discovery.go:143-222 | over every run of messages, own announcements and start-up entries, membership in the lists is what they mean for sets |
| FileIndex.ListedFilesExactly | internal/network/gossip-discovery.go:145-221 | which files are listed after each event; a list emptied by a delete message goes away, one emptied by a sweep stays |
| FileIndex.MergeAppends | internal/network/gossip-discovery.go:150-164 | merging keeps the list and appends to it |
| FileIndex.ApplyDuplicateFreeExactly | internal/network/gossip-discovery.go:150-164 | no message introduces a duplicate; an own announcement and a start-up entry do exactly if the list, or the node in its list, was a duplicate already |
| FileIndex.RunDuplicateFreeExactly | internal/network/decentralized_node.go:187-201 | a run is free of duplicates throughout exactly if each of its events keeps them out |
| FileIndex.OverwriteForgetsExactly | internal/network/storage_operations.go:728-731 | announcing a file forgets exactly the holders that are not announced |
| FileIndex.MergesConverge | internal/network/storage_operations.go:919-940 | any orders and repetitions of the same announcements and merges end in the same sets |
| FileIndex.WithdrawalCommutes | internal/network/gossip-discovery.go:205-222 | a merge and a withdrawal commute exactly when the merge claims nothing that is withdrawn |
| FileIndex.SweepIsComplete | internal/network/decentralized_node.go:371-379 | no removed peer is left in any list, everybody else stays |
| Distribution.SelectStoragePeers | internal/network/storage_operations.go:619-717 | at most the asked number of distinct connected peers other than this node; fewer only if every usable peer is included; the ranked peers first, in ranking order |
| Distribution.StoragePeersMeaning | internal/network/storage_operations.go:619-717 | the same without the vocabulary of the selection: score at least 0.7, or known and suitable |
| Distribution.RankedPeersLead | internal/network/storage_operations.go:633-657 | well-reputed peers come first by descending score, and a ranked peer is left out only as gateway, unconnected, or this node |
| Distribution.GatewaysChosenExactly | internal/network/storage_operations.go:643-708 | a chosen gateway stands behind the ranked peers and is usable; if too few peers are found in all, a gateway is chosen exactly if it is usable |
| Distribution.GatewayFillsPlace | internal/network/storage_operations.go:659-708 | with a place left and only gateways usable besides the ranked peers, a gateway is chosen |
| Distribution.CompletedOnDistinctPeers | internal/network/storage_operations.go:84-129 | completed transfers are on as many distinct peers |
| Distribution.ReachedPeersHold | internal/network/storage_operations.go:84-129 | exactly the peers that received their shard hold one, each of them one |
| Distribution.PlaceShards | internal/network/storage_operations.go:64-136 | fails exactly if the file cannot be sharded or fewer than the required shards arrive; otherwise every transfer is recorded as it happened |
| Distribution.StorageOperations.StoreFileDistributed | internal/network/storage_operations.go:52-156 | succeeds exactly if there are enough peers, the file can be sharded and at least the required shards arrive on distinct peers; records every transfer as it happened and keeps the metadata without shard hashes; failure changes nothing |
| Distribution.StorageOperations.AnnouncementPeers | internal/network/storage_operations.go:159-190 | storage peers, this node, and the gateways not yet listed |
| Distribution.AnnouncementNames | internal/network/storage_operations.go:159-190 | all storage peers, this node and all gateways, nobody else and nobody twice |
| Distribution.StorageOperations.AnnounceFile | internal/network/storage_operations.go:721-731 | the view changes exactly for files that already have local metadata |
| Distribution.RetrieveShards | internal/network/storage_operations.go:471-506 | whatever the order of arrival, the retrieved shards in index order, or a failure if too few |
| Distribution.InOrderHolds | internal/network/storage_operations.go:498-506 | exactly what was fetched is in the list |
| Distribution.InOrderCounts | internal/network/storage_operations.go:486-496 | as many shards as were fetched are in the list |
| Distribution.RetrievedPlacementExactly | internal/network/storage_operations.go:498-506 | for retrieved shards position and index agree exactly when no shard with data follows a missing one |
| LockOrder.StepKeepsInvariant | internal/network/validator.go:110-156 | every lock operation keeps the hierarchy and mutual exclusion |
| LockOrder.NoDeadlock | internal/network/storage_operations.go:620-636 | in every reachable state of hierarchy-respecting goroutines somebody can step or all are finished |
| LockOrder.RunsAreBounded | internal/network/storage_operations.go:806-825 | every run ends after exactly its number of lock operations |
| LockRoutines.RoutineIsBalanced | internal/network/gossip-discovery.go:110-129 | every modelled code path acquires upwards only, never twice, and releases everything |
| LockRoutines.NestingsOccur | internal/network/validator.go:110-156 | the nestings of the validator, view and reputation mutexes do occur |
| LockRoutines.StorageNestingsOccur | internal/storage/operations.go:282-302 | so do those of the storage operations, file manager and engine mutexes |
| LockRoutines.NodeNeverDeadlocks | internal/network/reputation.go:74-98 | any number of goroutines running any of the code paths never deadlock, even when waiting writers hold back readers |

## Left out

- SortDescending: the library sort behind `sort.Slice` is not visible; an exchange sort stands in for it and only permutation and order are used.
- StoreFileDistributed: sending shards over streams and publishing the announcement are outcomes given as inputs.
- SumCodeIsLawful: shows the law for two of three shards only; the arithmetic of the Reed-Solomon library is not part of this model.
- RunKeepsFileHeld: like every result about runs, speaks of codes that meet the law; above 256 shards the library uses another code, with longer shards, that is not part of this model.
- BytesAreConserved: runs of StoreFile and DeleteFile only; an update of metadata from elsewhere adds an entry without local shards.
- Shares with non-consecutive labels, whose divisions are inexact, and secrecy of shares.
- `float64` rounding: weights, scores and draws are reals, a draw is any real in [0, 1].
- Chunk identifiers containing a path separator are treated as plain concatenation; path cleaning is not modelled.
- `Cleanup` would also remove the file manager's own metadata file, and two engines may share a directory; the model has one engine per directory and keeps the two metadata files apart from the chunk files.
- A metadata file that decodes partially before failing; decoding succeeds or yields nothing.
- Sharing of `Validator`, `PeerInfo` and `FileMetadata` pointers between components: peer and file records are values, candidates are objects.
- Gateway tags are reduced to one flag per peer; searching tag strings is not modelled.
- Retrieval over the network end to end: the receiver only estimates the original size (`internal/network/node.go`), so no exact round trip holds there.
- Stake lookup, peer eligibility and the tag added to selected peers; eligible candidates are an input.
- Mutexes of discovery, the base node and the gossip manager, which are never held across the modelled ones; data races on the reputation map.
- libp2p, DHT, pubsub, encodings, HTTP, zero-knowledge proofs, signatures, statistics, logging, SDKs and command mains.
