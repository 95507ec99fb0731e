# Arkhe runtime: a verified model

This project models the parts of the Arkhe runtime whose correctness depends on more than one function: secret sharing
for key recovery, unbiased random sampling, event projections, the export of the write-ahead log, the action context
with its admission gate, envelope encryption with key rotation, the chain-signed token journal, and the erasure cascade.

Where the runtime updates something in place the model does too: classes and loops, each proved equal to a function on
values. What the runtime promises is then proved about those functions, over every input and every run.

| area | value-level files | objects and loops |
|---|---|---|
| threshold secret sharing | `Gf256`, `Polynomials`, `Shamir` | `Gf256`, `Shamir` |
| random streams, ranges, shuffles | `Lemire`, `FisherYates` | `Rng`, `Shuffle` |
| projection router | `RouterSpec`, `RouterRuns` | `Router` |
| log export | `WalFrames`, `WalSinkSpec` | `WalStreams` |
| entity ids, action context, production actions | `EntityIds`, `ContextSpec`, `ActionRules` | `EntityIds`, `ActionContexts` |
| dispatch with the admission gate | `GateSpec`, `Lifecycle` | `Runtime` |
| space hierarchy | `Spaces` | `ActionContexts` |
| encryption and rotation | `CryptoSpec` | `Crypto` |
| consumed-token journal | `Journal` | `Journal` |
| erasure cascade | `ErasureSpec` | `Erasure` |

`Bytes` and `Types` hold byte-string layouts and shared value types.

## Parameters and assumptions

- Hashes, ciphers, signatures, the extendable-output stream, entropy, the writer under the sink and the projections
  behind the router are function parameters. A law is required only where a statement needs it: what was sealed opens to
  itself, what was serialized deserializes to itself, a signer's signatures verify. Collisions are never assumed away
  for a whole hash: statements name the messages or payloads actually hashed that must not collide.
- Run statements about entity ids require that no two submissions recorded for one instance spawn under the same type
  code at the same tick, and that what they hash for ids does not collide. That is weaker than strictly increasing ticks,
  and needed because the id sequence restarts with every context.
- The kernel is a map from entities to their components. Setting or removing a component of an entity never spawned
  does nothing, and spawning an existing entity changes nothing. All operations are authorized.
- A bounded draw requires that the stream ahead holds an accepted word; the loop itself has no other bound.

## Findings

- `dispatch` cannot create a space below a parent: the bridge binds no view, so the parent is never found and the
  submission is recorded without effect (`GateSpec.SpaceIsCreatedIffRooted` gives the exact condition).
- `dispatch` binds no handle or idempotency index either, as the bridge documents: a handle in use and a repeated key
  are not refused there (`Lifecycle.ActorIsRegistered` and `ActivityIsRecorded` have no such condition, unlike
  `ActionRules` for bound indices).
- After a failed sync, flushing again writes the same bytes twice and the reader rejects the stream
  (`WalSinkSpec.RetryAfterFailedSync`; `ReaderGetsWhatWasTaken` says for which runs the round trip holds).
- `rotate_dek` does not check the PII code of the envelopes it rotates, so an envelope of another family comes out
  labelled with the rotated type (`CryptoSpec.RotationRelabels`, `RotationPreservesReading`).
- When the destruction-log index overflows, the key has already left the live set; the comment on the cascade speaks of a
  clean retry state with the key live (`ErasureSpec.OverflowLosesTheKey`, `FailedShredIsCleanIff`).
- A redelivered erasure event for a tombstoned user is completed with an empty receipt (`ErasureSpec.RedeliveryIsEmpty`).
- A previewed id differs from the next one at the very end of the id sequence (`ContextSpec.PreviewForetellsNext`).

Where comments and code disagree the model follows the code: retries of `derive_entity_id` vary a retry number of their
own and not the sequence; the cascade shreds before it tombstones, although the observer's doc list names the tombstone
first; the sink's buffer bound is the larger of the capacity and the header.

## Model

| member | source | states |
|---|---|---|
| `Gf256.GfMul` | arkhe-forge-platform/src/hf2_kms/threshold.rs:114-129 | the multiplication loop, with its 16-bit accumulator, computes the field product for all bytes |
| `Gf256.MulIsUnique` | arkhe-forge-platform/src/hf2_kms/threshold.rs:106-129 | the product is the only map that is additive, doubles by a shift reduced by 0x11B, and sends 1 to `a`: the multiplication of section 4.2 of FIPS 197 |
| `Gf256.XTimeIsShiftModulo` | arkhe-forge-platform/src/hf2_kms/threshold.rs:106-129 | the in-loop shift is a 9-bit shift whose overflow 0x11B cancels |
| `Gf256.MulAssoc` | arkhe-forge-platform/src/hf2_kms/threshold.rs:114-129 | the product is associative |
| `Gf256.MulComm` | arkhe-forge-platform/src/hf2_kms/threshold.rs:114-129 | the product is commutative |
| `Gf256.MulAddLeft` | arkhe-forge-platform/src/hf2_kms/threshold.rs:109-129 | the product distributes over XOR |
| `Gf256.GfInv` | arkhe-forge-platform/src/hf2_kms/threshold.rs:134-149 | the square-and-multiply loop computes the 254th power, and 0 for 0 |
| `Gf256.InvIsInverse` | arkhe-forge-platform/src/hf2_kms/threshold.rs:131-149 | that power is the multiplicative inverse of every non-zero byte |
| `Gf256.FrobeniusPeriod` | arkhe-forge-platform/src/hf2_kms/threshold.rs:131-149 | raising any byte to the 256th power gives it back (the Fermat identity the inversion relies on) |
| `Polynomials.RootCount` | arkhe-forge-platform/src/hf2_kms/threshold.rs:279-303 | a polynomial with as many distinct roots as coefficients is zero |
| `Polynomials.UniqueInterpolant` | arkhe-forge-platform/src/hf2_kms/threshold.rs:279-303 | values at t distinct points determine a polynomial of length t |
| `Polynomials.LagrangeRecovers` | arkhe-forge-platform/src/hf2_kms/threshold.rs:279-303 | the Lagrange sum of a polynomial's values at t distinct nodes is its value at any point |
| `Polynomials.InterpolantExists` | arkhe-forge-platform/src/hf2_kms/threshold.rs:168-224 | any t values at t distinct points come from some polynomial of length t |
| `Shamir.PolyEvalWithConst` | arkhe-forge-platform/src/hf2_kms/threshold.rs:168-175 | the Horner loop evaluates constant term and coefficients as one polynomial |
| `Shamir.SplitSecret` | arkhe-forge-platform/src/hf2_kms/threshold.rs:186-228 | validation, the empty secret and the entropy failure in source order; otherwise shares 1..=n of one polynomial per byte |
| `Shamir.InterpolateAtZero` | arkhe-forge-platform/src/hf2_kms/threshold.rs:284-303 | the nested interpolation loops compute the Lagrange value at 0 of one byte column |
| `Shamir.CombineShares` | arkhe-forge-platform/src/hf2_kms/threshold.rs:236-306 | accepts exactly a valid configuration with enough shares of different non-zero indices and one length, each rejection with the error and operands of the first failing check; on success the first t shares are interpolated |
| `Shamir.CombineInvertsSplit` | arkhe-forge-platform/src/hf2_kms/threshold.rs:186-306 | for every valid (t, n), secret and coefficients, any list of at least t distinct shares in any order combines to the secret |
| `Shamir.FewSharesFitEverySecret` | arkhe-forge-platform/src/hf2_kms/threshold.rs:168-224 | for any t-1 distinct non-zero indices and any share bytes, each candidate byte is explained by exactly one coefficient vector |
| `Shamir.FewSharesTellNothing` | arkhe-forge-platform/src/hf2_kms/threshold.rs:186-228 | secrecy of whole splits: any t-1 shares of a split are also those of any other secret of the same length, through exactly one choice of all its coefficients |
| `Shamir.ShareByteIsPowerSum` | arkhe-forge-platform/src/hf2_kms/threshold.rs:201-223 | byte b of share k is the secret byte plus the sum of its own t-1 coefficients times the powers of k+1, with no coefficient shared between bytes |
| `Shamir.ShareIndices` | arkhe-forge-platform/src/hf2_kms/threshold.rs:204-223 | share k carries the index k+1, so indices are distinct and never 0 |
| `Rng.RngSource.FillBytes` | arkhe-rand/src/lib.rs:169-188 | emits exactly the next bytes of the stream whatever was cached, through prefetch blocks or directly, and keeps emitted bytes plus cached rest a prefix of the stream |
| `Rng.RngSource.Split` | arkhe-rand/src/lib.rs:150-159 | the child is seeded by the parent's next 32 bytes, starts its own stream, and the parent moves past exactly those bytes |
| `Rng.ServeRequests` | arkhe-rand/src/lib.rs:145-188 | fills and splits served in any order on one source: together the bytes and child seeds handed out are one contiguous stretch of its stream, each byte once; the source moves on by exactly their number, and the children are unused and share no state |
| `Rng.TryWord` | arkhe-rand/src/range.rs:207-220 | one loop turn, with its lazily computed threshold, accepts and samples as the plain rejection rule does |
| `Rng.LemireDraw` | arkhe-rand/src/range.rs:201-246 | returns the sample of the first accepted word of the stream and consumes exactly the words up to it; bound 0 returns the raw word |
| `Rng.DrawIsInWindow` | arkhe-rand/src/range.rs:201-246 | a draw skips exactly the words whose product has a low half under W mod n, and returns the r whose window of products the next word falls in; it consumes all of these words |
| `Rng.WordValues` | arkhe-rand/src/range.rs:201-246 | the words are read lowest byte first |
| `Lemire.WindowOf` | arkhe-rand/src/range.rs:207-220 | a word is accepted for r exactly when its product with n lies between r * W + W mod n and the next multiple of W |
| `Lemire.UniformSamples` | arkhe-rand/src/range.rs:201-246 | each sample below n comes from exactly floor(W / n) of the W words |
| `Lemire.RejectionCount` | arkhe-rand/src/range.rs:201-246 | exactly W mod n words are rejected |
| `Lemire.FullRange` | arkhe-rand/src/range.rs:201-232 | the full range rejects nothing and returns the word itself |
| `Rng.GenRangeInclusive` | arkhe-rand/src/range.rs:62-72 | for every integer type the result is low plus a draw of 4 bytes a word, 8 for u64 and usize, wrapping; for every range that is not inverted, the full one through the sentinel 0 included, it lies in the range |
| `Rng.GenRange` | arkhe-rand/src/range.rs:170-177 | an empty range returns its start and takes nothing from the stream; otherwise the result is in the range, drawn from words of 4 bytes, 8 for u64 and usize |
| `Rng.InclusiveIsUniform` | arkhe-rand/src/range.rs:62-72 | every value of every inclusive range of every integer type is hit by equally many words, with the exact number rejected |
| `Rng.InclusiveBytesAreUniform` | arkhe-rand/src/range.rs:62-72 | the same for the byte strings a draw reads: those that give a value are exactly the ones of the word length whose little-endian word gives it, equally many for every value |
| `Shuffle.ShuffleInPlace` | arkhe-rand/src/shuffle.rs:11-22 | the in-place loop leaves the array permuted by the draws it took from the stream |
| `FisherYates.ShuffleIsPermutation` | arkhe-rand/src/shuffle.rs:11-22 | the result is always a permutation of the slice |
| `FisherYates.FirstRoundBy` | arkhe-rand/src/shuffle.rs:11-22 | the first round exchanges the last place with the drawn one, and the later rounds never touch it again |
| `Shuffle.FirstRound` | arkhe-rand/src/shuffle.rs:11-22 | so it does with the first draw of the stream, made below the length, the rest being shuffled by the stream after that draw |
| `FisherYates.DrawsAreDetermined` | arkhe-rand/src/shuffle.rs:11-22 | on distinct elements different draw vectors give different results |
| `FisherYates.EveryPermutationIsReached` | arkhe-rand/src/shuffle.rs:11-22 | every permutation comes from some draw vector |
| `FisherYates.ShuffleIsUniform` | arkhe-rand/src/shuffle.rs:11-22 | each permutation of distinct elements comes from exactly one draw vector, and that vector from a number of word vectors that is the same for every permutation |
| `ProjectionRouting.ProjectionRouter.RegisterProjection` | arkhe-forge-platform/src/projection.rs:426-432 | appends the projection and indexes it under each code it observes, once per listing |
| `ProjectionRouting.ProjectionRouter.ChangeState` | arkhe-forge-platform/src/projection.rs:502-515 | refused while draining; otherwise every projection is told in order, and the first refusal keeps the state |
| `ProjectionRouting.ProjectionRouter.DispatchEvent` | arkhe-forge-platform/src/projection.rs:570-669 | the object's fields and projections end exactly as the value-level dispatch: checks, fan-out in registration order, then cursor or pin |
| `RouterSpec.RegisterAddsOne` | arkhe-forge-platform/src/projection.rs:426-432 | registration appends the projection, lists its index once more per listing of a code, and changes nothing else |
| `RouterSpec.TransitionMovesIff` | arkhe-forge-platform/src/projection.rs:502-515 | a router that is not draining moves to the next state exactly when every projection accepts it, after telling each; otherwise it keeps its state after telling those up to the first refusal |
| `RouterSpec.FanOutCompletesIff` | arkhe-forge-platform/src/projection.rs:646-668 | a fan-out is complete exactly when each listed projection has passed the event or accepts it |
| `RouterSpec.FanOutStopsAtRefusal` | arkhe-forge-platform/src/projection.rs:646-668 | it goes through the list in order and stops at the first refusal: those before it have passed the event, those after it are untouched, and none is called twice |
| `RouterSpec.FanOutCountsApplied` | arkhe-forge-platform/src/projection.rs:646-668 | the count returned is the number of events the projections have logged |
| `RouterSpec.RegisterKeepsIndex` | arkhe-forge-platform/src/projection.rs:426-432 | after registration the index lists a projection under a code exactly when it observes it |
| `RouterSpec.FanOutKeepsIndex` | arkhe-forge-platform/src/projection.rs:570-669 | no dispatch breaks that index |
| `RouterRuns.StepKeeps` | arkhe-forge-platform/src/projection.rs:408-669 | registering, changing state and dispatching keep the run invariant, failures included |
| `RouterRuns.AppliedExactlyOnce` | arkhe-forge-platform/src/projection.rs:646-668 | in every run each projection has applied, in order and without repeats, exactly the accepted events it observes after its start, plus at most the pinned one |
| `RouterRuns.AcceptedIsGapless` | arkhe-forge-platform/src/projection.rs:582-633 | in every run the accepted events strictly increase without gaps under the cursor, and a pin is a legal successor of it |
| `RouterRuns.PinIsNext` | arkhe-forge-platform/src/projection.rs:601-622 | after a failure nothing is accepted before the pinned position, code and payload |
| `RouterRuns.ContiguousIsSuccessor` | arkhe-forge-platform/src/projection.rs:622-633 | the contiguity check with its saturating increment accepts exactly the successors, also at the last sequence number |
| `RouterRuns.FanOutSettles` | arkhe-forge-platform/src/projection.rs:646-668 | a fan-out leaves every projection before or past the event, and a complete one leaves every observer past it, also one that lists a code twice |
| `RouterRuns.AcceptedGrows` | arkhe-forge-platform/src/projection.rs:570-669 | the accepted stream only ever grows at its end |
| `RouterRuns.DispatchByStream` | arkhe-forge-platform/src/projection.rs:570-669 | in every run the fan-out is reached exactly by the pinned event or, without a pin, by a first event or one at a successor position; the event accepted last is answered without one; all else leaves the router untouched |
| `RouterRuns.RefusalsAreExact` | arkhe-forge-platform/src/projection.rs:570-633 | which refusal every other event gets: state, conflict at the cursor, behind or ahead of the pin or cursor, conflict at the pin |
| `RouterRuns.DispatchSucceedsIff` | arkhe-forge-platform/src/projection.rs:570-669 | a dispatch succeeds exactly for the event accepted last, or one the stream can go on with that every listed observer has passed or accepts |
| `RouterRuns.EveryStreamIsAccepted` | arkhe-forge-platform/src/projection.rs:570-669 | progress: with projections that do not refuse, an active router without a pin accepts every gapless stream that goes on where the accepted one ends, and every projection applies all it wants of it |
| `RouterRuns.DrainingIsTerminal` | arkhe-forge-platform/src/projection.rs:502-515 | once draining, no run changes the state, accepts an event or touches a registered projection |
| `WalStreams.BufferedWalSink.AppendRecord` | arkhe-forge-platform/src/wal_export/buffered_sink.rs:220-277 | length, succession, header, capacity in source order; a rejected first append still leaves the header |
| `WalStreams.BufferedWalSink.FlushBuffer` | arkhe-forge-platform/src/wal_export/buffered_sink.rs:279-295 | writes header and buffer, syncs, then clears; a failure keeps the buffer |
| `WalSinkSpec.AppendTakesIff` | arkhe-forge-platform/src/wal_export/buffered_sink.rs:220-277 | an append is taken exactly when the payload is legal, the sequence number follows, and header and frame fit; it then adds the frame, behind the header if that was missing |
| `WalSinkSpec.AppendRefusals` | arkhe-forge-platform/src/wal_export/buffered_sink.rs:220-277 | which error it gives otherwise; all but the overflow leave the sink as it was |
| `WalSinkSpec.FlushOutcome` | arkhe-forge-platform/src/wal_export/buffered_sink.rs:279-295 | a flush succeeds exactly when there is nothing to write or the writer is done, and what each outcome leaves on the stream and in the buffer |
| `WalStreams.StreamingWalReader.OpenV1` | arkhe-forge-platform/src/wal_export/reader.rs:122-142 | opens exactly streams that start with the magic |
| `WalStreams.StreamingWalReader.NextRecord` | arkhe-forge-platform/src/wal_export/reader.rs:153-213 | one frame per call: payload and position, clean end only on a frame boundary, or the reason it broke |
| `WalStreams.StreamingWalReader.ReadToEnd` | arkhe-forge-platform/src/wal_export/reader.rs:153-217 | calling the reader until it stops returns exactly the records of the value-level reader and the reason it stopped; after a clean end the cumulative position is the length of the stream |
| `WalFrames.OpenedIff` | arkhe-forge-platform/src/wal_export/reader.rs:122-142 | a stream opens exactly when it begins with the magic; a short one and a foreign one have their own errors |
| `WalFrames.PeekTells` | arkhe-forge-platform/src/wal_export/reader.rs:153-213 | exactly when the reader ends, finds a record, or breaks, and on what |
| `WalStreams.WalToSink` | arkhe-forge-platform/src/dispatcher.rs:310-333 | the export loop with its single retry ends in the state and result of the value-level export |
| `WalFrames.ReadUndoesFrames` | arkhe-forge-platform/src/wal_export/reader.rs:153-213 | reading undoes framing for every list of legal payloads, ending cleanly |
| `WalFrames.FramesUndoRead` | arkhe-forge-platform/src/wal_export/reader.rs:153-213 | the frames of what was read are the front of the input, and all of it after a clean end |
| `WalFrames.StreamsAreHeaderAndFrames` | arkhe-forge-platform/src/wal_export/reader.rs:122-213 | the reader accepts a byte string to its end exactly when it is the header and the frames of what it returned |
| `WalFrames.CutStream` | arkhe-forge-platform/src/wal_export/reader.rs:153-213 | a stream cut anywhere yields a prefix of its records, then a clean end exactly on a frame boundary |
| `WalSinkSpec.ReaderGetsWhatWasTaken` | arkhe-forge-platform/src/wal_export/buffered_sink.rs:200-295 | for any interleaving of appends and flushes ending in a successful flush the reader returns exactly the accepted payloads and a clean end if and only if no flush of the run wrote its bytes and then failed to sync; the accepted seqs are consecutive either way |
| `WalSinkSpec.CrashLeavesAPrefix` | arkhe-forge-platform/src/wal_export/buffered_sink.rs:200-295 | at any moment of a run in which no flush wrote and then failed to sync, the stream is empty or the reader gets a prefix of the accepted payloads and a clean end |
| `WalSinkSpec.BufferIsBounded` | arkhe-forge-platform/src/wal_export/buffered_sink.rs:220-295 | in every run, whatever the writer does, the buffer never exceeds the capacity, or the 8-byte header when the capacity is smaller |
| `WalSinkSpec.FlushKeepsContentUnlessHalfFailed` | arkhe-forge-platform/src/wal_export/buffered_sink.rs:279-295 | a flush keeps written plus buffered bytes exactly when the writer does not write and then fail to sync |
| `WalSinkSpec.RetryAfterFailedSync` | arkhe-forge-platform/src/wal_export/buffered_sink.rs:279-295 | a concrete run: flushing again after a failed sync repeats the header and the reader rejects the stream |
| `WalSinkSpec.AppendOrRetry` | arkhe-forge-platform/src/dispatcher.rs:318-329 | after an overflow one flush and one retry are enough: if the flush is done, the retry fails only when the record can never be taken |
| `WalSinkSpec.ExportSucceeds` | arkhe-forge-platform/src/dispatcher.rs:310-333 | for any writer the export succeeds exactly when seqs follow each other, every frame fits the record ceiling and the capacity, and every flush attempted is done; then everything is on the stream; it reports an I/O error exactly when a flush is not done |
| `WalSinkSpec.ExportIsCapacityIndependent` | arkhe-forge-platform/src/dispatcher.rs:310-333 | from a fresh sink a successful export has written one header and the frames whatever capacity and writer, and they read back to the same payloads |
| `EntityIds.DeriveEntityId` | arkhe-forge-core/src/lib.rs:64-95 | the bounded retry loop returns the first non-zero hash |
| `EntityIds.DerivationExhausts` | arkhe-forge-core/src/lib.rs:64-95 | derivation gives up exactly when all sixteen retries hash to zero |
| `EntityIds.DeriveIsFirstNonZero` | arkhe-forge-core/src/lib.rs:64-95 | the id is the first of the 16 retries that does not hash to zero, and there is none exactly when all do |
| `EntityIds.MessageLayout` | arkhe-forge-core/src/lib.rs:71-86 | the 28 hashed bytes hold instance, type code, tick, sequence and retry number, each highest byte first |
| `EntityIds.IdsAreDistinct` | arkhe-forge-core/src/lib.rs:64-95 | equal ids come from equal instance, type code, tick and sequence exactly when the messages the two derivations hash do not collide: retries never overlap |
| `ContextSpec.StagedReadIsReplay` | arkhe-forge-core/src/context.rs:523-551 | for every op log and view the reverse scan returns what a forward replay of the sets and removes would read |
| `ContextSpec.StagedReadAnswers` | arkhe-forge-core/src/context.rs:523-551 | a staged read answers from the replayed state: nothing, the component, or an error that tells staged bytes that do not decode from bytes of the view |
| `ContextSpec.StagedReadForetellsCommit` | arkhe-forge-core/src/context.rs:507-551 | if every set finds its entity spawned, a staged read is also what the kernel will hold after the commit |
| `ContextSpec.StagedButNeverCommitted` | arkhe-forge-core/src/context.rs:523-551 | without that they differ: a component staged on an entity never spawned is read back but not committed |
| `ContextSpec.PreviewForetellsNext` | arkhe-forge-core/src/context.rs:653-669 | the preview equals the next id exactly when the sequence is not exhausted or derivation fails anyway |
| `ContextSpec.SuccessiveIdsDiffer` | arkhe-forge-core/src/context.rs:359-374 | one context never hands out the same id twice unless the messages hashed for the two collide |
| `ContextSpec.NoSelfLoop` | arkhe-forge-core/src/activity.rs:435-451 | no accepted activity targets its own id, though the check runs before the id is taken |
| `ContextSpec.SpawnFillsIn` | arkhe-forge-core/src/context.rs:414-440 | committing an accepted action gives its new entity exactly the components the action attached |
| `ContextSpec.CommitGrows` | arkhe-forge-core/src/user.rs:230-295 | committing any production action adds at most its own entity; of the others only an erased user's status changes |
| `ActionContexts.ActionContext.NextId` | arkhe-forge-core/src/context.rs:359-374 | the sequence is advanced, checked, before an id is handed out |
| `ActionContexts.ActionContext.EmitEvent` | arkhe-forge-core/src/context.rs:382-405 | the numbered record and the kernel operation are appended together, the event sequence saturating |
| `ActionContexts.ActionContext.StagedRead` | arkhe-forge-core/src/context.rs:523-551 | the reverse loop computes the staged read, errors told apart by where the bytes came from |
| `ActionContexts.ActionContext.EnsureActorEligible` | arkhe-forge-core/src/context.rs:623-651 | no binding passes, an active user passes, any other status and a missing one are refused with their own errors |
| `ContextSpec.EligibilityIsExact` | arkhe-forge-core/src/context.rs:623-651 | by the replayed state: an unbound actor passes, a bound one exactly when its user is active; a missing and any other status and undecodable bytes each have their own refusal |
| `ActionContexts.ActionContext.RegisterUser` | arkhe-forge-core/src/user.rs:230-258 | versions, key-derivation minimums, spawn and the three components, the status active |
| `ActionContexts.ActionContext.GdprEraseUser` | arkhe-forge-core/src/user.rs:263-295 | the blind pending write and the scheduled event |
| `ActionContexts.ActionContext.RegisterActor` | arkhe-forge-core/src/actor.rs:246-275 | versions, handle collision, spawn, profile and binding |
| `ActionContexts.ActionContext.CreateSpace` | arkhe-forge-core/src/space.rs:188-238 | versions, injected creator, eligibility, parent depth, spawn, configuration and cached depth |
| `ActionContexts.ActionContext.SubmitActivity` | arkhe-forge-core/src/activity.rs:410-452 | versions, injected actor, eligibility, idempotency, self-loop, spawn and record |
| `ActionContexts.ActionContext.Compute` | arkhe-forge-core/src/context.rs:359-467 | a rejected compute of any production action leaves operations and events as it found them; an accepted one appends exactly its own |
| `ActionRules.ComputeAcceptsIff` | arkhe-forge-core/src/context.rs:359-467 | each production action is accepted exactly under its stated condition |
| `ActionRules.StrongIsChecked` | arkhe-forge-core/src/user.rs:183-205 | the key-derivation check: 19 MiB and two passes for Argon2id; for Scrypt a power of two from 2^15 on and blocks of at least 8 |
| `ActionRules.RegisterUserAccepted` | arkhe-forge-core/src/user.rs:230-258 | a user is accepted exactly with current versions, such parameters and an id to be had |
| `ActionRules.RegisterActorAccepted` | arkhe-forge-core/src/actor.rs:246-275 | an actor exactly with current versions, a handle not in use and an id to be had |
| `ActionRules.CreateSpaceAccepted` | arkhe-forge-core/src/space.rs:188-238 | a space exactly with current versions, an eligible injected actor, no parent or one of depth below 64 in the view, and an id to be had |
| `ActionRules.SubmitActivityAccepted` | arkhe-forge-core/src/activity.rs:410-452 | an activity exactly with current versions, an eligible injected actor, a key not in use, an id to be had, and a target other than that id |
| `ActionRules.VersionsComeFirst` | arkhe-forge-core/src/context.rs:187-193 | the first version field that is not current is reported before anything else |
| `ActionRules.UserRejections` | arkhe-forge-core/src/user.rs:230-258 | with current versions: weak parameters, then no id |
| `ActionRules.ActorRejections` | arkhe-forge-core/src/actor.rs:246-275 | with current versions: handle in use, then no id |
| `ActionRules.SpaceRejections` | arkhe-forge-core/src/space.rs:188-238 | with current versions: the actor, the parent or its depth, then no id |
| `ActionRules.ActivityRejections` | arkhe-forge-core/src/activity.rs:410-452 | with current versions: the actor, the key, no id, then the self-loop |
| `ActionRules.UserCommits` | arkhe-forge-core/src/user.rs:245-257 | committing it adds one entity with exactly profile, credential and an active status |
| `ActionRules.ActorCommits` | arkhe-forge-core/src/actor.rs:265-274 | one entity with exactly profile and binding |
| `ActionRules.SpaceCommits` | arkhe-forge-core/src/space.rs:211-237 | one entity with exactly the configuration naming the acting actor as creator, and a depth one below its parent |
| `ActionRules.ActivityCommits` | arkhe-forge-core/src/activity.rs:435-451 | one entity with exactly the record naming the acting actor and the target |
| `ActionRules.EraseIsExact` | arkhe-forge-core/src/user.rs:263-295 | the status of a spawned user becomes pending, nothing else changes, and the scheduled event carries user and tick |
| `Runtime.KernelCompute` | arkhe-forge-core/src/bridge.rs:136-158 | a fresh viewless context with the injected actor; any compute error becomes no operations |
| `Runtime.RuntimeService.Dispatch` | arkhe-forge-platform/src/dispatcher.rs:221-275 | gate, submission and step on the owned kernel, each refusal leaving it untouched |
| `Lifecycle.AnonymousCallsAreAdmitted` | arkhe-forge-platform/src/dispatcher.rs:239-262 | a call without an actor is admitted on every live instance, and an instance that is not live is reported as such |
| `Lifecycle.DispatchIsLocal` | arkhe-forge-platform/src/dispatcher.rs:221-275 | an accepted dispatch is recorded and changes no other instance; a refused one changes nothing |
| `Lifecycle.UserIsRegistered` | arkhe-forge-platform/src/dispatcher.rs:221-275 | an accepted dispatch of RegisterUser adds exactly that user for current versions, sufficient parameters and a derivable id, and otherwise changes no ledger |
| `Lifecycle.ActorIsRegistered` | arkhe-forge-platform/src/dispatcher.rs:221-275 | likewise for RegisterActor, handles in use not being looked at |
| `Lifecycle.SpaceIsCreated` | arkhe-forge-platform/src/dispatcher.rs:221-275 | likewise for CreateSpace: exactly a root at depth 0 under the injected actor |
| `Lifecycle.ActivityIsRecorded` | arkhe-forge-platform/src/dispatcher.rs:221-275 | likewise for SubmitActivity, keys in use not being looked at |
| `Lifecycle.EraseIsScheduled` | arkhe-forge-platform/src/dispatcher.rs:221-275 | a dispatched erase request of the current version marks a spawned user pending and changes nothing else |
| `Lifecycle.StatusTellsErasure` | arkhe-forge-platform/src/dispatcher.rs:221-275 | in every run a registered user is pending exactly if an erase request for it was accepted since its registration, and active otherwise |
| `Lifecycle.ActorStaysBound` | arkhe-forge-platform/src/dispatcher.rs:221-275 | a registered actor stays bound to its user for the rest of the run |
| `Lifecycle.RegisteredActorIsAdmittedIff` | arkhe-forge-platform/src/dispatcher.rs:239-275 | once a user and an actor bound to it are registered, a call with that actor is accepted exactly as long as no erase request for the user has been accepted |
| `GateSpec.SpaceIsCreatedIffRooted` | arkhe-forge-platform/src/dispatcher.rs:221-275 | an accepted dispatch of CreateSpace changes the ledger exactly when it names no parent, carries the current versions and an actor, and an id can be derived, and then adds that one entity |
| `GateSpec.BridgeCreatesIffRooted` | arkhe-forge-core/src/bridge.rs:136-158 | the bridge returns operations for CreateSpace exactly under that condition: with a parent the compute fails and becomes no operations |
| `GateSpec.Reachable` | arkhe-forge-platform/src/dispatcher.rs:221-275 | in every run each entity was derived by a recorded submission, every component decodes, and every recorded author was injected by the submission that created the record |
| `GateSpec.RunEvolves` | arkhe-forge-platform/src/dispatcher.rs:221-275 | over any stretch of a run no entity disappears, no component but a status changes, and a status only becomes pending |
| `GateSpec.GateIsExact` | arkhe-forge-platform/src/dispatcher.rs:239-259 | on reachable ledgers the gate admits exactly unbound actors and actors of active users, and which refusal it gives; corrupt bytes never occur |
| `GateSpec.EraseTakesEffectIffSpawned` | arkhe-forge-core/src/user.rs:263-295 | an accepted erase request takes effect exactly when its user was ever spawned |
| `GateSpec.ErasedStaysErased` | arkhe-forge-core/src/user.rs:263-295 | once committed, an erasure is never undone by any later dispatch |
| `GateSpec.ErasureShutsTheGate` | arkhe-forge-platform/src/dispatcher.rs:239-275 | after the erasure of a spawned user commits, every later dispatch injecting an actor bound to that user is refused and leaves kernel and log unchanged |
| `GateSpec.WalReplaysTheRun` | arkhe-forge-platform/src/dispatcher.rs:264-275 | replaying only the recorded submissions rebuilds the kernel of the whole run |
| `Spaces.RunsAreSound` | arkhe-forge-core/src/space.rs:211-236 | in every run of view-bound computes each cached depth is the distance to the root found by walking the parents |
| `Spaces.SpaceIsAddedIff` | arkhe-forge-core/src/space.rs:188-238 | submitting a space against the bound ledger adds exactly that space, one deeper than its parent, when it is acceptable, and changes nothing otherwise |
| `Spaces.CacheIsDistance` | arkhe-forge-core/src/space.rs:211-236 | in a sound ledger the walk up never meets itself or a missing parent and its length is the cache |
| `Spaces.ParentsAreAcyclic` | arkhe-forge-core/src/space.rs:211-243 | the parent relation has no cycle and no ancestor chain is longer than the limit of 64 |
| `Crypto.Dek.AdvanceCounter` | arkhe-forge-platform/src/crypto.rs:219-226 | returns the counter and advances it; at the maximum it refuses and consumes nothing |
| `Crypto.CryptoCoordinator.EncryptRaw` | arkhe-forge-platform/src/crypto.rs:555-567 | the manifest's cipher decides; tier, nonce-reuse and exhaustion are refused before any nonce is used |
| `Crypto.CryptoCoordinator.Encrypt` | arkhe-forge-platform/src/crypto.rs:489-507 | a value that does not serialize uses no nonce; otherwise the envelope carries id, code, cipher and nonce |
| `CryptoSpec.EncryptAnswers` | arkhe-forge-platform/src/crypto.rs:555-793 | encryption answers with the one refusal its cipher, tier, key and counter call for, using no nonce, or else with what the cipher makes of the message under the next nonce |
| `CryptoSpec.EnvelopeIsSealed` | arkhe-forge-platform/src/crypto.rs:489-507 | the envelope carries id, code, cipher, and the serialized value sealed under its nonce and the associated data of these fields |
| `CryptoSpec.DecryptAnswers` | arkhe-forge-platform/src/crypto.rs:512-532 | type, cipher, tier, opening and decoding decide in this order, with their errors |
| `CryptoSpec.RawDecryptAnswers` | arkhe-forge-platform/src/crypto.rs:540-551 | raw decryption goes by the envelope's own cipher and fields |
| `Crypto.RotateDek` | arkhe-forge-platform/src/crypto.rs:853-893 | on success the slice holds every rotated element and the message metric is its saturated sum with the length; on any failure both are as on entry |
| `CryptoSpec.AadInjective` | arkhe-forge-core/src/pii.rs:197-203 | the 19 associated bytes pin key id, PII code and cipher |
| `CryptoSpec.AadLayout` | arkhe-forge-core/src/pii.rs:197-203 | the 19 bytes are id, code highest byte first, and the number of the cipher |
| `CryptoSpec.CounterNonceInjective` | arkhe-forge-platform/src/crypto.rs:256-261 | two replicas or two counters never make the same nonce |
| `CryptoSpec.CounterNonceLayout` | arkhe-forge-platform/src/crypto.rs:256-261 | four bytes of replica and eight of counter, each highest byte first |
| `CryptoSpec.EncryptThenDecrypt` | arkhe-forge-platform/src/crypto.rs:489-532 | decryption undoes encryption for every value, cipher and tier setting |
| `CryptoSpec.TamperingIsRefused` | arkhe-forge-platform/src/crypto.rs:509-532 | an envelope whose code or cipher was altered is refused with the error of the first that no longer fits; one whose id was altered is refused exactly unless its ciphertext opens under two associated data |
| `CryptoSpec.RotationKeepsPlaintexts` | arkhe-forge-platform/src/crypto.rs:853-893 | after a rotation every element carries the new id, its type's code and the manifest cipher, and opens under the new key to its old plaintext |
| `CryptoSpec.RotationPreservesReading` | arkhe-forge-platform/src/crypto.rs:512-551 | typed reading is the same before and after rotation exactly when the envelope carried its type's code, which rotation never checks |
| `CryptoSpec.RotationRelabels` | arkhe-forge-platform/src/crypto.rs:853-893 | a value encrypted under one PII family and rotated as another: the rotation succeeds, and the envelope, refused as that type before, now decrypts to whatever its plaintext decodes to |
| `CryptoSpec.RotationOutcome` | arkhe-forge-platform/src/crypto.rs:853-893 | under every cipher a non-empty rotation succeeds exactly when the cipher is admitted for the key, the counter has room where one is used, and every element opens and seals under its nonce; the nonces are consecutive |
| `CryptoSpec.RotationReports` | arkhe-forge-platform/src/crypto.rs:853-893 | a rotation that fails reports why its first failing element did not open or seal, having used the nonces up to there |
| `CryptoSpec.UsesKeepNumbered` | arkhe-forge-platform/src/crypto.rs:219-261 | over any encryptions and rotations, failed ones included, a DEK has used exactly the nonces of the counters below its own |
| `CryptoSpec.NoncesNeverRepeat` | arkhe-forge-platform/src/crypto.rs:219-261 | so no such run uses a nonce twice (section 8.2.1 of NIST SP 800-38D) |
| `CryptoSpec.ReplicasNeverShareNonces` | arkhe-forge-platform/src/crypto.rs:243-261 | DEKs of different replicas never use the same nonce, even over the same material |
| `CryptoSpec.ExhaustionRefuses` | arkhe-forge-platform/src/crypto.rs:670-703 | exhaustion is reported exactly at the last counter of an admitted AES call, and refusals change nothing |
| `Journal.PayloadInjective` | arkhe-forge-platform/src/hf2_kms/journal.rs:99-106 | the 80 hashed bytes pin previous hash and token |
| `Journal.PayloadLayout` | arkhe-forge-platform/src/hf2_kms/journal.rs:99-106 | they are previous hash, token hash, fingerprint, and tick highest byte first |
| `Journal.VerifyChain` | arkhe-forge-platform/src/hf2_kms/journal.rs:347-366 | accepts exactly chains whose every entry links, hashes and verifies; otherwise reports the first that does not, chaining before signature |
| `Journal.VerifyChainAnchored` | arkhe-forge-platform/src/hf2_kms/journal.rs:296-320 | accepts exactly chains of the expected length and tip whose every entry links, hashes, and verifies under the trusted key; otherwise reports length, first bad entry, first foreign signer, tip, in this order |
| `Journal.SoundIsExplicit` | arkhe-forge-platform/src/hf2_kms/journal.rs:347-366 | a chain is sound exactly when every entry links to the one before, hashes its own payload, and is signed under a key that decodes and verifies |
| `Journal.AnchoredIsExplicit` | arkhe-forge-platform/src/hf2_kms/journal.rs:296-320 | it is anchored exactly when it also has the length and tip expected and the trusted signer throughout |
| `Journal.AnchorsPinHistory` | arkhe-forge-platform/src/hf2_kms/journal.rs:296-366 | two journals accepted under the same tip and length hold the same tokens, links and hashes at every position exactly when no two payloads at the same position collide |
| `Journal.TipPinsHistory` | arkhe-forge-platform/src/hf2_kms/journal.rs:347-373 | the same for any two sound chains |
| `Journal.TipPinsLength` | arkhe-forge-platform/src/hf2_kms/journal.rs:368-373 | for two sound chains of any lengths with the same tip: one history, length included, exactly when no payloads equally far from the tip collide and neither goes on, where the other ends, from an entry that hashes to the genesis value |
| `Journal.ForeignLogNeedsTheAnchor` | arkhe-forge-platform/src/hf2_kms/journal.rs:213-230 | a log written under any other key passes the plain chain check and fails the anchored one |
| `Journal.AppendsVerify` | arkhe-forge-platform/src/hf2_kms/journal.rs:324-345 | every run of appends with one signer passes the anchored check, without repeated tokens and with the hashes of all tokens offered |
| `Journal.AppendsKeepTokens` | arkhe-forge-platform/src/hf2_kms/journal.rs:324-345 | and holds exactly the first token of each hash as it was offered, in the order offered |
| `Journal.InMemoryJournal.Append` | arkhe-forge-platform/src/hf2_kms/journal.rs:324-345 | a seen token is refused; otherwise the token is added as given, linked to the last entry, hashed and signed, and the replay guard keeps matching the entries |
| `Erasure.InMemoryDekShredder.Shred` | arkhe-forge-platform/src/crypto_erasure.rs:245-255 | cached receipt, unknown key, or removal and a numbered receipt, with the overflow error after the removal |
| `ErasureSpec.ShredOutcome` | arkhe-forge-platform/src/crypto_erasure.rs:245-255 | a shred succeeds exactly on keys shredded before or live with an index left; which receipt, state and error each case gives |
| `Erasure.ErasureCascadeObserver.OnEvent` | arkhe-forge-platform/src/crypto_erasure.rs:515-581 | decode, shred first, tombstone second, then completion and cursor, with every failure in between |
| `ErasureSpec.RegistrationAndAttachment` | arkhe-forge-platform/src/crypto_erasure.rs:191-193 | registering a key makes exactly that key live; attaching rows sets exactly that user's rows and key |
| `ErasureSpec.DeliveryOutcome` | arkhe-forge-platform/src/crypto_erasure.rs:515-581 | a delivery succeeds exactly when the event decodes, its key can be shredded and the backends answer; it then drops the rows, adds one completion counting the rows held before, and moves the cursor to the event |
| `ErasureSpec.DeliveryRefusals` | arkhe-forge-platform/src/crypto_erasure.rs:515-581 | a failed delivery reports what failed first and changes at most the shredder |
| `ErasureSpec.FailureChangesNoRows` | arkhe-forge-platform/src/crypto_erasure.rs:515-581 | a failed delivery changes neither rows nor completions nor cursor |
| `ErasureSpec.EveryRunShredsFirst` | arkhe-forge-platform/src/crypto_erasure.rs:208-255 | over every run, outages included, receipts are numbered without gaps and no rows are tombstoned before their key is shredded |
| `ErasureSpec.IndicesAreExact` | arkhe-forge-platform/src/crypto_erasure.rs:208-232 | the issued indices are exactly those below the next one, one per key |
| `ErasureSpec.RepeatShredsAreIdentical` | arkhe-forge-platform/src/crypto_erasure.rs:245-249 | a key shredded at any point of a run keeps returning the receipt it got then |
| `ErasureSpec.CompletionIsAttested` | arkhe-forge-platform/src/crypto_erasure.rs:540-574 | a completion carries the key's numbered receipt exactly when the user held a key |
| `ErasureSpec.RedeliveryIsEmpty` | arkhe-forge-platform/src/crypto_erasure.rs:372-381 | a redelivery after completion is completed again, with no rows and the empty receipt |
| `ErasureSpec.FailedShredIsCleanIff` | arkhe-forge-platform/src/crypto_erasure.rs:245-255 | a failing shred leaves the shredder untouched, except exactly for a live, never shredded key at the index overflow |
| `ErasureSpec.OverflowLosesTheKey` | arkhe-forge-platform/src/crypto_erasure.rs:208-255 | a key whose shred hits the index overflow is neither live nor attested, and retries are refused |

## Left out

- BLAKE3, Ed25519, ML-DSA, AES-GCM(-SIV) and XChaCha20-Poly1305: parameters with the laws above; wiping memory on drop has no result to state.
- Kernel internals (scheduling, capability masks, memory budget, several actions in one step): one dispatch steps exactly its own action.
- `arkhe-kernel` itself is not part of this model; what an operation does to a component map is taken from the comments on the actions that rely on it.
- Wire encodings (postcard, serde, TOML): encoding a component never fails, component bytes are an encoded component or bytes that do not decode, and fields no check reads are one opaque string.
- `process_action` and the principal of an action: they decide nothing in the compute bodies modelled.
- `SigningDekShredder`: it replaces the bytes of a receipt and keeps its index, order and caching; signature classes are not modelled.
- Converting completions to events (`into_completed_event`, `per_region_events`) and more than one shred region: field copying.
- Writers that write part of a buffer and then fail: a write either happens whole or not at all; a sync may fail after it.
- Auto-promotion quorums, health probes, `CrossShellActivityFanout`, the projection row stores, manifests, deduplication, the receipt verifier.
- Type states and brands of actors and shells, macros, lints and the test kit.
- `from_os_entropy` and `getrandom`: entropy is an input that may be unavailable.
- Rng.GenRangeInclusive: models builds without overflow checks; debug builds stop at an inverted range.
- Rng.LemireDraw: does not say that a draw ends with probability one, only that it ends when the stream holds an accepted word.
- WalSinkSpec.BufferIsBounded: requires a capacity below the largest `usize`, where the saturating length check would no longer refuse.
- GateSpec.ErasureShutsTheGate: speaks of the production actions only; the terminal erased status is written by an integrator outside this repository's actions.
