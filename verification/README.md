# sframe-ratchet in Dafny

A model of the end-to-end media encryption of sframe-ratchet, with proofs. It
covers four parts of the repository and what they rest on.

* **Wire codecs.** The SFrame header (RFC 9605, section 4.3), the MLS and fixed
  key identifiers (section 5.2), the nonce and additional data (section 4.4),
  and the frame layout. `Bits`, `Bytes`, `JsNumber`, `ConstantTime`,
  `SframeHeader`, `RatchetIds`, `KidFormat`, `Sframe`.
* **The durable replay guard**: its merge, its cache with eviction, and the
  read-merge-write protocol of many tabs on one store. `Lists`,
  `ReplayWindow`, `DurableReplay` (values), `DurableGuard` (the class),
  `DurableTabs` (the protocol).
* **The worker**: epochs and wipe timers, the send counter, replay windows, the
  ratchet cursor, key invalidation, the pre-epoch queue, drains and starvation
  signals. `Starvation`, `PreEpochQueue`, `WorkerState` and `WorkerFrames`
  (functions on values), `Worker` (the object), `FrameLaws`, `FrameOutcomes` (single
  frames), `FrameStreams`, `FrameWaits`, `FrameFormats` (streams of frames, the
  queue, and the layouts of other releases), `WorkerEffects`, `WorkerRuns`,
  `WorkerSafety`, `WorkerKeys`, `WorkerQueues` (whole runs), `WorkerDurable`
  (runs together with the durable guard).
* **The derived-key cache**: two maps joined by a string key. `KeyCache`.

Code that the repository runs on mutable objects is a class or a method with
loops, proved equal to a function on values; what the repository promises is
then proved about those functions, over all inputs and all runs.
`Worker.WorkerObject.Handle` performs one step of a run, so the statements
about `WorkerRuns.Run` are statements about the object. The object groups the
flat fields of the source into records (configuration, key table, receiver,
drain, two starvation episodes) and assigns to them in place.

## How the model reads

* AES-GCM is a pair of functions in an `Aead` value; `Lawful` says that sealing
  adds sixteen bytes and that opening undoes it. Nothing is assumed about other
  keys, nonces or data. `Sframe.TaggingAead` shows that the laws can be met.
* The ratchet step is an arbitrary function on a raw key and a peer index, held
  in `Env` beside the `Aead`; it is taken only where the source can take it, for
  an index of two bytes. A raw key stands for its imported CryptoKey.
* Numbers of the language are integers. Where 32-bit operators or rounding of
  doubles matter they are written out (`RatchetIds`, `JsNumber`).
* A decode is one step, and so is each drained frame. An encode takes its
  counter in one step and is sealed in a later one; any number may be under way.
* Clock readings and the answer of the durable guard are inputs of a step;
  `WorkerDurable` takes the answers from a guard.
* The maps of the source with string keys built from an epoch and a peer are
  maps with pairs as keys.

## Where the source and its comments differ

The model follows the code in each case.

* The helper that drops a cached format after a failed decryption
  (`src/worker-frame.ts:102-106`) is never called: a cached layout stays until
  its epoch is wiped or the worker is torn down.
* One layout is cached for a sender, and every later frame of it is cut there
  (`src/worker-frame.ts:545-550`), while VP8 shows ten bytes of a key frame and
  three of any other. `FrameFormats.StreamIsDeliveredIff` gives the exact
  condition, `FrameFormats.KeyThenInterIsLost` a stream that fails it.
* The comment on the retry says that the original error is thrown when the
  window is exhausted (`src/worker-frame.ts:333`); the code throws the
  window-exhausted error, and the original one only for a window of size 0.
* A comment in the encoder puts the clear prefix inside the additional data
  (`src/worker-frame.ts:302`); the code authenticates the header alone.
* Drained frames that fail are said to stay queued
  (`src/worker-frame.ts:814-818`); only frames without a key do.
* The two paths differ in what they count: a frame too short for its tag, with
  the ratchet window at 0, counts against the key when decoded but not when
  drained, because its error names no sender (`src/worker-frame.ts:966-970`).
* The constant-time comparison of integers is said to be equality
  (`src/internal/constant-time.ts:54`); it is congruence modulo 2^64.
* An encode failure is documented as reported on every drop
  (`src/worker-types.ts:139-144`); the code coalesces the reports.
* `accept` of the durable guard promises a write-through; it returns at once for
  a counter that is cached but whose persist has not run
  (`src/chat/durable-replay.ts:365`).

## Model

| member | source | states |
|---|---|---|
| `ConstantTime.CtEqual` | src/internal/constant-time.ts:25-30 | the or-fold of xors is zero exactly when the arrays are equal |
| `ConstantTime.CtEndsWith` | src/internal/constant-time.ts:41-45 | true exactly when the trailer is a suffix of the frame |
| `ConstantTime.BigintToBytes64` | src/internal/constant-time.ts:63-71 | the eight little-endian bytes are worth the value modulo 2^64, negative values included |
| `ConstantTime.CtBigintEqual` | src/internal/constant-time.ts:56-60 | congruence modulo 2^64, hence true equality on all unsigned 64-bit counters |
| `SframeHeader.MinimalBigEndian` | src/sframe-header.ts:94-105 | the big-endian digits in the least width, or the width error above eight bytes |
| `SframeHeader.FixedBigEndian` | src/sframe-header.ts:108-117 | the zero-padded big-endian digits, or the width error exactly when they do not fit |
| `SframeHeader.SerializeHeader` | src/sframe-header.ts:34-53 | range errors exactly outside 32-bit identifiers and 64-bit counters; otherwise the header of RFC 9605 section 4.3 |
| `SframeHeader.ReadBigEndianNumber` | src/sframe-header.ts:119-130 | rejects exactly the values from 2^53 up although the accumulator rounds; exact below |
| `SframeHeader.ReadBigEndianBigInt` | src/sframe-header.ts:132-138 | shift-or accumulation is the big-endian value |
| `SframeHeader.ParseHeader` | src/sframe-header.ts:56-92 | bit masks and offsets compute the parse given by quotients, remainders and slices, errors included |
| `SframeHeader.RoundTrip` | src/sframe-header.ts:34-92 | parsing a serialised header followed by any body gives back identifier, counter and header length |
| `SframeHeader.SerializedInjective` | src/sframe-header.ts:34-53 | no two header and body pairs give the same bytes |
| `SframeHeader.CtrFieldIsMinimal` | src/sframe-header.ts:94-105 | no header with an extended counter field of this value spends fewer bytes on it |
| `SframeHeader.ParseBounds` | src/sframe-header.ts:56-138 | on arbitrary bytes a parse has 1 <= offset <= min(length, 17), identifier < 2^53, counter < 2^64 |
| `SframeHeader.ParsePrefix` | src/sframe-header.ts:56-92 | bytes after the header never change the parse |
| `SframeHeader.SerializedIsHeader` | src/sframe-header.ts:34-53 | what is serialised is a header of the standard layout with four identifier bytes and the least counter width |
| `SframeHeader.ParseTakesAHeader` | src/sframe-header.ts:56-138 | whatever parses starts with a header of the standard layout for the fields it gives: config byte, identifier and counter fields in this order, big-endian |
| `SframeHeader.EveryHeaderParses` | src/sframe-header.ts:56-138 | every header of the standard layout, with fields of any allowed width, parses to its fields, or is refused for an identifier from 2^53 up |
| `SframeHeader.CutHeaderFails` | src/sframe-header.ts:66-90 | a header cut short anywhere fails |
| `RatchetIds.MakeKidIsSum` | src/ratchet-ids.ts:33-41 | the signed 32-bit shift/or, made unsigned, is epoch * 2^16 + index |
| `RatchetIds.SplitKidLow32` | src/ratchet-ids.ts:44-46 | splitting looks at the low 32 bits only |
| `RatchetIds.SplitUndoesMake` | src/ratchet-ids.ts:33-46 | making succeeds exactly on 16-bit fields; the result is below 2^32 and splits back |
| `RatchetIds.MakeUndoesSplit` | src/ratchet-ids.ts:33-46 | re-making a split identifier gives it back exactly when it is below 2^32 |
| `RatchetIds.ValidatePeerIndexMap` | src/ratchet-ids.ts:101-121 | valid exactly for bijections onto 0..N-1, each error exactly for its cause, and never the final gap error |
| `RatchetIds.BuildPeerIndexMap` | src/ratchet-ids.ts:185-190 | each id of a duplicate-free list is mapped to its rank in the sorted list |
| `RatchetIds.BuiltMapIsBijection` | src/ratchet-ids.ts:185-190 | the built map is a bijection onto 0..N-1 exactly when the ids are distinct |
| `RatchetIds.BuiltEntriesBijective` | src/ratchet-ids.ts:101-121 | the entries of a built map pass the bijection test exactly when the ids are distinct |
| `RatchetIds.ValidateNewEpochMap` | src/ratchet.ts:149-151 | the map built from self and members is answered valid exactly when the members are distinct and do not hold self |
| `RatchetIds.IndexMapOrderIndependent` | src/ratchet-ids.ts:185-190 | two lists with the same ids give the same map |
| `RatchetIds.SortUnique` | src/ratchet-ids.ts:186-186 | a sorted arrangement of the same ids is unique |
| `RatchetIds.LessAtFirstDifference` | src/ratchet-ids.ts:186-186 | the order is that of strings by code unit: the first difference decides, and a proper prefix comes first |
| `RatchetIds.AuthorIsLeast` | src/ratchet.ts:127-130 | a member is the author exactly when its id is least among all members |
| `RatchetIds.ExactlyOneAuthor` | src/ratchet.ts:127-150 | in every non-empty group whose members agree on the membership exactly one member is the author, so one alone may mint a chain key |
| `KidFormat.ValidateMlsBitRange` | src/kid-format.ts:64-84 | accepts exactly 1 <= E, 1 <= S, E + S <= 63; the last test never fires |
| `KidFormat.EncodeIsSum` | src/kid-format.ts:98-124 | encoding succeeds exactly when all fields fit; shifts and ors compute ctx * 2^(E+S) + index * 2^E + epoch, below 2^64 |
| `KidFormat.DecodeUndoesEncode` | src/kid-format.ts:98-153 | decoding gives back all three fields |
| `KidFormat.EncodeInjective` | src/kid-format.ts:98-124 | two encodings under one configuration are equal only for equal fields |
| `KidFormat.EncodeUndoesDecodeIff` | src/kid-format.ts:134-153 | re-encoding a decoded identifier gives it back exactly when its two fields, cut from the bits, are exact as doubles |
| `KidFormat.WideEpochIsLossy` | src/kid-format.ts:148-148 | an epoch field of 2^53 + 1 decodes to 2^53 |
| `KidFormat.MakeKidCodec` | src/kid-format.ts:197-233 | a codec is made exactly for a fixed format or valid widths, and is then valid |
| `JsNumber.ToNumberNearest` | src/kid-format.ts:148-148 | an integer becomes a nearest double, at a tie the even one |
| `KidFormat.FixedCodecMeaning` | src/kid-format.ts:180-203 | the fixed format always gives a codec, whatever the configuration, and it encodes epoch * 2^16 + index for 16-bit fields and fails otherwise |
| `KidFormat.MlsCodecMeaning` | src/kid-format.ts:197-233 | a missing configuration fails as such; on success the identifier is ctx * 2^(E+S) + index * 2^E + epoch whenever fields fit and the sum is below 2^32, and encoding fails otherwise |
| `KidFormat.CodecRoundTrip` | src/kid-format.ts:181-230 | whatever either codec puts on the wire fits 32 bits and decodes to its epoch and peer |
| `KidFormat.CodecInjective` | src/kid-format.ts:181-230 | equal identifiers name equal epochs and peers |
| `KidFormat.DecodeIsNat` | src/kid-format.ts:134-153 | epoch and peer of a parsed identifier are never negative, so the non-negative tests of the frame path always pass |
| `Sframe.PadCounter` | src/sframe.ts:233-238 | the loop that stops at zero leaves the twelve-byte big-endian counter |
| `Sframe.DeriveIv` | src/sframe.ts:229-241 | salt xor padded counter, or the salt-length error |
| `Sframe.IvInjective` | src/sframe.ts:229-241 | under one salt two 64-bit counters never share a nonce |
| `Sframe.IvIsCounter` | src/sframe.ts:229-241 | taking the salt off the nonce leaves twelve bytes worth the counter, most significant first; under the zero salt the nonce is the counter |
| `Sframe.BuildAad` | src/sframe.ts:56-80 | the three additional-data forms |
| `Sframe.AadFields` | src/sframe.ts:56-80 | in each form the data are the header, preceded by the prefix, preceded by its length as two bytes, high byte first |
| `Sframe.EqualAadSplitsAlike` | src/sframe.ts:65-78 | where the prefix is authenticated, equal data come from equal prefix and header exactly when the prefixes are equally long |
| `Sframe.CanonicalAadInjective` | src/sframe.ts:71-78 | the canonical form fixes the prefix length modulo 2^16, hence prefix and header for prefixes below 2^16 bytes |
| `Sframe.PrefixAadAmbiguous` | src/sframe.ts:65-70 | the intermediate form does not: a byte 0x80 may end a prefix or start a two-byte header, and both headers parse |
| `Sframe.SframeEncryptInto` | src/sframe.ts:195-222 | writes header and sealed body at the offset, leaves every other byte alone, or fails on the salt with nothing written |
| `Sframe.SframeDecrypt` | src/sframe.ts:129-172 | errors in the order parse, too short, no key, salt, authentication; otherwise the opened text |
| `Sframe.FirstFailure` | src/sframe.ts:129-172 | where several failures apply the earliest in that order is told, each exactly for its cause |
| `Sframe.DecryptUndoesSeal` | src/sframe.ts:89-172 | a sealed frame parses to its identifier and counter and opens to its body |
| `ReplayWindow.SlidingReplayWindow.Seen` | src/internal/replay.ts:47-49 | the comparison scan finds exactly the counters in the queue |
| `ReplayWindow.SlidingReplayWindow.Check` | src/internal/replay.ts:41-51 | fresh exactly when the window is disabled or the counter is not in it |
| `ReplayWindow.SlidingReplayWindow.Accept` | src/internal/replay.ts:58-73 | queue and set slide together; a repeat changes nothing |
| `ReplayWindow.SlidingReplayWindow.Clear` | src/internal/replay.ts:78-81 | empties set and queue |
| `ReplayWindow.AcceptExtends` | src/internal/replay.ts:41-73 | a window holding the last W counters says fresh exactly when no W+1 consecutive counters would repeat, and then keeps holding the last W |
| `DurableReplay.ResolveWindow` | src/chat/durable-replay.ts:126-129 | an explicit size that is not negative is kept, 0 disables the guard, and anything else gives 1024 |
| `DurableReplay.DedupKeepLast` | src/chat/durable-replay.ts:108-119 | the backward loop keeps exactly the last occurrences, in order |
| `DurableReplay.MergeCorrect` | src/chat/durable-replay.ts:493-493 | no duplicates, at most W, drawn from the inputs, own window as suffix; the full union exactly when the union fits |
| `DurableReplay.KeepLastOrder` | src/chat/durable-replay.ts:108-119 | what is kept stands in the order of the last occurrences |
| `DurableReplay.MergeForgetsOldest` | src/chat/durable-replay.ts:493-493 | a counter that a merge forgets was last stored before every one it keeps |
| `DurableReplay.MergeOwn` | src/chat/durable-replay.ts:493-495 | a merge adds nothing when the own window is full or already covers the persisted one |
| `DurableReplay.TrimBounds` | src/chat/durable-replay.ts:448-462 | trimming ends within the cap or with only protected entries, and drops no protected one |
| `DurableReplay.TrimDropsOldest` | src/chat/durable-replay.ts:448-462 | an unprotected key older than a dropped one is dropped too |
| `DurableReplay.TrimStopsAtCap` | src/chat/durable-replay.ts:448-462 | an eviction stops at the cap: fewer than 256 are left only where nothing was dropped |
| `DurableReplay.TrimSpares` | src/chat/durable-replay.ts:452-459 | trimming never drops an entry just loaded, in load or with a queued persist, and above 256 entries leaves only such |
| `DurableReplay.LoadedIsNewest` | src/chat/durable-replay.ts:312-336 | a loaded key stands behind all others in the order of eviction |
| `DurableReplay.HydrateKeeps` | src/chat/durable-replay.ts:296-339 | a load with its evictions changes no window the guard stands for |
| `DurableReplay.AcceptKeeps` | src/chat/durable-replay.ts:360-386 | an accept slides the window of its key and no other |
| `DurableReplay.PersistKeeps` | src/chat/durable-replay.ts:479-501 | a persist leaves every window as it is and stores the cached one |
| `DurableReplay.PersistForgetsNothing` | src/chat/durable-replay.ts:479-501 | whatever others have stored meanwhile, a persist stores it and the own window and nothing else, all of it while both fit, and touches no other key |
| `DurableReplay.ReloadKeeps` | src/chat/durable-replay.ts:296-339 | a reload after the persists settled loses nothing |
| `DurableReplay.GuardRefinesWindow` | src/chat/durable-replay.ts:349-386 | over every interleaving of loads, checks, accepts, persists, evictions and settled reloads the guard answers as a sliding window of its size for that key |
| `DurableReplay.FreshGuard` | src/chat/durable-replay.ts:207-212 | a new guard stands for the newest W of every list that guards stored, under whatever window they were written |
| `DurableGuard.DurableReplayGuard.constructor` | src/chat/durable-replay.ts:207-223 | a new guard on any store of duplicate-free lists has empty cache and chain |
| `DurableGuard.DurableReplayGuard.StartHydrate` | src/chat/durable-replay.ts:300-337 | a load in flight is registered |
| `DurableGuard.DurableReplayGuard.FirstEvictable` | src/chat/durable-replay.ts:452-459 | the first key that is neither just loaded, loading nor persisting, if any |
| `DurableGuard.DurableReplayGuard.TrimMemCache` | src/chat/durable-replay.ts:448-462 | the eviction loop drops the oldest unprotected keys until the cap is met or none is left |
| `DurableGuard.DurableReplayGuard.Hydrate` | src/chat/durable-replay.ts:296-339 | cache hit, or load of the last W persisted counters followed by the eviction loop |
| `DurableGuard.DurableReplayGuard.Check` | src/chat/durable-replay.ts:349-353 | true exactly when the guard is off or the counter is not in the window it stands for |
| `DurableGuard.DurableReplayGuard.Accept` | src/chat/durable-replay.ts:360-386 | load, count the persist, extend and trim the window, queue the persist; a repeat or a disabled guard changes nothing more |
| `DurableGuard.DurableReplayGuard.Trim` | src/chat/durable-replay.ts:465-470 | order and set keep the newest W |
| `DurableGuard.DurableReplayGuard.PersistMerged` | src/chat/durable-replay.ts:479-501 | read-merge-write: store, order and set become the merge |
| `DurableGuard.DurableReplayGuard.ReleasePersisting` | src/chat/durable-replay.ts:425-429 | the in-flight count goes down by one and disappears at zero |
| `DurableGuard.DurableReplayGuard.RunPersist` | src/chat/durable-replay.ts:380-384 | one link of the chain: merge the oldest queued persist, then release its count |
| `DurableTabs.StepKeeps` | src/chat/durable-replay.ts:479-501 | each locked read, merge and write of any tab keeps the cross-tab invariant |
| `DurableTabs.CompletedIsDurable` | src/chat/durable-replay.ts:360-386 | for any number of tabs, interleaved at load, lock, read, merge and write: with at most W counters ever accepted, a completed accept is in the store for good and in every window read afterwards |
| `DurableTabs.ReadSeesCompleted` | src/chat/durable-replay.ts:296-310 | a load that starts now sees every completed accept |
| `DurableTabs.EarlyReturnDurableUnlessQueued` | src/chat/durable-replay.ts:365-365 | a counter already in the cached window is stored or still queued by its own tab |
| `DurableTabs.EarlyReturnBeforeDurable` | src/chat/durable-replay.ts:365-365 | for every counter and window a run in which an accept returns early with nothing stored |
| `KeyCache.SplitUndoesJoin` | src/chat/derive.ts:42-60 | the joined key splits back into room and user exactly for rooms without NUL |
| `KeyCache.KeyDerivationCache.Get` | src/chat/derive.ts:47-49 | two-level lookup |
| `KeyCache.KeyDerivationCache.Set` | src/chat/derive.ts:51-77 | capacity eviction by the split oldest key, refresh of the order, insertion |
| `KeyCache.KeyDerivationCache.EvictRoom` | src/chat/derive.ts:83-90 | the loop removes the joined keys of the room and the room |
| `KeyCache.SetAgrees` | src/chat/derive.ts:51-77 | a set keeps the two maps in step with a plain list of at most 256 pairs by recency, evicting only its head |
| `KeyCache.EvictRoomAgrees` | src/chat/derive.ts:83-90 | evicting a room removes exactly its pairs from both maps |
| `KeyCache.RunAgrees` | src/chat/derive.ts:36-91 | after any run the order map holds exactly the joined keys of the stored pairs, at most 256, and no inner map is empty |
| `KeyCache.RecencyIsLastSet` | src/chat/derive.ts:68-70 | the list is ordered by the last set, so its head is the least recently set pair |
| `KeyCache.GetIsExpected` | src/chat/derive.ts:47-91 | a lookup returns the last value set unless its room was evicted or it was the least recently set pair of a full cache |
| `KeyCache.NulRoomsCollide` | src/chat/derive.ts:42-76 | every pair whose room has a NUL has another pair that shares its entry of the order map while both are stored |
| `KeyCache.HeadIsForgottenIff` | src/chat/derive.ts:54-67 | a set that finds the cache full forgets the stored pair at the head of the order exactly when its room has no NUL |
| `Starvation.EpisodeState` | src/worker-frame.ts:768-790 | the fields of an episode are its first drop, its number of drops and its last signal; the first drop is signalled |
| `Starvation.SignalsAreExact` | src/worker-frame.ts:781-789 | each signal carries the exact number of drops and the time since the first |
| `Starvation.SignalsAreSpaced` | src/worker-frame.ts:781-789 | consecutive signals are at least 1000 ms apart and count more drops |
| `Starvation.SilenceIsShort` | src/worker-frame.ts:768-790 | an unsignalled drop is less than 1000 ms after a signal |
| `Starvation.SignalsAreFew` | src/worker-frame.ts:768-790 | on a clock that never goes back an episode of length T sends at most 1 + floor(T / 1000) signals |
| `PreEpochQueue.PushAllKeepsHead` | src/worker-frame.ts:744-758 | n pushes into an empty queue leave all of them, or the first cap - 1 and the last, with exactly max(0, n - cap) overflows |
| `Worker.WorkerObject.constructor` | src/worker-state.ts:24-63 | the initial state |
| `Worker.WorkerObject.IsKeyInvalid` | src/worker-state.ts:172-176 | tolerance in force and exceeded |
| `Worker.WorkerObject.RecordFailure` | src/worker-state.ts:186-196 | counts one failure and announces the transition when metrics are on |
| `Worker.WorkerObject.RecordSuccess` | src/worker-state.ts:202-205 | clears the count while the tolerance is in force |
| `Worker.WorkerObject.ResetFailureCounts` | src/worker-state.ts:234-236 | the loop forgets exactly the counts of these peers in this epoch |
| `Worker.WorkerObject.BuildKeys` | src/worker-state.ts:221-229 | the loop builds every key, or fails exactly when some identifier is out of range |
| `Worker.WorkerObject.ScheduleWipeOfEpochsBelow` | src/worker-state.ts:259-266 | the loop arms exactly the missing timers of older epochs |
| `Worker.WorkerObject.InstallEpoch` | src/worker-state.ts:215-257 | all keys or no change; on an advance counter, timers and announcement |
| `Worker.WorkerObject.WipeEpoch` | src/worker-state.ts:268-302 | epoch, timer, windows and formats go; the stale gate rises and never falls |
| `Worker.WorkerObject.Teardown` | src/worker-state.ts:304-326 | everything is forgotten but the decode-side episode and a drain pass under way |
| `Worker.WorkerObject.SetReplayWindow` | src/worker-state.ts:124-133 | clamps the size and drops all windows |
| `Worker.WorkerObject.SetFailureTolerance` | src/worker-state.ts:134-142 | clamps the tolerance and drops all counts |
| `Worker.WorkerObject.NoteEncryptDrop` | src/worker-frame.ts:173-188 | encode-side coalescing |
| `Worker.WorkerObject.NoteStarveDrop` | src/worker-frame.ts:768-790 | decode-side coalescing |
| `Worker.WorkerObject.ClearStarve` | src/worker-frame.ts:793-800 | ends an episode that is on |
| `Worker.WorkerObject.PushToQueue` | src/worker-frame.ts:744-758 | evicts the tail on overflow, reports it, pushes |
| `Worker.WorkerObject.BeginEncode` | src/worker-frame.ts:264-307 | takes the counter, splits the frame at the clear prefix, or fails with no epoch, no key, header range or salt |
| `Worker.WorkerObject.SealJob` | src/worker-frame.ts:295-320 | one buffer: prefix, header, sealed body, trailer; then the encode episode ends |
| `Worker.WorkerObject.ProbeFormat` | src/worker-frame.ts:122-160 | the first candidate layout that opens with the cached key |
| `Worker.WorkerObject.Resolve` | src/worker-frame.ts:520-568 | cached layout, else probed layout, else the default one |
| `Worker.WorkerObject.TryDecryptWithRatchet` | src/worker-frame.ts:358-484 | cached key first, then the window in order; a success moves key and cursor, a failure moves nothing |
| `Worker.WorkerObject.DeriveNextSenderKey` | src/ratchet-crypto.ts:295-312 | one step, or the range error exactly for a peer index that does not fit two bytes |
| `Worker.WorkerObject.RetryLoop` | src/worker-frame.ts:436-475 | the loop is the ordered search, ends with the key of the step it found, and throws at its first derivation for a peer index above 65535 |
| `Worker.WorkerObject.Admit` | src/worker-frame.ts:602-681 | replay gate, durable gate, invalid-key gate, decryption, bookkeeping |
| `Worker.WorkerObject.DecodeFrame` | src/worker-frame.ts:486-724 | the whole decode path with its state, result and messages |
| `Worker.WorkerObject.RequestDrain` | src/worker-frame.ts:819-836 | a request takes a snapshot or marks the running drain |
| `Worker.WorkerObject.EndDrain` | src/worker-frame.ts:980-988 | the end of a pass re-runs exactly when a request is pending |
| `Worker.WorkerObject.DrainFrame` | src/worker-frame.ts:837-979 | the whole drain path for one frame |
| `Worker.WorkerObject.DrainPass` | src/worker-frame.ts:836-979 | the loop over a snapshot |
| `Worker.WorkerObject.Handle` | src/worker-state.ts:65-147 | every message, timer and frame performs the step that the runs below are made of |
| `FrameLaws.RetryIsLeast` | src/worker-frame.ts:358-484 | the retry opens a frame exactly when the cached key does, or a step of the window for a peer index of two bytes, and then at the least such step |
| `FrameLaws.DeliveredIsAuthentic` | src/worker-frame.ts:486-681 | whatever decode delivers is the clear prefix and the text the sender key opened, ratcheted the least number of steps |
| `FrameLaws.DrainedIsAuthentic` | src/worker-frame.ts:837-960 | the same for a drained frame |
| `FrameLaws.DecodeUndoesEncode` | src/worker-frame.ts:264-681 | with matching key, codec and trailer and open gates, decoding gives back the encoded frame, on a cache miss and on a cache hit |
| `FrameLaws.DecodeUndoesEncodeIff` | src/worker-frame.ts:289-291 | exactly for frames at least as long as the clear prefix of their codec |
| `FrameLaws.SenderAheadIsHeard` | src/worker-frame.ts:434-475 | on a cache miss or hit, a frame sealed up to a window ahead of the cached key is delivered, and exactly and at its step unless an earlier key or another form opens it |
| `FrameLaws.SenderAheadIsExact` | src/worker-frame.ts:434-475 | if the sealed text opens only as sealed and earlier steps give other keys, the frame comes back exactly and the cursor moves exactly to the sender |
| `Sframe.MarkingAead` | src/sframe.ts:195-222 | the law that one text opens only as it was sealed can be met for every text |
| `FrameLaws.OnlyTwoCodecsCutElsewhere` | src/worker-frame.ts:64-85 | the premise that no other cut opens the frame holds by itself for every codec but VP9 and AV1 |
| `FrameLaws.DrainUndoesEncode` | src/worker-frame.ts:837-960 | the same for a frame that waited in the queue, without a trailer |
| `FrameLaws.SealedOpens` | src/sframe.ts:129-172 | a sealed body opens under the same raw key and salt, and its header names epoch, peer and counter |
| `FrameLaws.ResolvesToSent` | src/worker-frame.ts:520-568 | format resolution arrives at the layout of the sender |
| `WorkerEffects.DecodeFollows` | src/worker-frame.ts:528-723 | keys, windows, counts, queue, messages and episode after a decode, all determined by its report |
| `WorkerEffects.DrainFollows` | src/worker-frame.ts:837-979 | the same for a drained frame |
| `WorkerEffects.DecodeFormats` | src/worker-frame.ts:645-659 | a delivery stores the layout the frame resolved to for its sender; no other entry and no other frame changes the cache |
| `WorkerEffects.DrainFormats` | src/worker-frame.ts:932-943 | the same for a drained frame |
| `FrameOutcomes.PlainFramesPass` | src/worker-frame.ts:498-511 | a frame passes through exactly if it lacks the configured trailer, and nothing changes; any other frame is its payload and the trailer |
| `FrameOutcomes.DecodeOutcome` | src/worker-frame.ts:528-723 | the first gate a frame fails decides its end; one that passes all is delivered exactly if a key within reach opens it |
| `FrameOutcomes.DecodeCounts` | src/worker-frame.ts:682-692 | told by state and bytes: a frame past the gates clears the count of its sender if it opens and raises it by one if it tells on the key; stale, replayed, keyless, unreadable and wrong-salt frames change no count |
| `FrameOutcomes.DrainOutcome` | src/worker-frame.ts:837-979 | the same for a drained frame, with no key known tested before the gates |
| `FrameOutcomes.DrainCounts` | src/worker-frame.ts:961-970 | the same counts, except that a frame too short for its tag counts nothing without a ratchet window |
| `FrameOutcomes.DecodeQueues` | src/worker-frame.ts:594-601 | queued are exactly the readable frames that are not stale while no epoch was ever active |
| `FrameOutcomes.DrainQueuesAgain` | src/worker-frame.ts:888-894 | queued again are exactly the readable frames that are not stale and whose sender has no key |
| `FrameOutcomes.QueuedIsKept` | src/worker-frame.ts:744-758 | a queued frame is at the end of the queue; with room nothing else changes, and there is no message |
| `FrameStreams.StreamIsDelivered` | src/worker-frame.ts:264-681 | a stream of any length under one clear prefix, encoded in turn and decoded in turn, comes back frame by frame, from a receiver with nothing cached for the sender or its layout |
| `FrameStreams.CallIsHeard` | src/worker-frame.ts:264-681 | two new workers that install an epoch with the same bundle of the sender and agree on identifiers and codec: every frame one encodes the other gives back |
| `FrameStreams.ToleranceIsExact` | src/worker-state.ts:172-196 | from a clean slate tolerance + 1 frames that tell on a key make it invalid, no fewer do, and the next is refused for that alone |
| `FrameWaits.WaitingStreamIsDelivered` | src/worker-frame.ts:744-979 | a stream that fits the queue and arrives before any epoch waits through installs of other keys and their drains, losing nothing, and comes back frame by frame in the drain after the install of its key |
| `FrameWaits.NewWorkerIsIdle` | src/worker-state.ts:24-63 | a new worker is a receiver as that theorem asks, for every sender |
| `FrameFormats.CandidatesArePromised` | src/worker-frame.ts:64-85 | the candidates are exactly the promised layouts: for VP9 and AV1 the whole frame or all but one byte, for the others the prefix of the codec, under every form that gives other data |
| `FrameFormats.ProbedInTurn` | src/worker-frame.ts:122-160 | probing finds a promised layout that opens the frame, and none whose turn is earlier does |
| `FrameFormats.HeardInLayout` | src/worker-frame.ts:520-681 | a frame of any release under a key within reach is delivered exactly if it has the layout cached for its sender, or with none cached a promised one; it comes back as sent and its layout is cached |
| `FrameFormats.StreamIsDeliveredIff` | src/worker-frame.ts:545-550 | a stream comes back if and only if all its frames show as long a clear prefix as the first |
| `FrameFormats.KeyThenInterIsLost` | src/worker-frame.ts:545-550 | for every sender and receiver some lawful cipher delivers a VP8 key frame and loses the inter frame after it |
| `FrameFormats.Vp8CallLosesFrames` | src/worker-frame.ts:545-550 | the same for every VP8 call between two new workers that agree on everything |
| `FrameFormats.UnforgeableHasModel` | src/sframe.ts:195-222 | the premise about texts that open only as sealed can be met for every frame with a clear prefix |
| `WorkerState.InstallSound` | src/worker-state.ts:215-257 | an install keeps the epoch invariant and the stale gate, changes one entry, and an advance arms exactly the older epochs |
| `WorkerState.WipeSound` | src/worker-state.ts:268-302 | a fired timer keeps the invariant, closes exactly its epoch and those before it, and spares the active one |
| `WorkerState.WipeForgets` | src/worker-state.ts:268-302 | a wipe takes keys, windows and layouts of its epoch and of no other, and no failure count |
| `WorkerState.TeardownStartsOver` | src/worker-state.ts:304-326 | a teardown goes back to the initial state but for settings, the drain pass and flags, the decode-side episode and the log |
| `WorkerState.InitialDefaults` | src/worker-state.ts:24-63 | window sizes 8 and 64, no tolerance, nothing installed, heard or queued |
| `WorkerRuns.EpochsStaySound` | src/worker-state.ts:215-316 | in every reachable state the active epoch is installed and not stale, and only older epochs have timers |
| `WorkerRuns.GatesNeverGoBack` | src/worker-state.ts:237-301 | between teardowns active epoch and stale gate never fall |
| `WorkerRuns.AdvanceArmsTimers` | src/worker-state.ts:237-250 | after any run an install arms the older epochs, restarts the counter and announces the epoch exactly if it advances |
| `WorkerRuns.GateIsWiped` | src/worker-state.ts:300-301 | in every run the stale gate is one more than the highest epoch wiped since the last teardown |
| `WorkerRuns.SettingsTakeEffect` | src/worker-state.ts:111-142 | each setting message sets its field to the clamped value, clears the windows or the counts that depend on it, and changes no other setting |
| `WorkerSafety.KeysStayNamed` | src/worker-state.ts:221-229 | in every run each cached key carries the identifier of its epoch and peer |
| `WorkerSafety.JobsAreOrdered` | src/worker-frame.ts:269-278 | the encodes begun between teardowns strictly increase in (epoch, counter) |
| `WorkerSafety.HeadersAreUnique` | src/worker-frame.ts:269-295 | no two of them share identifier and counter, a header, or under one salt and epoch a nonce, however they overlap |
| `WorkerSafety.NoReplayIsAccepted` | src/worker-frame.ts:602-662 | in every run any W+1 consecutive counters accepted from a sender since the last teardown or resize are distinct |
| `WorkerDurable.KeyInjective` | src/worker-state.ts:161-163 | different senders have different guard keys |
| `WorkerDurable.DeliveredWasAsked` | src/worker-frame.ts:602-630 | a delivered frame was put to the durable guard and answered fresh |
| `WorkerDurable.ClearKeeps` | src/worker-state.ts:290-299 | clearing a wiped epoch empties exactly the windows of its peers |
| `WorkerDurable.KeyReads` | src/worker-state.ts:161-163 | the guard key reads as the numeral of the epoch, a bar and the numeral of the peer index |
| `WorkerDurable.RefusalHasCause` | src/worker-frame.ts:602-630 | in every run with a guard a frame is refused as replayed only for a counter in the window of the worker or among the newest W that the log of its sender holds |
| `WorkerDurable.NoReplayAcrossTeardowns` | src/worker-frame.ts:602-669 | with a guard that accepts each delivered counter, any W+1 consecutive counters accepted from a sender are distinct across teardowns and reloads, until a wipe of its epoch clears its window |
| `WorkerSafety.StaleStaysClosed` | src/worker-frame.ts:580-592 | an epoch below the stale gate delivers nothing before a teardown, so dropping its windows is safe |
| `WorkerKeys.CursorIsFaithful` | src/worker-frame.ts:457-460 | in every run each cached key is the installed key ratcheted as often as the cursor says |
| `WorkerKeys.SaltNeverMoves` | src/worker-frame.ts:447-450 | its salt is the installed one |
| `WorkerKeys.SelfIsInstalled` | src/worker-state.ts:238-257 | in every run the own index of an epoch is the one installed with it, and the active epoch is the one the installs say |
| `WorkerKeys.EncodeIsOwn` | src/worker-frame.ts:269-287 | an encode begins exactly with an active epoch, an installed key of its own with a salt of twelve bytes and a 64-bit counter; it is sealed under that key, ratcheted by the cursor, and its identifier names the own index |
| `WorkerKeys.CounterIsTally` | src/worker-frame.ts:276-278 | in every run the counter is the number of encodes since the active epoch was installed that found a key |
| `WorkerKeys.EncodeOutcome` | src/worker-frame.ts:266-300 | every encode begins or fails for the reason that the history tells; one that finds a key spends a counter even if it fails |
| `WorkerKeys.CursorOnlyAdvances` | src/worker-frame.ts:449-475 | between installs the cursor moves only with a delivered frame, forward, by at most the window |
| `WorkerKeys.CountIsTrailing` | src/worker-state.ts:186-213 | in every run the count is the number of failures the history of the key ends in, at most tolerance + 1 |
| `WorkerKeys.InvalidIff` | src/worker-state.ts:172-176 | a key is invalid exactly when its history ends in more failures than the tolerance in force |
| `WorkerKeys.InvalidStaysInvalid` | src/worker-frame.ts:632-643 | an invalid key delivers nothing until re-install, tolerance change or teardown |
| `WorkerKeys.AnnouncedWhenInvalidated` | src/worker-state.ts:192-195 | with metrics on, each event announces a key exactly when it makes it invalid |
| `WorkerQueues.DrainsCoalesce` | src/worker-frame.ts:819-836 | pending implies draining, passes never outnumber requests, and with none pending a pass has started at or after the last request |
| `WorkerQueues.PassIsConserved` | src/worker-frame.ts:836-979 | each frame of a pass is decoded, reported by one message, dropped as stale, or queued again in order with one overflow for each frame evicted |
| `WorkerQueues.QueueIsPushed` | src/worker-frame.ts:744-758 | in every run the queue is what the frames pushed since it was emptied give |
| `WorkerQueues.EpisodeIsFaithful` | src/worker-frame.ts:768-800 | in every run fields and messages of the decode episode are those of its drops since the last delivery |
| `WorkerQueues.PeerIsOfEpisode` | src/worker-frame.ts:768-800 | in every run the worker names a starved peer exactly while an episode is on |
| `WorkerQueues.StarvedMessagesAreSpaced` | src/worker-frame.ts:781-789 | two messages in a row carry times at least 1000 ms apart and growing counts |
| `WorkerQueues.StarvedMessagesAreFew` | src/worker-frame.ts:768-790 | at most one signal, and one more for every full second of the episode |
| `WorkerQueues.EncodeEpisodeIsFaithful` | src/worker-frame.ts:173-197 | the encode side is the same episode over its own drops, its messages sent at the times of the signals |
| `WorkerQueues.EncryptFailuresAreSpaced` | src/worker-frame.ts:173-188 | two encrypt_failure messages in a row are at least 1000 ms apart |
| `WorkerQueues.EncryptFailuresAreFew` | src/worker-frame.ts:173-188 | at most one such message, and one more for every full second between the first and the last drop |

## Left out

- DurableTabs.CompletedIsDurable: speaks of accepts that recorded their counter and returned; the early return is treated by the two lemmas named after it.
- DurableTabs.EarlyReturnDurableUnlessQueued: one direction; a counter still queued may or may not be stored, because an earlier merge of the same tab or a write of another may have carried it.
- DurableReplay.GuardRefinesWindow: takes a load together with the mark of an accept as one step, and has no `clear`, which can race a queued persist.
- DurableGuard.DurableReplayGuard.constructor: asks that stored lists have no duplicates, as everything guards write.
- Worker.WorkerObject.TryDecryptWithRatchet: one retry loop at a time; the sharing of a retry between concurrent decodes is not modelled, since one caller then returns the result of another.
- Worker.WorkerObject.Admit: takes the answer of the durable guard as an input and does not perform its accept; `WorkerDurable` joins the two on values, with a check, a delivery and its accept in one step.
- Worker.WorkerObject.DecodeFrame: as `Admit`.
- Worker.WorkerObject.DrainFrame: as `Admit`.
- Worker.WorkerObject.WipeEpoch: does not clear the durable windows of the epoch; `WorkerDurable.Cleared` does, once the queued persists have settled.
- Worker.WorkerObject.Handle: has neither `init` in mid-run, with its codec and queue bound, nor the wiring of streams; of the stream message it takes the codec.
- WorkerDurable.NoReplayAcrossTeardowns: a teardown is followed by an `init` that makes a new guard on the same store before the next frame, and queued persists have settled by then.
- WorkerSafety.NoReplayIsAccepted: decodes and drained frames are single steps, so two decodes of one sender never interleave at their suspensions.
- FrameLaws.DecodeUndoesEncode: asks that the cached layout has the prefix length of this frame, which a VP8 sender mixing key and inter frames breaks; the exact condition is `FrameFormats.HeardInLayout`.
- FrameLaws.SenderAheadIsHeard: for VP9 and AV1 assumes that no candidate with another cut opens the frame, because nothing in the laws of sealing keeps one from opening by accident; it says which text comes back only together with `SenderAheadIsExact`.
- FrameStreams.StreamIsDelivered: the frames of one sender in turn, with no other event in between.
- FrameWaits.WaitingStreamIsDelivered: stated without a trailer, because the drain path strips none, and for installs and drains with no other frame in between.
- FrameFormats.HeardInLayout: assumes of this one text that it opens only as it was sealed and that no key opens it behind another cut that is tried, because nothing in the laws of sealing keeps one from opening by accident.
- FrameFormats.StreamIsDeliveredIff: the same of the frames that show another prefix.
- WorkerQueues.PassIsConserved: a pass without other events in between; the queue law for all interleavings is `QueueIsPushed`.
- Replay windows inside the worker are kept as the sequences that the window class is proved to hold, not as objects.
- FrameLaws.DrainUndoesEncode: stated without a trailer, because the drain path strips none.
- WebCrypto, HKDF, X25519, key wrapping, the MLS provider and the SAS exchange: calls into code outside the model.
- IndexedDB and Web Locks are a map and an exclusive lock that never fail; feature detection is one flag.
- Streams, the pipe, console output, and metrics other than the announcement of an invalid key; of a message only what the proofs use is kept.
- Roles, peer ids, the cipher suite, and the peer index kept beside the epoch table: nothing reads them on the modelled paths.
- Sizes that are not integers, NaN, and strings beyond their order by code unit; memory zeroisation; running time.
- The counter allocators and the chat provider are not modelled.
