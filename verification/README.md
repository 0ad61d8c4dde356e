# MaxIO storage, in Dafny

MaxIO is an S3-compatible object store. This project models the parts of it whose correctness does not show in any
one function: poll-driven stream adapters for encrypted and erasure-coded objects, a replicated metadata state machine,
a wildcard matcher with backtracking and the two policy evaluators built on it, canonicalisation of signed requests,
multi-step file updates, version history under lifecycle sweeps, shard placement and healing, a rate limiter, paged
listings with their index, and the decoder of chunked uploads.

Code that changes state step by step is modelled by classes and methods with loops (readers, stores, disks, scanner,
limiter, index); code that computes a value is modelled by functions. Every method is specified by a function or a
predicate that does not mention how the method works, and the promises of the system are lemmas about those.

`dafny verify dfyconfig.toml` verifies everything.

## How it is put together

| file | what it holds |
|---|---|
| `Base`, `Arithmetic`, `Streams` | bytes, slices, quotients; byte sources that stall, trickle or fail on a schedule |
| `Framing`, `FrameStreams` | frame nonces and layout; `FrameEncryptor` and `FrameDecryptor` |
| `ChunkStore`, `ChunkLayout` | manifests, Reed-Solomon recovery and `VerifiedChunkReader`; chunks against object bytes |
| `ReadPath`, `WritePath` | the adapters stacked on each other, drained by an arbitrary consumer; writing, damage, reading |
| `AlteredFiles`, `Truncation` | encrypted files with any bytes in them; files that end too soon |
| `RaftStore`, `RaftRuns` | the store of one node, call by call; all runs of a cluster |
| `Glob`, `Policy`, `PolicyMeaning` | `glob_match`; the v1 and v2 policy evaluators; what a statement grants, said without them |
| `Text`, `CanonicalQuery` | percent-encoding (sections 2.1 and 2.3 of RFC 3986) and canonical queries |
| `Presign`, `PresignProof`, `PresignBinding` | presigned URLs: that honest ones are accepted, and what a signature binds |
| `Versions`, `Publish` | versions, delete markers, top-level files and the noncurrent sweep; publishing a payload with its metadata |
| `Placement`, `Bitrot` | round-robin placement and rebuilding; the bitrot scanner |
| `RateLimiter`, `Pagination`, `MetadataIndex`, `AwsChunked` | the login limiter, listings, the `LIKE` index, `aws-chunked` bodies |

What the model takes from libraries is a parameter with a stated assumption: AES-GCM opens what it sealed (and, where
said, nothing else: `Opens`, `Unforgeable`), SHA-256 has no collisions (`CollisionFree`), Reed-Solomon is an MDS code for
k, m > 0 and k + m <= 256 (`Mds`), lossy UTF-8 decoding keeps ASCII and is idempotent (`IsLossy`), base64 round-trips
(`RoundTrips`). What a signature binds is stated without any assumption on SHA-256 and HMAC: a collision is named
where one is needed. Clocks, schedules of reads, failing system calls and damage to files are parameters over which
everything is quantified.

## Where the code falls short of a promise

Each of these is stated as an exact condition, and the code is modelled as it is.

- A wildcard pattern is matched correctly on a value, for all patterns, iff the value contains no `*`
  (`Glob.CorrectOnValueIff`); so a public-read policy lets exactly the keys through that are a single star or do not
  start with one (`Policy.PublicReadAgreesIff`).
- A snapshot may be built between the mark of an entry and its mutation. Over every run, all idle nodes hold the fold of
  the committed log iff no step installs a snapshot built while a mutation that would change something was in flight
  (`RaftRuns.StatesAreFoldsIff`); seven steps lead to two idle nodes at the same `last_applied_log` with different data
  (`TornSnapshotIsReachable`), and they differ at the place of the mutation until a later entry writes there
  (`TornSnapshotLags`).
- The decryptor's preflight forgets the leading skip, so it changes what a range read delivers unless the range starts
  at a frame boundary (`FrameStreams.PreflightIsTransparentIff`).
- The decryptor takes the end of a file between two frames for the end of the object. A file that is any beginning of the
  genuine ciphertext is read up to its last complete frame; there is an error iff it ends inside a frame, behind the
  place where reading starts, and the complete frames do not serve the window. So the window is cut short silently
  iff it is not served and the file ends between frames or before that place (`Truncation.ReadTruncatedFile`).
- `with_range` serves parity bytes as data as soon as the range runs past the nominal end of the last data chunk
  (`ChunkLayout.RangeIsExactIff`).
- Reads prefer the chunk directory at the top level, and flat puts and restores leave it there: what was written is served
  iff it is chunked itself or no other chunk directory is at the top (`Versions.WrittenIsServedIff`, `Store.PutVersion`).
  After a plain version, a chunked one and the deletion of the second, its bytes are served as the first
  (`DeletedBytesAreServed`).
- The noncurrent sweep, and deleting a version, bring a deleted object back (`Versions.SweepIsInSyncIff`,
  `SweepResurrects`, `DeletedObjectComesBack`, `DeleteIsInSyncIff`) or overwrite a null version
  (`SweepKeepsNullVersionIff`, `DeleteKeepsNullVersionIff`, `NullVersionIsLost`).
- The index is not told of delete markers, restores and deleted versions, so it is right about a key iff the version it
  was told of last is still the newest entry (`Versions.IndexIsCurrentIff`, `DeletedObjectStaysIndexed`).
- With a working way back, publishing is all or nothing iff it is not the case that there is an old payload, setting it
  aside succeeds, and setting the metadata aside fails (`Publish.PublishPair`). Backups bear the name of temporary files:
  a stop before cleanup, followed by housekeeping, can lose the old payload or metadata iff it exists, the calls up to
  the one that sets it aside succeed, and the key has no slash (`Publish.PublishKey`); with no failing call at all
  in `OverwriteCanLose`.
- The scanner's comment says that a missing checksum file counts as a mismatch; the code writes one from whatever is
  on disk. A heal does not verify the shards it reads (`Bitrot.HealTrustsWhatItReads`); a parity shard healed from the data
  shards, at most one of them altered, is original iff none is (`HealedParityIff`, with an input in `AlteredDataSpreads`).
- The limiter is called a sliding window. The most it admits in an interval of any length is a quota for each window that
  fits, one quota more, and a quota less one if there is time left over (`RateLimiter.LimitHoldsIff`, reached by `LateSeries`
  and `FullSeries`): in a window that leaves out one of its bounds twice the quota less one, in a closed one twice the
  quota (`MostInAWindow`). So it keeps to the quota iff the quota is one (`SlidingWindowIff`); a window of zero sets no limit.
- With `max-keys=0` a listing is truncated without a way to go on (`Pagination.CanGoOnIff`), and a common prefix is
  reported again when a page ends inside its group (`Pagination.RepeatedPrefixIff`).
- The index lists keys that match a prefix only after case folding (`MetadataIndex.IndexIsWalkIff`, `CaseFoldingShows`).
- A chunked upload that breaks off between two chunks, or within leading zeros of a size, is stored as if it were
  complete (`AwsChunked.CutBodyDecodes`, `MissingEndIsAccepted`).
- A read into an empty buffer moves the decryptor on to the last frame (`FrameStreams.FrameDecryptor.PollRead`).

## Model

| member | source | states |
|---|---|---|
| `Framing.MakeFrameNonce` | crates/maxio-storage/src/filesystem/common.rs:423-446 | a nonce is 12 bytes and starts with the prefix; it is refused exactly for prefixes that are neither 4 nor 8 bytes and for indices beyond 32 bits in the 8-byte layout |
| `Framing.LittleEndianRoundTrip` | crates/maxio-storage/src/filesystem/common.rs:423-446 | reading back the index bytes of a nonce gives the index |
| `Framing.LittleEndianAt` | crates/maxio-storage/src/filesystem/common.rs:423-446 | the index bytes of a nonce are its digits in base 256, the lowest first |
| `Framing.NonceCarriesIndex` | crates/maxio-storage/src/crypto.rs:386-408 | the decryptor's index test accepts the nonce of a frame at that frame's index, in both layouts |
| `Framing.IndexAcceptedIff` | crates/maxio-storage/src/crypto.rs:386-408 | a nonce is taken for an index iff its last eight bytes, or its last four, are that index |
| `Framing.DecodeFrameIs` | crates/maxio-storage/src/crypto.rs:376-440 | a complete frame is out of place iff neither layout carries its index, else refused iff it does not open, else it is what it opens to |
| `Framing.NoncesNeverRepeat` | crates/maxio-storage/src/filesystem/common.rs:423-446 | two different frames of one object never share a nonce |
| `Framing.FrameShape` | crates/maxio-storage/src/filesystem/common.rs:399-421 | a ciphertext starts with a frame of 28 bytes more than its chunk, followed by the frames of the rest |
| `Framing.FirstFrame` | crates/maxio-storage/src/crypto.rs:376-463 | bytes of the right length at the head of a genuine ciphertext are its first frame and open to its first chunk |
| `Framing.SeekFrames` | crates/maxio-storage/src/crypto.rs:294-299 | dropping n full frames of ciphertext leaves the ciphertext of the plaintext without its first n chunks |
| `Framing.SeekLandsOnFrame` | crates/maxio-storage/src/crypto.rs:294-299 | seeking to `ciphertext_offset` lands on the frame that holds the requested byte, for every offset inside the object |
| `Framing.CiphertextLength` | crates/maxio-storage/src/crypto.rs:95-119 | a ciphertext is the plaintext size plus 28 bytes per started chunk |
| `FrameStreams.FrameEncryptor.EncryptCurrentChunk` | crates/maxio-storage/src/crypto.rs:96-121 | sealing the buffered chunk leaves the ciphertext still to come unchanged |
| `FrameStreams.FrameEncryptor.PollRead` | crates/maxio-storage/src/crypto.rs:123-169 | each poll hands out the next bytes of the framed ciphertext and nothing else, whatever the inner reads and buffer sizes; an end of input is reported only at the end |
| `FrameStreams.FrameDecryptor.ForRange` | crates/maxio-storage/src/crypto.rs:235-291 | over a stream positioned at `ciphertext_offset`, what is owed is the requested window of the plaintext, cut at its end |
| `FrameStreams.FrameDecryptor.UpdateFrameTarget` | crates/maxio-storage/src/crypto.rs:328-336 | the frame target is the size of the next genuine frame, and 0 after the last |
| `FrameStreams.FrameDecryptor.OpenFrame` | crates/maxio-storage/src/crypto.rs:376-463 | a frame that opens is the next frame of the object; what is owed does not change |
| `FrameStreams.FrameDecryptor.Refill` | crates/maxio-storage/src/crypto.rs:376-463 | a torn frame is an error, an end between frames a clean end; reading on never changes what is owed |
| `FrameStreams.FrameDecryptor.PollRead` | crates/maxio-storage/src/crypto.rs:339-463 | with room in the buffer each poll hands out the next bytes of the window, even on altered ciphertext if forgery is ruled out; whatever the ciphertext, it ends only where nothing is wanted or left, or the ciphertext has run out between two frames, and on a sound device it fails only at a frame that is torn, out of place or refused, and says which; the frames before that are complete and open; an empty buffer moves the position to the last frame, so it loses bytes iff undelivered ones lie before that |
| `FrameStreams.FrameDecryptor.Preflight` | crates/maxio-storage/src/crypto.rs:304-325 | decrypts the first frame early; with no leading skip what is owed stays the same |
| `FrameStreams.PreflightIsTransparentIff` | crates/maxio-storage/src/crypto.rs:304-325 | for every non-empty window, delivery after preflight is right for all plaintexts iff there is no leading skip |
| `FrameStreams.OwedAtStart` | crates/maxio-storage/src/crypto.rs:259-291 | first frame and in-frame skip computed from an offset denote the window that starts at that offset |
| `ChunkStore.AnyMLossesAreRecoverable` | crates/maxio-storage/src/chunk_reader.rs:107-262 | after the loss or alteration of any set of at most m files every chunk can still be served |
| `ChunkStore.ShardsDetermineChunk` | crates/maxio-storage/src/chunk_reader.rs:188-262 | any k genuine shards rebuild every chunk to its recorded size |
| `ChunkStore.IntactIsGenuine` | crates/maxio-storage/src/chunk_reader.rs:107-183 | a file that passes its checksum is the chunk that was written |
| `ChunkStore.RecoverableIff` | crates/maxio-storage/src/chunk_reader.rs:107-262 | a chunk can be served iff its own file is sound, or there is parity and at least k files are |
| `ChunkStore.TryReconstructDataChunk` | crates/maxio-storage/src/chunk_reader.rs:188-262 | returns the original chunk iff at least k files are intact, and otherwise an error, never other bytes |
| `ChunkStore.LoadChunk` | crates/maxio-storage/src/chunk_reader.rs:107-183 | returns the original chunk iff its file is intact or it can be rebuilt |
| `ChunkStore.VerifiedChunkReader.LoadChunkSync` | crates/maxio-storage/src/chunk_reader.rs:107-183 | loading a chunk leaves what is owed unchanged, and fails only if the chunk is not recoverable |
| `ChunkStore.VerifiedChunkReader.Preflight` | crates/maxio-storage/src/chunk_reader.rs:97-102 | preflight never changes what is delivered |
| `ChunkStore.VerifiedChunkReader.PollRead` | crates/maxio-storage/src/chunk_reader.rs:271-319 | each poll hands out the next bytes of the window; with any damage it may fail but never hands out another byte, and it does not fail while every chunk ahead is recoverable |
| `ChunkLayout.CatOfWholeObject` | crates/maxio-storage/src/chunk_reader.rs:35-53 | the data chunks in order are the object |
| `ChunkLayout.WindowInsideData` | crates/maxio-storage/src/chunk_reader.rs:56-92 | first chunk, last chunk and skip computed from a range denote that range of the object |
| `ChunkLayout.BlocksPastData` | crates/maxio-storage/src/chunk_reader.rs:75-78 | a range that runs past the last data chunk is answered with parity bytes |
| `ChunkLayout.RangeIsExactIff` | crates/maxio-storage/src/chunk_reader.rs:56-92 | `with_range` denotes the requested slice iff the range ends by chunk count times chunk size |
| `ReadPath.DrainEncryptor` | crates/maxio-storage/src/crypto.rs:123-169 | any consumer that reads to the end gets exactly the ciphertext |
| `ReadPath.DrainReader` | crates/maxio-storage/src/chunk_reader.rs:271-319 | any consumer gets a prefix of the window, and all of it unless an error is reported |
| `ReadPath.DrainDecryptor` | crates/maxio-storage/src/crypto.rs:339-463 | any consumer gets a prefix of the window, and all of it from a genuine stream; where it stops, the frames before are complete and open, and the next one is what is reported |
| `ReadPath.EncryptStream` | crates/maxio-storage/src/crypto.rs:58-169 | encrypting a stream gives the framed ciphertext, for every schedule of reads |
| `ReadPath.EncryptThenReadRange` | crates/maxio-storage/src/crypto.rs:123-463 | encrypting, seeking and decrypting yields plaintext[offset..min(offset+length, size)], for every schedule on both sides |
| `ReadPath.SurvivorsServeEverything` | crates/maxio-storage/src/chunk_reader.rs:107-262 | with at most m files lost or altered every data chunk is recoverable |
| `ReadPath.ReadChunkedRange` | crates/maxio-storage/src/filesystem/object_io.rs:782-880 | a range read of a chunked object yields exactly the slice with at most m lost files, and never a wrong byte with more |
| `ReadPath.ReadEncryptedVersion` | crates/maxio-storage/src/filesystem/encryption_io.rs:498-515 | chunk reader, preflight, decryptor over it, preflight, drain: exactly the plaintext, with up to m lost files |
| `ReadPath.ReadEncryptedRange` | crates/maxio-storage/src/filesystem/object_io.rs:797-817 | every range of an encrypted chunked object is read back exactly, with up to m lost files |
| `AlteredFiles.EndingLater` | crates/maxio-storage/src/crypto.rs:376-463 | how many bytes are in the sound frames at the head of a ciphertext, and why there are no more, can be found from any of those frames on |
| `AlteredFiles.ReadAlteredFile` | crates/maxio-storage/src/crypto.rs:339-463 | a range read of a file with any bytes in it: only bytes of the window come out; without an error all of it, cut only where the file runs out between two frames; on a sound device exactly the window cut to the sound frames, with an error iff the window needs a frame that is torn, out of place or refused, and which of the three |
| `Truncation.CountFrom` | crates/maxio-storage/src/crypto.rs:376-463 | the complete frames of a cut ciphertext, and whether it ends inside one, can be counted from any of its frames on |
| `Truncation.ReadTruncatedFile` | crates/maxio-storage/src/crypto.rs:339-463 | a range read of any beginning of a genuine ciphertext, on a sound device, yields exactly the window cut to the complete frames; it is an error iff the cut is inside a frame, behind the place of the first read, and the window is not served; it is silently short iff the window is not served and the cut is at a frame boundary or before that place |
| `WritePath.CutGrows` | crates/maxio-storage/src/filesystem/object_io.rs:244-345 | appending bytes to the write buffer keeps files plus buffer equal to what has been received |
| `WritePath.FlushFullChunks` | crates/maxio-storage/src/filesystem/object_io.rs:244-345 | every flushed file is the next full chunk, and less than a chunk stays buffered |
| `WritePath.ChunkCount` | crates/maxio-storage/src/filesystem/object_io.rs:244-345 | a non-empty object has exactly as many chunks as cover it |
| `WritePath.ParityMakesCodeword` | crates/maxio-storage/src/filesystem/object_io.rs:652-699 | the padded chunks together with the computed parity form a codeword |
| `WritePath.Seal` | crates/maxio-storage/src/filesystem/object_io.rs:652-699 | parity and manifest describe the chunks; there is an error iff there is parity and the shards are more than 255 |
| `WritePath.PutObjectChunked` | crates/maxio-storage/src/filesystem/object_io.rs:244-345 | whatever the pace of the body, the files and the manifest are those of exactly the body's bytes |
| `WritePath.PutObjectChunkedEncrypted` | crates/maxio-storage/src/filesystem/object_io.rs:407-560 | the stored object is exactly the framed ciphertext of the body, cut into chunks |
| `WritePath.WriteDamageRead` | crates/maxio-storage/src/filesystem/object_io.rs:407-880 | write, damage any m files in any way, read any range: exactly that slice of the plaintext, the empty object included; on a sound source it fails iff the shards are more than 255 |
| `RaftStore.ApplyAllConcat` | crates/maxio-cluster/src/storage/raft_store.rs:285-315 | applying two runs of entries one after the other is applying their concatenation |
| `RaftStore.BatchingIsUnobservable` | crates/maxio-cluster/src/storage/raft_store.rs:285-315 | however entries are cut into batches, the resulting state is the same |
| `RaftStore.TwoHalves` | crates/maxio-cluster/src/storage/raft_store.rs:285-315 | applying an entry is recording it and then carrying out its mutation |
| `RaftStore.FoldIs` | crates/maxio-cluster/src/storage/raft_store.rs:88-315 | the fold of a log is the one state with the log id of its last entry, its last membership, the buckets created and not deleted after, and the last placement of every object placed |
| `RaftStore.HoldsFurther` | crates/maxio-cluster/src/storage/raft_store.rs:285-315 | applying entries to a state that holds what a log says gives what the longer log says |
| `RaftStore.LogHoldsCommitted` | crates/maxio-cluster/src/storage/raft_store.rs:136-149 | the part of a log that matches the committed log holds its entries in order |
| `RaftStore.BatchFromLog` | crates/maxio-cluster/src/storage/raft_store.rs:136-149 | applying the batch read from such a log to the fold at its start is the fold at its end |
| `RaftStore.Store.AppendToLog` | crates/maxio-cluster/src/storage/raft_store.rs:272-283 | the keys of the log are the old ones and those of the entries; a later entry stands over an earlier one and over what was there |
| `RaftStore.Store.DeleteConflictLogsSince` | crates/maxio-cluster/src/storage/raft_store.rs:247-256 | exactly the entries from the index on go, whatever the order of removals |
| `RaftStore.Store.PurgeLogsUpto` | crates/maxio-cluster/src/storage/raft_store.rs:258-270 | exactly the entries up to the index go, and the purge point is recorded |
| `RaftStore.Store.TryGetLogEntries` | crates/maxio-cluster/src/storage/raft_store.rs:136-149 | the stored entries of the range, in index order |
| `RaftStore.Store.BeginEntry` | crates/maxio-cluster/src/storage/raft_store.rs:292-308 | the entry is recorded, a membership with its log id, and a mutation left in flight |
| `RaftStore.Store.FinishEntry` | crates/maxio-cluster/src/storage/raft_store.rs:88-132 | the bucket is added or removed or the placement put, and nothing else changes |
| `RaftStore.Store.ApplyToStateMachine` | crates/maxio-cluster/src/storage/raft_store.rs:285-315 | with snapshots taken at any of the moments when the lock is free, a state that held what a log says then holds what the log says with these entries; the last snapshot so taken has the mark of its entry without its mutation |
| `RaftStore.Store.ApplyFromLog` | crates/maxio-cluster/src/storage/raft_store.rs:136-149 | reading and applying a batch takes a node from the fold of the committed log at one index to that at another |
| `RaftRuns.EffectiveIff` | crates/maxio-cluster/src/storage/raft_store.rs:88-132 | a mutation changes the data iff its bucket is missing or present, or its shard map is not already there |
| `RaftRuns.CallKeeps` | crates/maxio-cluster/src/storage/raft_store.rs:247-334 | every call keeps the node invariant, an installation provided that it installs a fold |
| `RaftRuns.TornSnapshotIff` | crates/maxio-cluster/src/storage/raft_store.rs:152-186 | what a build takes is the fold it claims to be iff no mutation that would change something is in flight |
| `RaftRuns.RunKeeps` | crates/maxio-cluster/src/storage/raft_store.rs:247-334 | in every run, with snapshots at any moment, the invariant holds as long as no torn snapshot is installed |
| `RaftRuns.StateIsFoldOfCommittedLog` | crates/maxio-cluster/src/storage/raft_store.rs:88-334 | until then a node with nothing in flight holds the fold of the committed log up to its `last_applied_log` |
| `RaftRuns.IdleNodeHoldsTheLog` | crates/maxio-cluster/src/storage/raft_store.rs:88-334 | over every run, until a torn snapshot is installed, what an idle node says can be read off the committed entries it has applied |
| `RaftRuns.FirstTornInstallShows` | crates/maxio-cluster/src/storage/raft_store.rs:318-334 | the first installation of a torn snapshot leaves its node with something else |
| `RaftRuns.StatesAreFoldsIff` | crates/maxio-cluster/src/storage/raft_store.rs:88-334 | over every run and up to every moment: all nodes with nothing in flight have always held the fold iff no torn snapshot has been installed |
| `RaftRuns.CommittedGrows` | crates/maxio-cluster/src/storage/raft_store.rs:247-334 | over every run the committed log only grows, and snapshots stay under way |
| `RaftRuns.SnapshotWasTaken` | crates/maxio-cluster/src/storage/raft_store.rs:152-186 | every snapshot under way is the state of some node at an earlier build |
| `RaftRuns.NodesAgree` | crates/maxio-cluster/src/storage/raft_store.rs:88-334 | as long as no torn snapshot is installed, two idle nodes with the same `last_applied_log`, at any two moments, hold the same state |
| `RaftRuns.AppliedNeverDecreases` | crates/maxio-cluster/src/storage/raft_store.rs:285-334 | no step takes a node's `last_applied_log` back |
| `RaftRuns.DisagreementLastsUntilWritten` | crates/maxio-cluster/src/storage/raft_store.rs:88-132 | two states that apply the same entries agree at a place iff they did before or an entry wrote to it |
| `RaftRuns.TornSnapshotLags` | crates/maxio-cluster/src/storage/raft_store.rs:295-334 | a node with a torn snapshot differs from its source at the place of the mutation until an entry writes there |
| `RaftRuns.TornSnapshotIsReachable` | crates/maxio-cluster/src/storage/raft_store.rs:152-334 | a whole run of a fresh cluster that builds, installs and finishes: two idle nodes at the same `last_applied_log` with different buckets |
| `Glob.GlobMatch` | crates/maxio-storage/src/policy.rs:604-633 | terminates by a lexicographic measure; accepts only matches, and every match on a value without `*` |
| `Glob.Sound` | crates/maxio-storage/src/policy.rs:604-633 | what is accepted matches declaratively: `*` any run, `?` any one character |
| `Glob.Complete` | crates/maxio-storage/src/policy.rs:604-633 | on a value without `*` everything that matches is accepted |
| `Glob.RejectsAMatch` | crates/maxio-storage/src/policy.rs:613-616 | for every value with a `*` there is a pattern that matches it and is rejected |
| `Glob.CorrectOnValueIff` | crates/maxio-storage/src/policy.rs:604-633 | a value is judged rightly for all patterns iff it contains no `*` |
| `Glob.WalksAlong` | crates/maxio-storage/src/policy.rs:613-616 | while pattern and value agree, stars included, the loop moves along both |
| `Glob.FinalStarSwallows` | crates/maxio-storage/src/policy.rs:604-633 | a last star takes whatever remains |
| `Policy.ApplyActions` | crates/maxio-storage/src/policy.rs:117-156 | the actions of a statement are accepted iff each is in the v1 subset, and set the flag of each that occurs |
| `Policy.EvaluateV1` | crates/maxio-storage/src/policy.rs:93-159 | accepts exactly the v1 documents; `public_read` and `public_list` hold iff the action occurs |
| `Policy.EvaluateV2` | crates/maxio-storage/src/policy.rs:194-233 | an explicit deny wins over every allow, and without a match the answer is an implicit deny; unknown effects are errors when reached |
| `Policy.V1NeverDenies` | crates/maxio-storage/src/policy.rs:93-159 | a v1 document never denies and grants no third action |
| `Policy.UnmentionedIsImplicitDeny` | crates/maxio-storage/src/policy.rs:194-271 | an action that a v1 document does not mention is implicitly denied for every caller and resource |
| `Policy.ListAgrees` | crates/maxio-storage/src/policy.rs:93-271 | v1 says `public_list` iff v2 allows ListBucket, for every caller |
| `Policy.GetAgrees` | crates/maxio-storage/src/policy.rs:93-271 | v1 says `public_read` iff v2 allows GetObject, for every caller and plain key |
| `Policy.ObjectPatternMatchesIff` | crates/maxio-storage/src/policy.rs:442-473 | the object pattern of a bucket matches the name of a key iff the key is plain |
| `Policy.PublicReadOnOddKey` | crates/maxio-storage/src/policy.rs:604-633 | a key that starts with a star, and is more than that, is not readable under the public-read document |
| `Policy.PublicReadAgreesIff` | crates/maxio-storage/src/policy.rs:93-271 | for all accepted documents `public_read` agrees with what v2 answers for a key, iff the key is plain (a lone star, or not starting with one) |
| `PolicyMeaning.StatementIff` | crates/maxio-storage/src/policy.rs:249-271 | a statement applies iff its principal is everyone or an ARN of the caller's access key, an action and a resource cover the request, and every line of its condition holds |
| `PolicyMeaning.DecisionIff` | crates/maxio-storage/src/policy.rs:194-233 | a deny that applies decides, else an allow that applies, else nothing is granted |
| `PolicyMeaning.PrincipalIff` | crates/maxio-storage/src/policy.rs:383-425 | whom a principal admits |
| `PolicyMeaning.ActionIff` | crates/maxio-storage/src/policy.rs:427-433 | which actions an action covers: all of the service, or the same one, the service in any casing |
| `PolicyMeaning.ResourceIff` | crates/maxio-storage/src/policy.rs:442-473 | which objects and buckets a resource covers |
| `PolicyMeaning.ConditionIff` | crates/maxio-storage/src/policy.rs:475-553 | a condition holds iff each of its lines does |
| `PolicyMeaning.ConditionNarrows` | crates/maxio-storage/src/policy.rs:265-269 | with a condition a statement allows what it allows without, where the condition holds, and nothing else |
| `PolicyMeaning.AddressLaw` | crates/maxio-storage/src/policy.rs:492-512 | a grant for address blocks reaches the callers whose address is known and in one of them |
| `PolicyMeaning.ClaimLaw` | crates/maxio-storage/src/policy.rs:530-542 | a grant for groups or roles reaches the callers with one of them |
| `PolicyMeaning.PrefixLaw` | crates/maxio-storage/src/policy.rs:492-528 | a grant for prefix patterns reaches the requests whose star-free prefix means one of them |
| `PolicyMeaning.UserLaw` | crates/maxio-storage/src/policy.rs:383-425 | a grant to one user reaches the caller with that access key and no other |
| `PolicyMeaning.AnonymousLaw` | crates/maxio-storage/src/policy.rs:383-392 | only a principal for everyone reaches a caller without credentials |
| `PolicyMeaning.V1DocumentIff` | crates/maxio-storage/src/policy.rs:93-159 | the v1 subset, written out |
| `Text.DecodeEncode` | crates/maxio-server/src/auth/signature_v4.rs:242-294 | percent-decoding undoes percent-encoding, for all bytes |
| `Text.EncodeInjective` | crates/maxio-server/src/auth/signature_v4.rs:242-294 | different strings encode differently |
| `Text.SplitJoin` | crates/maxio-server/src/auth/signature_v4.rs:260-294 | splitting a joined list of separator-free parts gives the parts |
| `Text.JoinSplit` | crates/maxio-server/src/auth/signature_v4.rs:260-294 | joining what was split gives the string |
| `Text.UnreservedIff` | crates/maxio-server/src/auth/signature_v4.rs:6-12 | letters, digits and `-._~` are left alone, and nothing else |
| `Text.HexValueIff` | crates/maxio-server/src/auth/signature_v4.rs:242-294 | hexadecimal digits of both cases and their values |
| `Text.HexDigitIs` | crates/maxio-server/src/auth/signature_v4.rs:242-294 | escapes are written in upper case |
| `Text.DecodeEscape` | crates/maxio-server/src/auth/signature_v4.rs:242-294 | a percent sign with two digits of either case is one byte |
| `Text.DecodeStray` | crates/maxio-server/src/auth/signature_v4.rs:242-294 | any other percent sign stands for itself |
| `Text.LeIff` | crates/maxio-server/src/auth/signature_v4.rs:282-282 | the order of strings: a prefix first, else the first difference decides |
| `Text.TrimIs` | crates/maxio-server/src/auth/signature_v4.rs:296-315 | trimming cuts off the blanks at both ends, all of them and nothing else |
| `Base.EqIgnoreCaseIff` | crates/maxio-server/src/auth/signature_v4.rs:102-111 | texts equal up to case have equal characters or the same letters |
| `Text.ParseU64Iff` | crates/maxio-server/src/auth/signature_v4.rs:152-152 | a text is read as a number iff it writes it in decimal, with leading zeros perhaps, after a plus sign perhaps |
| `CanonicalQuery.SortSorts` | crates/maxio-server/src/auth/signature_v4.rs:260-294 | the sorted parameters are in order and the same multiset |
| `CanonicalQuery.SortedUnique` | crates/maxio-server/src/auth/signature_v4.rs:260-294 | a multiset of parameters has one sorted order |
| `CanonicalQuery.RenderInjective` | crates/maxio-server/src/auth/signature_v4.rs:260-294 | different parameter lists never render to the same string |
| `CanonicalQuery.PairsOfRender` | crates/maxio-server/src/auth/signature_v4.rs:260-294 | parsing a rendered list gives the list back |
| `CanonicalQuery.SameCanonicalIff` | crates/maxio-server/src/auth/signature_v4.rs:260-294 | two queries have the same canonical form iff they have the same multiset of decoded pairs |
| `CanonicalQuery.CanonicalIdempotent` | crates/maxio-server/src/auth/signature_v4.rs:260-294 | a canonical query is its own canonical form |
| `CanonicalQuery.ParameterOrderIsIrrelevant` | crates/maxio-server/src/auth/signature_v4.rs:260-294 | permuting the parameters does not change the canonical form |
| `Presign.ParsePresignedQuery` | crates/maxio-server/src/auth/signature_v4.rs:113-175 | one pass over the parameters finds the last value of each name in any casing, and decides between the six errors as specified |
| `Presign.ParseOkIff` | crates/maxio-server/src/auth/signature_v4.rs:113-175 | a query is taken iff the last parameters of the six names, in any casing, are there and right: the algorithm, an expiry of at most 604800, a credential of five fields that is text; and what they say comes out |
| `Presign.ParseErrorIs` | crates/maxio-server/src/auth/signature_v4.rs:113-175 | which error a query meets, in the order of the tests |
| `Presign.SixNames` | crates/maxio-server/src/auth/signature_v4.rs:113-156 | the names, the algorithm and the limit, letter by letter |
| `Presign.HexIs` | crates/maxio-server/src/auth/signature_v4.rs:177-217 | signatures are two lower-case digits a byte |
| `Presign.CanonicalHeaders` | crates/maxio-server/src/auth/signature_v4.rs:296-315 | one line per signed header, in the order signed |
| `Presign.ConstantTimeEq` | crates/maxio-server/src/auth/signature_v4.rs:337-348 | accumulating byte differences decides equality, both ways |
| `Presign.VerifyPresignedSignature` | crates/maxio-server/src/auth/signature_v4.rs:177-217 | accepts iff the signature is that of the canonical request without the signature parameter; what that means is in `PresignBinding.AcceptedIs` and `SignatureBindsRequest` |
| `PresignProof.ParsesBack` | crates/maxio-server/src/api/console.rs:893-979 | the query of a presigned URL parses back to the credential, date, expiry and signature |
| `PresignProof.SameQuery` | crates/maxio-server/src/auth/signature_v4.rs:177-217 | the verifier's canonical query is the string the signer signed |
| `PresignProof.SamePath` | crates/maxio-server/src/auth/signature_v4.rs:242-258 | decoding and re-encoding the URL's path gives the path that was signed |
| `PresignProof.SameHeaders` | crates/maxio-server/src/auth/signature_v4.rs:296-315 | the canonical host header is the one that was signed |
| `PresignProof.PresignedUrlIsAccepted` | crates/maxio-server/src/api/console.rs:893-979 | for every bucket, key, host without surrounding blanks, and access key and region without slashes, the verifier accepts the URL with the same secret |
| `PresignProof.PresignThenVerify` | crates/maxio-server/src/auth/signature_v4.rs:113-217 | parsing and verifying a presigned URL succeeds and returns what was signed |
| `PresignBinding.SameUriIff` | crates/maxio-server/src/auth/signature_v4.rs:242-258 | two paths are signed alike iff they decode to the same segments |
| `PresignBinding.HeaderLinesInjective` | crates/maxio-server/src/auth/signature_v4.rs:296-315 | for the same names, the header lines are equal iff every signed value is |
| `PresignBinding.FilteredBag` | crates/maxio-server/src/auth/signature_v4.rs:188-193 | what is canonicalised is every parameter but those named like the signature, with multiplicities |
| `PresignBinding.AcceptedIs` | crates/maxio-server/src/auth/signature_v4.rs:177-335 | a request is accepted iff its signature is the result of five HMAC calls, written out: "AWS4" and the secret with the date, then region, service, terminator and the text to sign |
| `PresignBinding.ChainsEndAlikeIff` | crates/maxio-server/src/auth/signature_v4.rs:329-335 | two such chains end alike iff they are the same, or two of their calls collide with no later difference |
| `PresignBinding.StringInjective` | crates/maxio-server/src/auth/signature_v4.rs:317-327 | two strings to sign for one date and region are equal iff the timestamps and the digests of the canonical requests are |
| `PresignBinding.SameTextIff` | crates/maxio-server/src/auth/signature_v4.rs:177-204 | two canonical requests and timestamps are equal iff the requests mean the same: method, decoded path, decoded parameters but the signature, names and values of the signed headers |
| `PresignBinding.SignatureBindsRequest` | crates/maxio-server/src/auth/signature_v4.rs:177-335 | a request with the signature of an accepted one is accepted, under whatever secret, iff secret, date, region and meaning are the same, or only the canonical texts differ and collide under SHA-256, or two HMAC calls collide |
| `Versions.RuleFor` | crates/maxio-storage/src/filesystem/housekeeping.rs:150-156 | the chosen rule applies to the key, has the longest prefix of all that do, and there is one iff any applies |
| `Versions.NoncurrentDaysIff` | crates/maxio-storage/src/filesystem/housekeeping.rs:150-156 | the days that count are those of the last of the longest matching rules |
| `Versions.OldEnoughIff` | crates/maxio-storage/src/filesystem/housekeeping.rs:199-202 | for d > 0 days a version is old enough iff it is at least 86400 d seconds old; for none, iff it is less than a day ahead |
| `Versions.FirstIff` | crates/maxio-storage/src/filesystem/listing.rs:150-181 | in a listing an object version is first of its key iff no newer object version exists |
| `Versions.WrittenIsServedIff` | crates/maxio-storage/src/filesystem/object_io.rs:701-735 | what a put or restore writes is what a read serves iff it is chunked or no chunk directory with other bytes is at the top |
| `Versions.Store.PutVersion` | crates/maxio-storage/src/filesystem/object_io.rs:217-233 | the record, the metadata file, one of the two payloads and the index change; the key is in sync iff no chunk directory with other bytes hides the payload |
| `Versions.Store.WriteDeleteMarker` | crates/maxio-storage/src/filesystem/encryption_io.rs:340-384 | a newer marker hides the key, every older version is kept |
| `Versions.Store.UpdateCurrentVersion` | crates/maxio-storage/src/filesystem/encryption_io.rs:386-455 | metadata and payload of the newest object version are written over the top-level files, skipping markers, and the other payload stays; without an object version all go; without versions nothing changes |
| `Versions.Store.DeleteObjectVersion` | crates/maxio-storage/src/filesystem/encryption_io.rs:589-642 | exactly one record goes, or for the null version the top-level files, unless missing or locked, and the top level follows |
| `Versions.Store.ListObjectVersions` | crates/maxio-storage/src/filesystem/listing.rs:150-181 | collected in any order and sorted, every version is listed once, and every null version once for its plain file and once for its chunk directory, in ascending order of keys and newest first |
| `Versions.Store.SweepNoncurrent` | crates/maxio-storage/src/filesystem/housekeeping.rs:158-221 | over the listing it computes, exactly the superseded, expired and unlocked versions go, and their number is returned |
| `Versions.SweepKeepsNewest` | crates/maxio-storage/src/filesystem/housekeeping.rs:158-221 | the newest object version of a key and its newest entry, marker or not, outlive a sweep unchanged |
| `Versions.SweepRemovesIff` | crates/maxio-storage/src/filesystem/housekeeping.rs:150-221 | a version goes iff it is an object version, not locked, superseded by a newer one, has a timestamp and is as many full days of 86400 seconds old as the governing rule says |
| `Versions.SweepIsSafe` | crates/maxio-storage/src/filesystem/housekeeping.rs:150-221 | what supersedes a version that goes is still there, unchanged |
| `Versions.SweepIsInSyncIff` | crates/maxio-storage/src/filesystem/encryption_io.rs:386-455 | after a sweep a swept key is in sync iff its newest entry is not a marker and no chunk directory with other bytes hides it |
| `Versions.SweepResurrects` | crates/maxio-storage/src/filesystem/encryption_io.rs:386-455 | a key hidden by a marker is visible again after a sweep that touches it |
| `Versions.DeletedObjectComesBack` | crates/maxio-storage/src/filesystem/housekeeping.rs:158-221 | a history of two writes, a delete and a sweep after which the deleted object is visible |
| `Versions.SweepKeepsNullVersionIff` | crates/maxio-storage/src/filesystem/encryption_io.rs:386-455 | a sweep keeps a null version iff no stored version of the key is to go |
| `Versions.DeleteKeepsNullVersionIff` | crates/maxio-storage/src/filesystem/encryption_io.rs:589-642 | deleting a stored version keeps a null version iff it was the key's last entry |
| `Versions.NullDeleteIsInSyncIff` | crates/maxio-storage/src/filesystem/encryption_io.rs:597-610 | after deleting the null version the key is in sync iff the newest stored entry is an object, or only markers are stored |
| `Versions.NullVersionIsLost` | crates/maxio-storage/src/filesystem/housekeeping.rs:158-221 | a history of two versioned writes, an unversioned one and a sweep after which the last write is gone |
| `Versions.SweepLeavesOthers` | crates/maxio-storage/src/filesystem/housekeeping.rs:158-221 | a key without an expirable version that was in sync stays in sync |
| `Versions.RestoreIsRightIff` | crates/maxio-storage/src/filesystem/encryption_io.rs:386-455 | restoring the top level puts a key in sync iff its newest entry is an object that no chunk directory with other bytes hides, or only markers are left |
| `Versions.DeleteIsInSyncIff` | crates/maxio-storage/src/filesystem/encryption_io.rs:589-642 | deleting a version leaves the key in sync iff the newest entry left is an object that no chunk directory with other bytes hides, or only markers are left, or nothing is left and nothing was served |
| `Versions.DeletedBytesAreServed` | crates/maxio-storage/src/filesystem/encryption_io.rs:386-455 | a history of a plain version, a chunked one and the deletion of the second after which its bytes are served under the first's metadata |
| `Versions.IndexIsCurrentIff` | crates/maxio-storage/src/filesystem/object_io.rs:922-940 | for a key in sync whose last indexed write was version id, index and walk agree iff id is still the newest entry |
| `Versions.DeletedObjectStaysIndexed` | crates/maxio-storage/src/filesystem/encryption_io.rs:340-384 | a history of a write and a delete marker after which the walk does not find the key and the index lists it |
| `Publish.Disk.Rename` | crates/maxio-storage/src/filesystem/common.rs:323-334 | a rename moves the node, replaces only what it may, and touches no third path |
| `Publish.CanRenameIff` | crates/maxio-storage/src/filesystem/common.rs:323-334 | what a rename may replace: nothing, a file by a file, an empty directory by a directory |
| `Publish.Disk.BackupExisting` | crates/maxio-storage/src/filesystem/common.rs:340-347 | an error changes nothing; success leaves the path free and its old node, if any, at the backup |
| `Publish.Disk.RestoreBackup` | crates/maxio-storage/src/filesystem/common.rs:349-354 | whatever fails, the old node is at its path or its backup; if the rename works the path is as before |
| `Publish.SetAside` | crates/maxio-storage/src/filesystem/common.rs:319-320 | which of the three outcomes occurs, from files and failing calls alone, and the exact state after each; which old files were away at some moment |
| `Publish.MoveIn` | crates/maxio-storage/src/filesystem/common.rs:322-334 | the outcome from files and failing calls alone; both new nodes in place, or with a working way back both final paths as before |
| `Publish.CleanUp` | crates/maxio-storage/src/filesystem/common.rs:335-337 | only the backups go, and only when they are of the announced kind |
| `Publish.PublishPair` | crates/maxio-storage/src/filesystem/common.rs:305-338 | the outcome as a function of files and failing calls; with a working way back, all or nothing iff not: a payload set aside and the metadata not; before cleanup both old nodes still exist in every state; which of them are away at some moment |
| `Publish.CrashLosesIff` | crates/maxio-storage/src/filesystem/housekeeping.rs:249-285 | a stop at some state before cleanup and then the sweep of temporary names lose an old file iff it is away at some state and its backup is directly in the bucket |
| `Publish.SiblingIsLeftOverIff` | crates/maxio-storage/src/filesystem/common.rs:260-263 | housekeeping takes the temporary sibling of a path for a leftover of the bucket iff the path is directly in the bucket |
| `Publish.KeyDirectlyIn` | crates/maxio-storage/src/filesystem/mod.rs:426-451 | payload and metadata of a key are directly in the bucket iff the key has no slash |
| `Publish.FolderPaths` | crates/maxio-storage/src/filesystem/mod.rs:426-447 | the files of a key that ends in a slash are inside that directory |
| `Publish.PublishKey` | crates/maxio-storage/src/filesystem/common.rs:305-338 | a stop before cleanup and then housekeeping can lose the old payload iff it exists, is set aside and the key has no slash; and likewise the old metadata |
| `Publish.OverwriteCanLose` | crates/maxio-storage/src/filesystem/housekeeping.rs:249-285 | one overwrite of a plain key, no call failing, that can lose both old files |
| `Placement.PlaceShards` | crates/maxio-cluster/src/ec/mod.rs:16-36 | every shard is placed once, in index order, round robin |
| `Placement.HeldExactly` | crates/maxio-cluster/src/ec/mod.rs:16-36 | how many shards any set of nodes holds |
| `Placement.FairShare` | crates/maxio-cluster/src/ec/mod.rs:16-36 | each node gets the floor or the ceiling of its share, and which |
| `Placement.AnyNodesMayFailIff` | crates/maxio-cluster/src/ec/mod.rs:16-36 | any f nodes may fail iff f times the floor plus the smaller of f and the remainder is at most m |
| `Placement.CeilingBoundsLoss` | crates/maxio-cluster/src/ec/mod.rs:16-36 | f times the rounded-up share bounds that loss |
| `Placement.ReconstructShard` | crates/maxio-cluster/src/ec/mod.rs:140-176 | refuses bad parameters, indices out of range and fewer than k shards, and otherwise gives the code's answer on the padded shards |
| `Placement.GenuineRebuilds` | crates/maxio-cluster/src/ec/mod.rs:140-176 | from genuine shards the original shard comes back iff at least k different ones are present |
| `Placement.RebuildsAfterNodeFailures` | crates/maxio-cluster/src/ec/mod.rs:16-176 | after any tolerated set of node failures every shard is rebuilt to its original bytes |
| `Placement.OneParityShardDecides` | crates/maxio-cluster/src/ec/mod.rs:140-176 | codewords that agree on all data shards but one and on one parity shard are equal |
| `Placement.ParityFromDataIff` | crates/maxio-cluster/src/ec/mod.rs:140-176 | a parity shard made from data of which at most one shard is altered is original iff none is |
| `Bitrot.Scanner.VerifyShardChecksum` | crates/maxio-cluster/src/ec/bitrot.rs:79-90 | true iff the checksum file is absent, and then written, or equal |
| `Bitrot.Scanner.GatherShards` | crates/maxio-cluster/src/ec/bitrot.rs:112-154 | every readable shard but the skipped one, in placement order, own files before peers |
| `Bitrot.GatheredIff` | crates/maxio-cluster/src/ec/bitrot.rs:112-154 | a shard is gathered iff it is not the one to heal and is read from the own file of its owner, or else from a peer |
| `Bitrot.Scanner.HealLocalShard` | crates/maxio-cluster/src/ec/bitrot.rs:161-199 | writes the rebuilt bytes and their checksum, and exactly what is left behind by each failure |
| `Bitrot.Scanner.ScanShard` | crates/maxio-cluster/src/ec/bitrot.rs:211-285 | one shard: what happens to the disk and to the counters |
| `Bitrot.ScanIs` | crates/maxio-cluster/src/ec/bitrot.rs:211-285 | when a shard counts as unreadable, unverifiable, good, healed or failed, and what each leaves on disk |
| `Bitrot.Scanner.ScanPlacements` | crates/maxio-cluster/src/ec/bitrot.rs:202-287 | a pass is its steps in order; local shards = scanned + unreadable, corrupt = healed + failed heals, errors = unreadable + unverifiable + failed heals |
| `Bitrot.ScanKeepsClean` | crates/maxio-cluster/src/ec/bitrot.rs:202-287 | a step without error leaves its shard matching its checksum, and no step disturbs a matching shard |
| `Bitrot.PassLeavesClean` | crates/maxio-cluster/src/ec/bitrot.rs:202-287 | after a pass without errors every local shard matches its checksum |
| `Bitrot.SecondPassIsQuiet` | crates/maxio-cluster/src/ec/bitrot.rs:202-287 | a second pass on the unchanged disk finds no corruption and changes nothing |
| `Bitrot.HealGivesOriginal` | crates/maxio-cluster/src/ec/bitrot.rs:161-199 | a heal from genuine shards gives the original bytes iff at least k others can be read, here or from peers |
| `Bitrot.PassRestores` | crates/maxio-cluster/src/ec/bitrot.rs:202-287 | a pass over all objects without errors leaves every local shard of an object original, if at most one had rotted under its checksum |
| `Bitrot.HealTrustsWhatItReads` | crates/maxio-cluster/src/ec/bitrot.rs:112-199 | shards that agree on another codeword turn a heal into certified corruption |
| `Bitrot.HealedParityIff` | crates/maxio-cluster/src/ec/bitrot.rs:161-199 | a parity shard healed from exactly the data shards, at most one altered, is original iff none is |
| `Bitrot.AlteredDataSpreads` | crates/maxio-cluster/src/ec/bitrot.rs:112-199 | one data shard and its parity: an altered data shard on the peer makes the scan certify a wrong parity shard |
| `RateLimiter.SlidingWindowLimiter.TryAcquire` | crates/maxio-server/src/rate_limit.rs:34-64 | over every run the answers are those of a limiter that never evicts, and the table holds recent clients only |
| `RateLimiter.PruningIsHarmless` | crates/maxio-server/src/rate_limit.rs:43-43 | evicting stale buckets keeps the table equivalent to one that evicts nothing |
| `RateLimiter.WaitingHelps` | crates/maxio-server/src/rate_limit.rs:57-60 | a rejected client that waits as told is admitted, whatever others do meanwhile |
| `RateLimiter.QuotaIsGranted` | crates/maxio-server/src/rate_limit.rs:34-64 | a client with fewer requests than the quota in the last window is admitted |
| `RateLimiter.AccountedAlways` | crates/maxio-server/src/rate_limit.rs:34-64 | over every ordered run a bucket accounts for the admissions of an interval: its own count, plus what the windows before it can have let through |
| `RateLimiter.AtMost` | crates/maxio-server/src/rate_limit.rs:34-64 | in an interval of any length no client is admitted more than a quota for each window that fits, one more, and a quota less one if there is time left over |
| `RateLimiter.LateSeries` | crates/maxio-server/src/rate_limit.rs:50-55 | for every interval that is not a whole number of windows, a run that reaches that bound |
| `RateLimiter.FullSeries` | crates/maxio-server/src/rate_limit.rs:50-55 | for every interval that is a whole number of windows, one instant included, a run that reaches that bound |
| `RateLimiter.LimitHoldsIff` | crates/maxio-server/src/rate_limit.rs:34-64 | exactly which limits hold over all runs, for intervals of every length |
| `RateLimiter.MostInAWindow` | crates/maxio-server/src/rate_limit.rs:34-64 | the quota at one instant, twice the quota less one just short of a window, twice the quota in a closed window |
| `RateLimiter.SlidingWindowIff` | crates/maxio-server/src/rate_limit.rs:11-12 | the quota holds in every window that leaves out one of its bounds iff the quota is one |
| `RateLimiter.NoWindowNoLimitHolds` | crates/maxio-server/src/rate_limit.rs:50-53 | with a window of zero no limit holds |
| `Pagination.FindPattern` | crates/maxio-server/src/api/list.rs:280-280 | the first occurrence of the delimiter, or none anywhere |
| `Pagination.SplitByDelimiter` | crates/maxio-server/src/api/list.rs:269-314 | an object is listed iff the delimiter does not occur behind the prefix of its key, and else folded up to the end of the first occurrence; order is kept, and there are no more entries than objects on the page |
| `Pagination.ListObjectsV1` | crates/maxio-server/src/api/list.rs:210-267 | a page is the first max-keys objects after the marker; it is truncated iff there are more, and then the last of them is the key to go on from |
| `Pagination.ListObjectsV2` | crates/maxio-server/src/api/list.rs:134-208 | the same from the decoded token, or from `start-after` if there is none that decodes; a token handed back goes on where its page ended |
| `Pagination.NextPageContinues` | crates/maxio-server/src/api/list.rs:173-185 | the key handed out with a truncated page starts the next page right after it |
| `Pagination.PagesCoverListing` | crates/maxio-server/src/api/list.rs:134-267 | following the pages ends, gives every object once and in order, and all pages but the last are full |
| `Pagination.PagesListEverything` | crates/maxio-server/src/api/list.rs:134-314 | contents and common prefixes of the pages together are those of the whole listing |
| `Pagination.CanGoOnIff` | crates/maxio-server/src/api/list.rs:173-185 | every truncated page of every listing can be continued iff max-keys is not zero |
| `Pagination.RepeatedPrefixIff` | crates/maxio-server/src/api/list.rs:269-314 | a common prefix is reported on both sides of a page boundary iff both objects at the boundary fold into it |
| `MetadataIndex.EscapeLikePrefix` | crates/maxio-storage/src/metadata_index.rs:182-195 | the pattern matches a key iff it begins with the prefix, under every comparison of characters |
| `MetadataIndex.LikeIsBegins` | crates/maxio-storage/src/metadata_index.rs:182-195 | escaping makes `LIKE` a prefix test, whatever the prefix contains |
| `MetadataIndex.WildcardsAre` | crates/maxio-storage/src/metadata_index.rs:104-136 | in a pattern a percent sign is any run of characters, an underscore any one |
| `MetadataIndex.Index.Upsert` | crates/maxio-storage/src/metadata_index.rs:68-82 | the mirrored map gains the object, or loses the key of a delete marker |
| `MetadataIndex.Index.Remove` | crates/maxio-storage/src/metadata_index.rs:84-92 | the mirrored map loses exactly that key |
| `MetadataIndex.Index.RebuildBucket` | crates/maxio-storage/src/metadata_index.rs:150-171 | the bucket becomes the given objects without markers, or stays as it was iff two of them share a key; other buckets stay |
| `MetadataIndex.InsertAll` | crates/maxio-storage/src/metadata_index.rs:150-171 | the inserts succeed iff the live keys differ, and then hold exactly the live objects |
| `MetadataIndex.Index.List` | crates/maxio-storage/src/metadata_index.rs:104-136 | after any run, the strictly sorted filter of the mirrored map by prefix |
| `MetadataIndex.AscendingUnique` | crates/maxio-storage/src/filesystem/listing.rs:49-61 | there is one key-ordered list of a set of objects |
| `MetadataIndex.IndexIsWalkIff` | crates/maxio-storage/src/filesystem/listing.rs:38-61 | for an index that holds what the files hold, index and walk list the same iff no key matches the prefix only by the comparison of `LIKE` |
| `MetadataIndex.CaseFoldingShows` | crates/maxio-storage/src/metadata_index.rs:21-35 | a bucket in which they differ |
| `AwsChunked.DecodeBody` | crates/maxio-server/src/api/object.rs:1401-1429 | the loop consumes input in every turn and computes the decoding |
| `AwsChunked.SizeOfLine` | crates/maxio-server/src/api/object.rs:1413-1416 | the size of a line is that of its digits, with or without extension and line end |
| `AwsChunked.ParseHexIff` | crates/maxio-server/src/api/object.rs:1413-1416 | a size is hexadecimal digits, at least one, perhaps after a plus sign, that fit in 64 bits |
| `AwsChunked.NextDigit` | crates/maxio-server/src/api/object.rs:1413-1416 | one more digit, of either case, is sixteen times the number and the digit |
| `AwsChunked.FramedDecodes` | crates/maxio-server/src/api/object.rs:1401-1429 | a framed list of chunks decodes to its concatenation, whatever bytes the data contains |
| `AwsChunked.CutBodyDecodes` | crates/maxio-server/src/api/object.rs:1401-1429 | a framed body cut off at any byte is an error iff the cut is inside data or inside a size line past leading zeros, and else gives the complete chunks before it |
| `AwsChunked.MissingEndIsAccepted` | crates/maxio-server/src/api/object.rs:1404-1412 | a body that ends after any chunk, without the zero chunk, is accepted |
| `AwsChunked.AnyDataCanBeFramed` | crates/maxio-server/src/api/object.rs:1413-1416 | every non-empty piece of data has such a framing |

## Left out

- OpenRaft: elections, votes and transport; the model assumes one growing committed log and the call order OpenRaft keeps (`RaftStore.Allowed`, `RaftRuns.Enabled`).
- Files written by Raft apply: `created_at` is a local clock, so only the replicated data is modelled; file system calls in apply succeed.
- Internals of AES-GCM, SHA-256, HMAC, Reed-Solomon, base64, UTF-8, JSON, XML and SQLite: assumed as stated above.
- Integer widths: counters of bytes, frames and requests are unbounded, except where the code tests a width (frame index, expiry, chunk size); the limiter's `u32` count does not wrap.
- Publish.PublishPair: a failing call has no effect; half-done removals of directories and unsynced writes are not modelled.
- Publish.CrashLosesIff: a housekeeping removal that fails is not modelled.
- Publish.PublishKey: paths are compared as text, so a component `.` or an empty one in a key counts as a directory of its own.
- MetadataIndex.IndexIsWalkIff: one map stands for the index and the files; that versioned deletions change the files alone is stated in `Versions.IndexIsCurrentIff`.
- Versions.Store.ListObjectVersions: served bytes are the stored payload; that decryption under another version's metadata may fail is not modelled.
- Pagination.ListObjectsV2: a key with both a plain file and a chunk directory appears twice in the walk; the listing that is paged has each key once.
- Bitrot.Scanner.ScanPlacements: a checksum file is modelled by its digest, without the text form, and peers do not change during a pass.
- Bitrot.Scanner.GatherShards: what `nodes` or an HTTP peer returns for a shard is one map, fixed for the pass.
- Pagination.ListObjectsV1: common prefixes form a set; their order on the page is left out, and so is the response's XML.
- MetadataIndex.Index.List: keys are compared byte by byte, SQLite's limit on pattern lengths is not modelled, and the directory walk is modelled by its result.
- AwsChunked.DecodeBody: blanks around a size are the four ASCII ones; memory is unlimited.
- Versions.Store.SweepNoncurrent: version ids are numbers in the order of their strings, current objects are listed by the walk, and no other call comes in between.
- Current-object expiration, temporary-file and multipart housekeeping: each is one filter over a listing.
- Multipart uploads, copies, tagging, plain (unchunked) objects, key management and metadata authentication codes: no protocol across operations.
- Header-based signatures (`verify_signature`): they share the canonicalisation that is modelled.
- Policy validation (`validate_policy_v2`): a list of independent tests. Whether an address is in a block (`ip_matches_cidr`) is a parameter: parsing is library code, and the rest one comparison under a mask.
- `remove_bucket`, `count_bucket` and schema versions of the index: one statement each.
- HTTP routing, tenants, sessions, Keycloak, Redis, webhooks, logs, metrics, the web interface and the command line.
