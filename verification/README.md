# RedFS verification

A Dafny model of the parts of RedFS that carry the most state, branching and arithmetic, with proofs of what
they promise. `dafny verify dfyconfig.toml` checks everything.

## What is modelled

**The asynchronous read worker** (`src/api.cpp`). `Worker` is a state machine: one mutex, so each critical
section is one step; two condition variables, modelled by which threads are asleep; a queue, one worker thread,
the quiescing state, the per-depot cancel and the abort flag. Notifications, unlocked stores to the flag, reads,
segment decodes and callbacks are steps of their own, spurious wakeups are steps too, and callbacks may post,
drain, shut down or close depots. `WorkerInvariant` and `WorkerJobs` prove what every step keeps,
`WorkerTheorems` what follows over every run, `WorkerOrder` the order in which the queue is served,
`WorkerProgress` that everything comes to rest, `WorkerAbort` when the
abort flag moves, who owns it and what it bounds, and `WorkerLimits` the runs in which it is not isolated. A run is any sequence of enabled steps.
Three assumptions are guards of `Enabled`: at most one shutdown is in progress, a depot is closed once, and nobody
posts against a depot whose close has begun.

**Paths** (`src/paths.cpp`, `src/archive.cpp`). `Glob` is the iterative matcher against the recursive meaning of
a pattern. `PathText` is the normal form of paths and search patterns. `Arena` and `Dictionary` are the string
arena and the two-run index, as classes over arrays and fields; `PathSearch` is the search over them. `PathFile`,
`PathCache`, `PathCacheSafety` and `PathStore` are the path cache: its file, its behaviour over sequences of
process runs with crashes, failed writes and cut files, the proofs, and the object whose methods take exactly the
specified steps.

**The CR2W parser** (`src/cr2w.cpp`). `Cr2wTypes` reads type names, `Cr2wStream` measures and walks length
prefixes, property streams and nested arrays, each loop proved against a recursive specification. `Cr2wAgree`
proves that measuring and walking agree, `Cr2wEncode` and `Cr2wRoundTrip` that encoded values are read back,
`Cr2wLookup` decodes values and resolves dotted paths, and `Cr2wValues` says what encoded fields are read as.

**The mesh cache** (`src/cache.cpp`, `src/mesh.cpp`). `MeshRecord` and `MeshCodec` are one record and the loops
that write and read it, `MeshFile` the file, `MeshBuild` what `mesh_build` assembles and the bounds the cache
relies on, `MeshCache` the cache over sequences of process runs, `MeshCacheSafety` and
`MeshCacheDurability` its theorems and `MeshStore` the object. `FileLayout` gives the plain offsets of both cache
files.

**The depot** (`src/api.cpp`, `src/archive.cpp`, `src/formats.cpp`). `Depot` is the index rebuild and lookup,
`Parts` the segment arithmetic of part reads and stat, `Mips` the mip chain size and the search for a biased
header.

Three conventions run through all of it. Bytes are a newtype, C strings are NUL-free byte sequences. Hashes and
fingerprints are parameters, never computed. What the file system or foreign code answers (a failed write, a
decode error, the order in which a hash table yields its entries) is a parameter of the step.

## Results that differ from comments in the source

- `cancel_for` claims that the worker cannot pick up its next job and see a stale abort (`src/api.cpp:400-402`).
  It can: the worker may dequeue before the woken `cancel_for` takes the lock again. `WorkerLimits.StaleAbortIsPossible`
  is a run in which it happens for a read of any length; `WorkerAbort.AbortHasOwner` bounds when it can, and
  `WorkerAbort.NextReadCutIff` says exactly when it does.
- `cancel_for` claims that its wait is bounded by one segment decode (`src/api.cpp:374-376`). The bound holds from
  the raise until some step lowers the flag (`WorkerAbort.CloseWaitsOneDecode`), but another close, already woken, may
  lower it: `WorkerLimits.CloseMayOutwaitTheRead` is a run in which a read of any length is decoded whole meanwhile.
- In the same way a close can lower the flag that `stop` has raised (`src/api.cpp:331-333`), and any number of decodes
  then finish before the shutdown ends: `WorkerLimits.LateDecodesUnbounded`, against `WorkerTheorems.AtMostOneLateDecode`
  for every run in which no close leaves its wait.
- `stop` reopens before it lowers the flag (`src/api.cpp:359-363`), so a read accepted after the shutdown has cancelled
  everything can be cut short by it: `WorkerLimits.ReopenedReadIsCutShort`.
- The public header says that closing a depot inside a callback cannot cancel what is queued against it
  (`include/redfs.h:420-422`). The code purges the queue in that case too and only skips the wait;
  `WorkerTheorems.DeleteIsSafe` covers it.
- The divide-evenly guess of `classify_elements` is said to take a struct array essentially never
  (`src/cr2w.cpp:215-218`). It does when empty structs stand beside others and the total divides evenly; `Cr2wRoundTrip.StructArrayWalksIff` says exactly when.
- `fill_info` clamps a bad segment range where `resolve_part` rejects it, so a stat can count buffers that cannot
  be read; `Parts.BufferResolvesIff` says exactly when a counted buffer resolves.
- The rescale search can fit more than one shift once a reading has more than 32 levels; `Mips.ReadingsCollideIff` says
  exactly when two readings have the same size, `Mips.RecoversTheSurface` exactly when the search finds the surface
  that was written, and `Mips.TwoShiftsFit` is a collision.

## Model

| member | source | states |
|---|---|---|
| `WorkerTheorems.ExactlyOnce` | src/api.cpp:278-298 | In every reachable state each accepted job is in exactly one of the queue, the worker's hand, a caller's cancelled list or the log of fired callbacks, once; nothing else is anywhere; no callback fires twice |
| `WorkerTheorems.RefusedPostsNeverFire` | src/api.cpp:278-298 | A post is refused exactly when quiescing or when the thread it needs cannot be spawned, and then leaves the state untouched; any other post is accepted, queued last, and its wakeup is owed. That nothing unaccepted ever fires is ExactlyOnce |
| `WorkerTheorems.NoLostWakeup` | src/api.cpp:300-303 | Whoever sleeps although what it waits for, read off the queue and the worker, has come about is owed the notification by a thread that can step, and that step wakes it |
| `WorkerTheorems.DrainReturnsIff` | src/api.cpp:300-303 | A drain returns exactly when the queue is empty and the worker has nothing in hand, and then every accepted job has fired or is on the list of a call about to report it; otherwise it sleeps |
| `WorkerTheorems.ShutdownProceedsIff` | src/api.cpp:334-347 | A shutdown takes the thread exactly when the worker has nothing in hand, keeps the whole queue on its list, and otherwise sleeps |
| `WorkerTheorems.CloseWaitsIff` | src/api.cpp:386-404 | A close waits exactly when it runs off the worker and the worker has a job of its depot in hand, and takes exactly that depot's jobs off the queue |
| `WorkerTheorems.CloseLeavesIff` | src/api.cpp:399-404 | A waiting close goes on exactly when the worker has no job of its depot in hand |
| `WorkerOrder.OldestFirst` | src/api.cpp:424-433 | The worker takes the job accepted first of those queued, and nothing older is ever queued again |
| `WorkerTheorems.NeverWaitsOnItself` | src/api.cpp:305-326 | A call made on the worker thread is never asleep and never at a wait; drain and shutdown do nothing there |
| `WorkerTheorems.DeleteIsSafe` | src/api.cpp:377-412 | When a close reaches the delete no queued job names the depot and the worker is not reading it, also when the close runs in that depot's own callback |
| `WorkerTheorems.DeletedIsNeverRead` | src/api.cpp:699-705 | After the delete no continuation of the run ever queues or reads that depot |
| `WorkerTheorems.QuietUntilReopened` | src/api.cpp:328-365 | While quiescing the queue is empty; at the reopening there is no thread and every job ever accepted has fired, unless a concurrent close still holds it |
| `WorkerTheorems.AtMostOneLateDecode` | src/api.cpp:328-347 | In every run in which no close leaves its wait, at most one segment decode finishes between raising and lowering the flag, whatever was queued and whatever closes begin |
| `WorkerJobs.ReachableInv` | src/api.cpp:264-472 | The whole invariant holds in every reachable state of every interleaving |
| `WorkerInvariant.KeepsSafe` | src/api.cpp:419-457 | Every step keeps control, sleepers, depot safety and the abort bound |
| `WorkerProgress.AlwaysComesToRest` | src/api.cpp:300-365 | From any reachable state the internal steps number at most a measure of that state, and once none is left every call has returned and every accepted job has fired exactly once |
| `WorkerProgress.StuckIsSettled` | src/api.cpp:419-457 | A state with no internal step left has an empty queue, no waiting call and an idle or absent worker: drain, shutdown and close never sleep forever |
| `WorkerProgress.StepLowersMeasure` | src/api.cpp:419-457 | Every internal step lowers one measure |
| `WorkerLimits.StaleAbortIsPossible` | src/api.cpp:393-404 | A run, for a read of any length, in which the read of a depot nobody closes is cut short by the flag another depot's close raised |
| `WorkerLimits.WholeReadDecodesAll` | src/archive.cpp:289-306 | A read that nothing cuts short decodes each segment once and then reports |
| `WorkerLimits.FailureEndsRead` | src/api.cpp:436-447 | A sizing pass or decode that fails is reported at once |
| `WorkerLimits.LateDecodesUnbounded` | src/api.cpp:393-404 | For every n a run in which a close leaves its wait during a shutdown, clears the flag the shutdown raised, and n decodes finish before the shutdown ends |
| `WorkerLimits.CloseMayOutwaitTheRead` | src/api.cpp:374-404 | For every n a run in which one close clears the flag another has raised, and a read of n segments is decoded whole while the other close still waits |
| `WorkerLimits.ReopenedReadIsCutShort` | src/api.cpp:355-365 | A run in which a read accepted after a shutdown has reopened is cut short by the flag not yet lowered |
| `WorkerLimits.PurgeQueue` | src/api.cpp:388-395 | The erase loop takes exactly one depot's jobs off the queue and keeps both lists in order |
| `WorkerAbort.AbortHasOwner` | src/api.cpp:393-404 | Outside a shutdown the flag is up only on behalf of a close still at its wait: one of the depot being read, or one whose wait is already over |
| `WorkerAbort.FlagMoves` | src/api.cpp:328-404 | The flag rises exactly when a shutdown begins or a close finds its depot being read, and falls exactly when a shutdown ends or any close leaves its wait |
| `WorkerAbort.AtMostTheDecodeBegun` | src/archive.cpp:289-299 | Under a raised flag that nobody lowers, only the decode already begun finishes; a job taken meanwhile is not decoded at all |
| `WorkerAbort.CloseWaitsOneDecode` | src/api.cpp:374-404 | From the raise of a waiting close until some step lowers the flag, at most one decode finishes and the close keeps its wait and its list |
| `WorkerAbort.NextReadCutIff` | src/api.cpp:419-447 | The job the worker is about to take is reported undecoded exactly when the flag is up, whoever raised it and whatever depot the job names |
| `Glob.GlobMatch` | src/paths.cpp:375-396 | The matcher returns the recursive meaning of the pattern on every pattern and text, literal stars in the text included, in at most (pattern+1)*(text+1) turns |
| `Glob.DirectoryFindsItsEntries` | src/paths.cpp:430-435 | A wildcard-free directory followed by a separator and a star matches exactly the texts under it |
| `Glob.MatchesConcat` | src/paths.cpp:375-396 | A pattern in two parts matches exactly the texts that split into a match of each |
| `Glob.BelowDirectory` | src/paths.cpp:430-435 | Any pattern, wildcards included, followed by a separator and a star matches exactly the texts below a directory it matches |
| `Glob.LiteralFindsItself` | src/paths.cpp:375-396 | A pattern without wildcards matches exactly the text it spells |
| `PathText.SanitizePath` | src/archive.cpp:46-70 | The two trimming cursors and the copying loop compute the normal form |
| `PathText.FixedIffCanonical` | src/archive.cpp:46-70 | A path is its own normal form exactly when it is lower-case, single-separated and untrimmable |
| `PathText.SanitizeIdempotent` | src/paths.cpp:309-337 | Normalising twice is normalising once, so a path filed under its hash hashes back to its key |
| `PathText.SpellingsAgree` | src/archive.cpp:46-70 | Letter case and the kind of slash never change the normal form |
| `PathText.ComponentKept` | src/archive.cpp:57-68 | A part without separators is kept character by character, A to Z made small |
| `PathText.SanitizeJoins` | src/archive.cpp:57-68 | Two parts with any run of separators between them are normalised each for itself with one backslash between |
| `PathText.DirectorySearch` | src/paths.cpp:409-435 | A directory with a trailing separator and any trailing noise searches for exactly the entries under its normal form |
| `PathText.RefusedIffNoise` | src/paths.cpp:422-435 | A search is refused exactly when the pattern is nothing but noise; separators alone match everything |
| `PathText.SearchFindsWanted` | src/paths.cpp:409-435 | A search matches exactly the texts wanted: those the normal form of the pattern matches or, behind a trailing separator, those below a directory it matches |
| `PathText.OrdinarySearch` | src/paths.cpp:409-435 | An ordinary pattern with any trailing noise means its own normal form, wildcards included |
| `PathText.NoiseMattersIffTab` | src/paths.cpp:409-420 | Dropping noise before normalising changes the normal form exactly when the noise has a tab |
| `PathSearch.PathsFind` | src/paths.cpp:400-499 | The search reports, once each and in order of hash, exactly the paths on file that the pattern as typed wants and the depot holds, counts them all before delivering, refuses exactly noise, and tells an empty dictionary from no match |
| `PathSearch.SpelledPathIsOnlyHit` | src/paths.cpp:409-484 | A wildcard-free path on file, searched in any spelling and with trailing noise, is the only hit |
| `PathSearch.Deliver` | src/paths.cpp:497-499 | Deliveries are a prefix of the hits that ends early only where the callback says stop |
| `Arena.Arena.Intern` | src/paths.cpp:37-73 | Interning returns a pointer never returned before, moves no block, changes no string interned earlier, counts the bytes, and takes a new block exactly when the string does not fit the one being filled |
| `Arena.Arena.Read` | src/paths.cpp:37-73 | Any pointer ever returned reads the string it was returned for |
| `Dictionary.Dictionary.MergePending` | src/paths.cpp:93-117 | Merging the runs changes the representation and not the map |
| `Dictionary.Dictionary.Contains` | src/paths.cpp:119-127 | Binary search plus scan answer membership in the map |
| `Dictionary.Dictionary.Add` | src/paths.cpp:144-152 | First writer wins, over-long paths are ignored, and every pointer handed out earlier still reads the same string |
| `Dictionary.Dictionary.PathFromHash` | src/paths.cpp:339-348 | A lookup hits exactly the keys of the map and its pointer reads the path on file |
| `Dictionary.Dictionary.PathsCount` | src/paths.cpp:350-355 | The count is the size of the map |
| `Dictionary.MergeRuns` | src/paths.cpp:93-117 | Sorting the pending run, merging and deduplicating leaves a strictly sorted run with the same map |
| `PathFile.PrefixLoads` | src/paths.cpp:606-683 | Any prefix of a flushed file loads nothing, or all digests and a prefix of the paths that falls short of the declared count unless the file is whole |
| `PathCacheSafety.CoverageNeverOutrunsPaths` | src/paths.cpp:918-930 | Over any sequence of runs with adds, marks, flushes, failed writes and reads, crashes and cut files, a harvested digest has every path key known when it was marked |
| `PathCacheSafety.CutFileRestoresNoCoverage` | src/paths.cpp:696-745 | A file cut by even one byte restores a prefix of its paths and no coverage |
| `PathCacheSafety.NoOpFlushIsSound` | src/paths.cpp:776-793 | The early return is taken only when the image last flushed has every key and every digest, and the file is that image exactly when it has its length |
| `PathCacheSafety.FlushedCacheSurvives` | src/paths.cpp:776-861 | A flush that reports success, then a crash and a reopen, bring back every key and all coverage with nothing left to write, if and only if the file is as long as its image and below 2 GiB; it is that long unless it was cut behind an up-to-date cache |
| `PathCacheSafety.ClosedCacheSurvives` | src/paths.cpp:687-694 | Closing a cache, or opening another in its place, keeps what it holds exactly as a flush does |
| `PathCacheSafety.ClosingKeepsPaths` | src/paths.cpp:863-889 | A close forgets the coverage and no path; an open forgets no path either |
| `PathCacheSafety.FlushSettles` | src/paths.cpp:791-793 | After a successful flush the counts are those of memory and the next flush takes the early return |
| `PathCacheSafety.FlushedInOrder` | src/paths.cpp:776-820 | A flush writes the digests ascending and the paths in the order of their keys |
| `PathCacheSafety.FailuresChangeNothing` | src/paths.cpp:776-861 | A failed write or read, and a flush of a closed cache, change nothing |
| `PathCacheSafety.MarkSurvives` | src/paths.cpp:918-930 | A mark, flushed to a whole file, is back after a crash and a reopen with every path known when it was made; a new mark always makes a whole file |
| `PathCacheSafety.FaithfulIff` | src/paths.cpp:719-744 | A load into an empty dictionary is trusted exactly when every declared record was read, each has 1 to 1024 bytes, and no two share a key |
| `PathCacheSafety.StepKeepsInv` | src/paths.cpp:687-930 | Every step keeps the files prefixes of covered images and the bookkeeping true to the file |
| `PathCache.InsertIsFirstWriter` | src/paths.cpp:144-152 | The cache's sorted dictionary makes the same map update the dictionary's Add makes |
| `PathStore.BuildImage` | src/paths.cpp:776-820 | The loops of a flush write exactly the specified file |
| `PathStore.LoadRecords` | src/paths.cpp:640-683 | The record loop stops at the first record that does not fit and interns the rest first writer first |
| `PathStore.PathStore.AddPath` | src/paths.cpp:309-316 | Adding a usable path makes exactly the specified first-writer step; empty and over-long ones change nothing; a store that stands in a run of the specification stays in it |
| `PathStore.PathStore.FlushCache` | src/paths.cpp:776-861 | A flush takes exactly the specified step and reports failure only for a failed write |
| `PathStore.PathStore.OpenCache` | src/paths.cpp:687-774 | An open flushes, resets, loads and judges the file exactly as specified |
| `PathStore.PathStore.CloseCache` | src/paths.cpp:863-889 | A close takes exactly the specified step: the final write, then the reset, with the dictionary kept |
| `PathStore.PathStore.MarkHarvested` | src/paths.cpp:918-930 | A mark on an open cache adds its digest to the coverage, notes the paths known, and changes nothing else; on a closed one it is refused |
| `PathStore.PathStore.PendingArchives` | src/paths.cpp:891-916 | The total counts every unharvested archive and the indices are as many of the first as there is room for; every archive not pending has all the paths known at its harvest in the dictionary |
| `PathStore.PathStore.AddSpelled` | src/paths.cpp:309-316 | A path is filed in its normal form |
| `PathStore.SpellingsShareAKey` | src/paths.cpp:309-337 | A path added in one spelling is filed under the key of every other spelling |
| `PathStore.MarkedIsNotPending` | src/paths.cpp:891-930 | Once marked and flushed to a whole file, an archive is not pending after a crash and a reopen |
| `PathStore.PendingExactly` | src/paths.cpp:907-914 | An index is pending exactly when its archive is not harvested, and the indices ascend |
| `Cr2wTypes.SpellingsAgree` | src/cr2w.cpp:167-183 | The three spellings all name arrays, of the same element type |
| `Cr2wStream.ReadVlqLoop` | src/cr2w.cpp:49-63 | The octet loop computes the specified signed length with 32-bit truncation and stays within the buffer |
| `Cr2wStream.StructEndLoop` | src/cr2w.cpp:138-159 | The terminator search computes the specified end, always advancing |
| `Cr2wStream.ArrayEndLoop` | src/cr2w.cpp:237-258 | The recursive element loop computes the specified end under the depth cap |
| `Cr2wStream.WalkArrayLoop` | src/cr2w.cpp:284-321 | The walk visits exactly the specified slices and fails exactly where specified |
| `Cr2wStream.AdvanceNeverWraps` | src/cr2w.cpp:83-99 | The 32-bit sum 8 + payload never wraps once its check has passed |
| `Cr2wAgree.StructAgrees` | src/cr2w.cpp:83-159 | When struct_end returns e, PropWalker up to e yields exactly the properties it stepped over and stops at the terminator at e-2 |
| `Cr2wAgree.ArrayNarrows` | src/cr2w.cpp:237-258 | A measured array measures the same under any smaller limit that still holds it and any smaller depth |
| `Cr2wAgree.MeasuringAgreesWithWalking` | src/cr2w.cpp:237-321 | What array_end measures, the walk visits: at every level the declared count, in contiguous nonempty slices to the same end, every string slice decoding in full |
| `Cr2wAgree.WalkOkIff` | src/cr2w.cpp:284-321 | A walk succeeds exactly when there was room for the count and it reached the declared number; in any case its slices are nonempty and contiguous from behind the count |
| `Cr2wEncode.VlqReads` | src/cr2w.cpp:49-63 | Every encodable length prefix reads back to itself |
| `Cr2wEncode.TextRoundTrip` | src/cr2w.cpp:374-412 | Encoded text decodes to its characters, other than ASCII as question marks in UTF-16 |
| `Cr2wEncode.StructRoundTrip` | src/cr2w.cpp:83-99 | Walking an encoded struct gives back exactly its properties |
| `Cr2wEncode.PropsAtHold` | src/cr2w.cpp:83-99 | Each property walked has the encoded name, type and payload |
| `Cr2wRoundTrip.MeasurableReads` | src/cr2w.cpp:198-258 | array_end and cstring_end measure every encoded nested value exactly |
| `Cr2wRoundTrip.ArrayRoundTrip` | src/cr2w.cpp:284-321 | Walking an encoded array of structs with a property, enums, fixed-width values, text or measurable arrays gives back exactly its elements in order |
| `Cr2wRoundTrip.GuessSparesStructs` | src/cr2w.cpp:260-280 | The divide-evenly guess never takes an array of structs that each have a property |
| `Cr2wRoundTrip.StructArrayWalksIff` | src/cr2w.cpp:260-321 | An array of any structs walks to exactly its elements if and only if the guess does not fire on it or its elements are equally long |
| `Cr2wRoundTrip.MixedStructsAreMisread` | src/cr2w.cpp:260-280 | A concrete array in the failing family |
| `Cr2wLookup.NullDeferredBufferIsRaw` | src/cr2w.cpp:413-426 | A null deferred buffer never decodes to a part number, in whatever case its type is spelled |
| `Cr2wLookup.NullDataBufferIsRaw` | src/cr2w.cpp:427-433 | A null data buffer never decodes to a part number |
| `Cr2wLookup.DescendLoop` | src/cr2w.cpp:464-477 | The property loop finds the first property of the name and decodes it by its own type |
| `Cr2wLookup.GetInLoop` | src/cr2w.cpp:480-501 | The path loop computes the recursive resolution with its three errors |
| `Cr2wLookup.ResolveWithin` | src/cr2w.cpp:480-501 | A value found lies inside the struct it was found in |
| `Cr2wLookup.PathsCompose` | src/cr2w.cpp:480-501 | Resolving p.q is resolving q inside what p resolves to, errors included |
| `Cr2wValues.FieldFound` | src/cr2w.cpp:464-501 | In an encoded struct a dot-free name finds the first field that has it, with the field's type and payload, and nothing exactly when no field has it |
| `Cr2wValues.ScalarReads` | src/cr2w.cpp:323-462 | Booleans, signed and unsigned integers, names, handles, both kinds of buffers, array counts and enums are each read as their own kind and as the number encoded |
| `Cr2wValues.ScalarFieldReads` | src/cr2w.cpp:464-501 | A scalar field of an encoded struct is read by name as the kind and number encoded |
| `Cr2wValues.StructFieldReads` | src/cr2w.cpp:456-458 | A struct field is read as a struct with the encoded bytes |
| `Cr2wValues.TextFieldReads` | src/cr2w.cpp:373-412 | A text field is read as a string with the text encoded |
| `Cr2wValues.UnknownIsGuessed` | src/cr2w.cpp:452-458 | A value of an unknown type is a name at two bytes, a struct at three or more with a zero in front, and raw otherwise |
| `Cr2wValues.RefusedPaths` | src/cr2w.cpp:480-501 | A value that is no struct and a path with an empty segment are refused; an empty path is the value itself |
| `Cr2wValues.WidthsAgree` | src/cr2w.cpp:114-134 | The width a walk gives a scalar type is the length of its payload |
| `MeshRecord.RecordReads` | src/cache.cpp:78-202 | A record reads back to the mesh written, wherever it stands and whatever follows; no guard rejects it and the next record starts where it ends |
| `MeshRecord.RepairsNothingIff` | src/cache.cpp:171-199 | The level clamp and the material truncation change nothing exactly on meshes with 1-based levels and no more materials than chunks |
| `MeshRecord.CutRecordIsShort` | src/cache.cpp:156-202 | A record cut anywhere is refused |
| `MeshCodec.Serialize` | src/cache.cpp:78-101 | The writing loops append exactly the specified record |
| `MeshCodec.Deserialize` | src/cache.cpp:156-202 | The reading loops accept exactly the specified records and return the specified mesh, though a failed read is only noticed later |
| `MeshFile.CutFileLoads` | src/cache.cpp:214-257 | Any prefix of a flushed file loads nothing, is told apart by its fingerprint, or restores a prefix of its meshes that falls short of the declared count unless the file is whole |
| `MeshFile.WholeFileLoads` | src/cache.cpp:214-257 | Saving then loading restores every mesh |
| `FileLayout.PathCacheLayout` | src/paths.cpp:519-530 | The path cache file holds magic, version and the two counts in 16 bytes, then the digests, then the paths behind their lengths |
| `FileLayout.PathCacheLoadsIff` | src/paths.cpp:606-650 | The path cache loads exactly files with its magic and version, short enough for ftell, with room for the digests they announce |
| `FileLayout.RecordLayout` | src/cache.cpp:78-101 | A mesh record holds its fields in a fixed order, the chunks in twelve words each |
| `FileLayout.MeshCacheLayout` | src/cache.cpp:372-380 | The mesh cache file holds magic, version, fingerprint and count in 24 bytes |
| `FileLayout.MeshCacheLoadsIff` | src/cache.cpp:214-243 | The mesh cache loads exactly files with its magic, version and the fingerprint asked for, short enough for ftell |
| `MeshBuild.LowestLod` | src/mesh.cpp:70-78 | The shift loop computes the specified level |
| `MeshBuild.LodIsLowestBit` | src/mesh.cpp:68-78 | That level is the position of the lowest set bit, at most the width of the mask |
| `MeshBuild.ChunksAreElements` | src/mesh.cpp:87-109 | The chunks are the struct elements, each once and in order, each with its own position, counts, mask, offsets and level, and the box swept for it |
| `MeshBuild.LodCountBounds` | src/mesh.cpp:318-336 | The level count bounds every level a caller can see and is no larger than it must be |
| `MeshBuild.GatherAppearances` | src/mesh.cpp:140-178 | The gathering callbacks compute the budgeted appearances |
| `MeshBuild.BudgetIsConserved` | src/mesh.cpp:124-178 | Names kept and budget left add up to the budget; no appearance names more materials than there are chunks |
| `MeshBuild.UncutIff` | src/mesh.cpp:147-178 | The budget cuts nothing exactly when the document stays within it |
| `MeshBuild.GatherIsGreedy` | src/mesh.cpp:140-178 | What is kept are the first appearances, all whole but the last, and whatever is cut or left out has used the budget up |
| `MeshBuild.BuiltSurvivesStorage` | src/mesh.cpp:252-336 | Every mesh that is built can be stored, names at most 2^20 materials, and comes back from the file unrepaired |
| `MeshCacheSafety.AcquireMatchesBuild` | src/cache.cpp:448-489 | Over every sequence of opens, mounts, acquires, flushes, closes, crashes and cut files, acquiring a mesh shows a caller what building it would, errors included |
| `MeshCacheSafety.EntriesNameTheirArchives` | src/cache.cpp:491-511 | Every entry in memory, and everything any file will restore, was built from the archives its fingerprint names |
| `MeshCacheSafety.FlushedCacheSurvives` | src/cache.cpp:363-425 | A successful flush, a restart and an open on the same archives bring back every entry as callers saw it |
| `MeshCacheSafety.StepKeepsInv` | src/cache.cpp:324-511 | Every step keeps memory and files true to their fingerprints |
| `MeshCacheDurability.AcquiredIsKept` | src/cache.cpp:448-489 | A mesh acquired through its depot's cache is in memory afterwards, every other entry stays, and a new one is known to be unwritten |
| `MeshCacheDurability.AcquiredSurvives` | src/cache.cpp:363-489 | Acquired, flushed and restarted, the mesh is there without building it |
| `MeshCacheDurability.FlushSurvives` | src/cache.cpp:363-425 | After a successful flush and a restart every entry is back if the file is whole and below 2 GiB, and none if it is longer; anything new makes the file whole |
| `MeshCacheDurability.CloseSurvives` | src/cache.cpp:427-434 | A close keeps the entries as a flush does |
| `MeshCacheDurability.StepKeepsClean` | src/cache.cpp:324-511 | A cache with nothing to write holds only meshes of the image last flushed to its file, under one fingerprint |
| `MeshCacheDurability.MountDropsIff` | src/cache.cpp:491-511 | Mounting drops the cache exactly when it belongs to the depot and the fingerprint of its archives changes |
| `MeshCacheDurability.FailuresChangeNothing` | src/cache.cpp:363-425 | A failed write changes nothing and a failed read opens an empty cache |
| `MeshCacheDurability.LastRecordWins` | src/cache.cpp:244-256 | Of several records of one hash the last is the entry |
| `MeshStore.LoadEntries` | src/cache.cpp:244-256 | The load loop stops at the first record that does not read whole |
| `MeshStore.BuildFile` | src/cache.cpp:372-380 | The flush loop writes exactly the specified file |
| `MeshStore.MeshStore.Acquire` | src/cache.cpp:448-489 | An acquire takes the specified step and returns the specified result; on a store that stands in a run of the specification that result shows a caller what building would |
| `MeshStore.MeshStore.Invalidate` | src/cache.cpp:491-511 | The cache of a depot whose archives changed is emptied and relabelled, and no other |
| `MeshStore.MeshStore.Mount` | src/api.cpp:645-659 | Mounting extends the archives and invalidates in one step |
| `MeshStore.MeshStore.OpenCache` | src/cache.cpp:324-341 | An open takes exactly the specified step |
| `MeshStore.MeshStore.FlushCache` | src/cache.cpp:363-425 | A flush takes exactly the specified step and fails only for a failed write |
| `MeshStore.MeshStore.CloseCache` | src/cache.cpp:427-434 | A close flushes, empties and disowns |
| `Depot.Depot.Reindex` | src/api.cpp:225-252 | Collecting, stable sorting and compacting in place compute the index |
| `Depot.Depot.Compact` | src/api.cpp:243-251 | The in-place loop keeps the last of each run |
| `Depot.Depot.Mount` | src/api.cpp:645-690 | Mounting appends the archives and rebuilds the index |
| `Depot.SortIsStable` | src/api.cpp:236-241 | The sort is sorted and keeps mount order within a hash |
| `Depot.LastMountWins` | src/archive.cpp:218-231 | The index is strictly increasing and a lookup finds the last entry of the last archive that holds the hash, and misses exactly when none does |
| `Depot.MountIsOverride` | src/api.cpp:225-252 | Mounting more archives is exactly override of the old view by theirs |
| `Parts.PartOfLastMount` | src/archive.cpp:235-254 | A part is not found exactly when no archive holds the hash; otherwise it is resolved in the last archive that does |
| `Parts.ResolveStaysInside` | src/archive.cpp:255-275 | No part number, however large, names a segment outside its own file |
| `Parts.BufferResolvesIff` | src/archive.cpp:262-275 | A buffer resolves exactly when a stat counts it and the entry's range ends within the table; a bad range is corrupt and a buffer past the last is out of range |
| `Parts.WholeResolvesIff` | src/archive.cpp:241-261 | The main part and everything resolve exactly for entries whose range is nonempty and within the table |
| `Parts.PartNumbers` | src/archive.cpp:241-275 | On a sound range the part numbers name all segments, the first, or the one so many behind it |
| `Parts.StatAddsUp` | src/api.cpp:478-506 | A stat counts the existing segments but the main one as buffers and adds up their sizes and, apart from that, their compressed sizes |
| `Parts.StatOverstatesBadRange` | src/api.cpp:478-500 | A concrete entry whose counted buffer does not resolve |
| `Parts.FillInfo` | src/api.cpp:478-506 | The clamped loop computes the specified counts and totals |
| `Parts.ReadPart` | src/archive.cpp:278-306 | A read gives all of the part, in order, or its first failure; it is cancelled exactly at the first segment at which the flag is seen, unless one before it has failed; too small a buffer is refused before anything is copied |
| `Parts.AllIsMainThenBuffers` | src/archive.cpp:255-306 | Everything is the main part followed by every buffer a stat counts, as many bytes as the stat says |
| `Mips.MipChainBytes` | src/formats.cpp:103-123 | The level loop computes the wrapped sum of at most 32 levels, and in plain numbers: for every slice the blocks or pixel bytes of each halved surface times its own halved depth |
| `Mips.ChainIsSurfaces` | src/formats.cpp:77-123 | For all extents that do not wrap, the size is the slices times the sum over the levels of ceil(w/4)*ceil(h/4) blocks or w*h pixels in bytes, times the level's depth, cut to 64 bits |
| `Mips.Rescale` | src/formats.cpp:323-350 | The search returns the first shift that fits, or the header |
| `Mips.ChainGrows` | src/formats.cpp:323-350 | Within 64 bits and 32 levels the chain strictly grows with the bias, so no two readings have the same size |
| `Mips.ReadingsCollideIff` | src/formats.cpp:323-350 | Within 64 bits more bias is never a smaller chain, and two readings have the same size exactly when the smaller one already has 32 levels and the larger one's top level takes no more than a single pixel's |
| `Mips.RecoversTheSurface` | src/formats.cpp:323-350 | A payload that is the chain of the header's surface at some bias is read as exactly that surface if and only if the bias is zero, the reading has at most 32 levels, or its top level takes more than a single pixel's |
| `Mips.AnswerFits` | src/formats.cpp:328-350 | Whatever the payload, the answer is the header or a biased reading of the payload's size, with extents that fit 32 bits and are never zero; it has the payload's size exactly when some reading within four levels and 32 bits does |
| `Mips.GrowsIff` | src/formats.cpp:103-123 | One more level of bias is never a smaller chain, and a larger one exactly when the levels stay within 32 or the new top level takes more than one pixel's level; any number of levels |
| `Mips.TwoShiftsFit` | src/formats.cpp:323-350 | A concrete collision past 32 levels |

## Left out

- The worker is a state machine on values and not a class: its methods are interleavings of critical sections, so each section is one step and there is no single method call to specify. Aliasing of jobs and the lifetime of `std::thread` handles are not captured.
- WorkerTheorems.AtMostOneLateDecode: assumes that no close leaves its wait in the run; one that does clears the flag, and `WorkerLimits.LateDecodesUnbounded` shows the bound failing.
- WorkerAbort.CloseWaitsOneDecode: holds until some step lowers the flag; `WorkerLimits.CloseMayOutwaitTheRead` shows it failing when another close does.
- Calls nested in cancellation callbacks may post, drain, shut down and close; a callback that blocks forever on its own is not modelled.
- The status and data a completion callback receives: a job fires, and `Decodes` counts what was decoded for it; which status it is told is not recorded.
- Nested misuse that the worker does not detect: two shutdowns at once, and posts against a depot after its close has begun. Depot safety is false without the second assumption.
- `PathStore` keeps its dictionary as the sorted sequence that merging leaves, not as the `Dictionary` object; `PathCache.InsertIsFirstWriter` says that both make the same map update.
- Dictionaries, coverage sets and mesh tables hold fewer than 2^32 entries, the width of the counts in their files.
- The sibling file and the rename of a flush: a file is replaced whole or not at all.
- FNV arithmetic and collisions: keys and fingerprints are parameters. Equal fingerprints are assumed to mean archives that give equal meshes.
- A depot address is not handed out again while the mesh cache remembers it, and a depot is not used after its close.
- The mesh cache's second lookup under the lock in `mesh_acquire`, which only concurrent cache calls could reach; the API rules them out.
- Path lists (`paths_load`, `read_list`) and import learning: they reach the dictionary through the same Add.
- Callbacks that stop a CR2W array walk early; string and float payloads of decoded values other than text; the per-handle string cache; the CR2W header and chunk tables.
- Floating-point bounds (`compute_bounds`): box values are opaque words, and the sweep's outcome per chunk is an input of `MeshBuild.Built`.
- Meshes whose counts or name lengths reach 2^32: a segment's size is a 32-bit number, so no document holds them; `MeshBuild.Sized` says so.
- Kraken decoding, archive opening, memory mapping, directory scanning and install detection: an archive is its tables and its bytes, decoding a segment is a function that fails or fills the segment's size.
- `redfs_enumerate`, the C ABI guards, logging, error strings, DDS headers, DXGI tables beyond the sizes, audio parsing, the C++ facade and the command-line tools: table lookups or wrappers.
- Segment descriptors that change between the sizing and the copying pass of a read: the mapping is taken as fixed, so the second bound check of `read_part` never fires.
