# Verified model of the tracer's algorithms

xnu-trace records every instruction a macOS process executes. Most of it talks to
the kernel; this project models the self-contained algorithms underneath and proves
what they promise.

- **Substring search** (`CriticalFactorization`, `MaximalSuffix`, `TwoWay`): the
  Two-Way search with its last-byte shift table. The proof goes through the critical
  factorization theorem. The index `ip`, which the source starts at `size_t(-1)`, is
  kept as `ip + 1`.
- **Minimal perfect hash and its maps** (`Permutation`, `PerfectHash`, `PairedKeys`,
  `PerfectMap`): bucket-and-salt construction, the growing map that permutes its
  entries in place, and the map that is filled once. The hasher is an arbitrary
  function of key and seed. The salt search stops after a given number of attempts
  where the source aborts on a timeout.
- **Trace-log codec** (`HeaderBits`, `ChangedMask`, `LogFormat`, `TraceFrames`,
  `MessageBytes`, `TraceWriter`, `TraceReader`, `TraceTheorems`, `ReplayedPcs`,
  `ThreadLogs`): the byte format of delta messages and sync frames, down to the
  digits of every word, the writer, the readers, the theorems about whole runs, and
  the log of several threads through the growing map.
- **Packed bit vectors** (`BitWords`, `BitVector`, `SplitBitVector`): n-bit elements
  in words of 8 to 64 bits, read and written through a double word or through one or
  two single words. Words are bit strings, least significant bit first.
- **Common ground** (`Machine`, `WordCount`): bytes, 64-bit words, multiples, and
  counting with wrap-around.
- **Smaller parts**: the page index of the traced process (`PageIndex`), the counter
  that a thread waits on for pool tasks (`TaskWait`), basic blocks of a pc trace
  (`BasicBlocks`), and the subregion coalescer of the Python package (`Subregions`).

Objects that the source updates in place are classes, proved against pure functions
of their old state. The waiting protocol is a state machine over the steps of its
threads, with a run as any sequence of enabled steps.

## What the proofs found

Properties one would expect that the code does not have, each with the exact
condition under which it does:

- `mph_map::permute` gathers (`new[j] = old[p[j]]`) although `rebuild` hands it the
  slot each entry should go to. Lookups work again after a rebuild if and only if
  the slot numbering is its own inverse (`InPlaceIffInvolution`); `RotationLosesKeys`
  and `RotationHappens` are three keys for which it is not. A later insertion of such
  a lost key aborts on the duplicate-key assertion (`MphMap.TryEmplace`).
- `operator[]` and `try_emplace` then also return a reference to the value of another
  key, unless the new key's slot and position are exchanged (`InsertedSlotHolds`).
  `TraceLog::log` writes through that reference (TraceLog.cpp:341-350). Every thread's
  buffer is the log of its own contexts if and only if each insertion of a thread
  exchanged slot and position (`LogRun`), as with one or two threads. `ThreeThreads` is
  a run of three that spoils the log.
- `MinimalPerfectHash` keeps salts of empty buckets from earlier builds. After a build
  all salts name slots in the table, so that any key is looked up in range, if and
  only if those leftovers do (`InRangeAfterBuildIff`, `KeyInRangeIff`), as is the case
  when the number of keys never falls. `ShrinkingBuildCanEscape` is a smaller rebuild
  after which a non-member maps outside the table.
- A `set` on a bit vector does not mask its value: bits beyond the field are or-ed into
  later elements, which stay exactly if they have those bits already
  (`DoubleWordVector.Set`, `SplitWordVector.Set`). For a negative value of a signed
  vector these are all bits of the double word (`NegativeSetKeepsLaterIff`, with
  `NegativeSetOverwrites` as an example; `OversizedSetOverwrites` is one without a
  sign). Filling in ascending order is safe
  (`FillAscending`).
- The split-word vector asks for a mask of no bits exactly when an element ends on a
  word boundary (`ZeroWidthMaskIff`). For words of 32 and 64 bits that is undefined.
  Words of 8 and 16 bits are promoted to `int` and serve such an element correctly,
  as long as the word behind it is in the buffer.
- Extracted pcs repeat the first one, because the walk starts on the first sync frame
  (`ExtractedPcs`).
- Replaying contexts leaves pc behind on straight-line code: it is the pc of the last
  step that was not to the next instruction, and right only there and at multiples of
  2^62 steps after it (`ReplayedPc`). The flags never move (`ReplayedContexts`).
- `extract_bbs_from_pc_trace` drops a final run of length one, and also every full
  2^30 pcs of a straight run, whose 32-bit size wraps around: it drops that final pc
  and nothing else if and only if all runs are shorter (`ExtractBbs`,
  `StraightRunFitsIff`).
- `create_hash` aborts over a duplicate page if and only if two ordinary regions
  overlap (`MachORegions.CreateHash`).
- `subregions_for_sorted_pcs` returns nothing exactly when all pcs form one stretch
  that starts in the subregion at address zero. The repository's check rejects that
  result (`StretchFromZeroIsDropped`) and also a correct one whose last region ends at
  2^64 (`TopRegionIsRejected`), and accepts all others (`CheckAcceptsIff`).

The list annotation of `subregions_for_sorted_pcs` says that a size has 32 bits; the
code computes with 64-bit words and never narrows, and the model follows the code.

## Model

| member | source | states |
|---|---|---|
| `TwoWay.Memmem` | lib/xnu-trace/utils.cpp:304-325 | for every haystack and needle the result is the leftmost occurrence, or none exactly when the needle does not occur; every byte read is in bounds, and the search makes at most 3 haystack lengths plus 7 needle lengths plus 2 byte comparisons and table look-ups |
| `TwoWay.Twoway` | lib/xnu-trace/utils.cpp:198-302 | the same for the search proper, with its byte set, shift table, two-sided comparison and memory; the memory keeps the comparisons linear |
| `TwoWay.MatchRight` | lib/xnu-trace/utils.cpp:286-288 | the comparison of the right half stops at its first mismatch, after as many comparisons as it moved and one more |
| `TwoWay.MatchLeft` | lib/xnu-trace/utils.cpp:294-298 | the comparison of the left half stops at its last mismatch above the memory, or reaches the memory |
| `CriticalFactorization.LaterMaximalSuffixIsCritical` | lib/xnu-trace/utils.cpp:251-254 | critical factorization theorem: the later start of the two maximal suffixes is a position where every local repetition is a period of the whole needle and longer than the part before it |
| `CriticalFactorization.RepetitionOverflowsLeft` | lib/xnu-trace/utils.cpp:228-254 | at the start of a maximal suffix no repetition fits in the part before it |
| `CriticalFactorization.RepetitionIsPeriod` | lib/xnu-trace/utils.cpp:251-254 | at the later of the two starts a repetition has no first difference left, so it is a period of the needle |
| `CriticalFactorization.ShortRepetitionForcesPeriod` | lib/xnu-trace/utils.cpp:256-261 | if some repetition at the critical position is no longer than the right half, the least period of the right half is a period of the whole needle |
| `CriticalFactorization.LexLessTransitive` | lib/xnu-trace/utils.cpp:208-250 | the suffix order used by both loops is transitive, under the byte order and its reverse |
| `MaximalSuffix.FindMaximalSuffix` | lib/xnu-trace/utils.cpp:208-229 | each loop ends with the start of the lexicographically largest suffix and with that suffix's least period, for either byte order, after at most two needle lengths of comparisons |
| `MaximalSuffix.CandidateWins` | lib/xnu-trace/utils.cpp:223-226 | a larger byte makes the candidate beat every earlier suffix, so restarting with period 1 keeps the invariant |
| `MaximalSuffix.CandidateLoses` | lib/xnu-trace/utils.cpp:219-222 | a smaller byte makes everything read so far one word that beats all its own suffixes; its length is the new period |
| `MaximalSuffix.EqualByteExtends` | lib/xnu-trace/utils.cpp:213-218 | equal bytes extend the periodic stretch, and a whole period moves the candidate on |
| `MaximalSuffix.ExhaustedIsMaximal` | lib/xnu-trace/utils.cpp:212-229 | when the needle is exhausted the tracked suffix is the maximal one and the tracked period its least |
| `TwoWay.FillTables` | lib/xnu-trace/utils.cpp:200-206 | the byte set holds exactly the needle's bytes and the shift table one plus the last position of each |
| `TwoWay.SetBitAddsByte` | lib/xnu-trace/utils.cpp:195-196 | setting a bit of the packed set adds exactly that byte |
| `TwoWay.Preprocess` | lib/xnu-trace/utils.cpp:208-262 | the split is critical, no repetition there is shorter than the shift, a memory is kept only when the shift is a period of the needle, and shift and memory together cover the needle |
| `TwoWay.PeriodicIsPrepared` | lib/xnu-trace/utils.cpp:256-262 | when the left half repeats one period on, the period found for the right half is the needle's and bounds every repetition |
| `TwoWay.AperiodicIsPrepared` | lib/xnu-trace/utils.cpp:256-259 | when it does not, every repetition at the split is at least the long shift |
| `TwoWay.ByteAbsent` | lib/xnu-trace/utils.cpp:280-284 | a window whose last byte is not in the needle can be skipped whole |
| `TwoWay.ShiftTableSafe` | lib/xnu-trace/utils.cpp:271-279 | the last-byte shift skips no occurrence |
| `TwoWay.MemoryFixesLastByte` | lib/xnu-trace/utils.cpp:274-275 | with a non-zero memory, an occurrence less than the memory ahead forces the last byte to match, so raising the shift to the memory skips nothing |
| `TwoWay.OccurrenceRepeats` | lib/xnu-trace/utils.cpp:286-300 | a later occurrence that overlaps the matched right half is a repetition at the split |
| `TwoWay.RightMismatchSafe` | lib/xnu-trace/utils.cpp:286-293 | the shift after a mismatch in the right half skips no occurrence |
| `TwoWay.LeftMismatchSafe` | lib/xnu-trace/utils.cpp:294-300 | the shift by the period after a mismatch in the left half skips no occurrence |
| `TwoWay.MemoryEstablished` | lib/xnu-trace/utils.cpp:299-300 | after that shift the first bytes of the window, as many as the new memory, are known to match |
| `TwoWay.CheckLastByte` | lib/xnu-trace/utils.cpp:270-284 | the whole last-byte step, shift and memory included, skips no occurrence and reports 0 only on a match |
| `TwoWay.FindByte` | lib/xnu-trace/utils.cpp:317 | the first position of the needle's first byte |
| `TwoWay.SkipToFirstByte` | lib/xnu-trace/utils.cpp:317-324 | searching only from that position on gives the leftmost occurrence in the whole haystack |
| `TwoWay.FirstByteDecides` | lib/xnu-trace/utils.cpp:317-319 | an absent first byte, or a one-byte needle, decides the search |
| `PerfectHash.MinimalPerfectHash.Build` | lib/xnu-trace/MinimalPerfectHash.cpp:65-138 | reports duplicates exactly when keys repeat; on success every key is looked up at a slot of its own below the number of keys, where the lookup is spelled out by multiples of that number (LooksUp); every bucket has the first salt that works beside the larger buckets, and only salts of non-empty buckets changed; a timeout means that this greedy search has come to a bucket which no attempted salt can place |
| `PerfectHash.FillSalts` | lib/xnu-trace/MinimalPerfectHash.cpp:76-137 | going through the buckets by size and giving each the first salt that works leaves all keys on different slots, or stops at a bucket that no attempted salt can place |
| `PerfectHash.GreedyExtends` | lib/xnu-trace/MinimalPerfectHash.cpp:95-136 | choosing the salt of the next bucket changes no earlier choice |
| `PerfectHash.NextCanBePlaced` | lib/xnu-trace/MinimalPerfectHash.cpp:95-97 | the slots in use before a bucket are exactly those of the keys of the larger buckets, and the bucket shares no key with them |
| `PerfectHash.FillBuckets` | lib/xnu-trace/MinimalPerfectHash.cpp:76-81 | bucket h holds exactly the keys whose unsalted hash is h more than a multiple of the number of keys, once each |
| `PerfectHash.LookupIff` | lib/xnu-trace/MinimalPerfectHash.cpp:141-149 | a lookup gives a slot exactly if the salt at that h names it, when negative, or else the hash under that salt is the slot more than a multiple of the number of keys |
| `PerfectHash.PerfectLookupIff` | lib/xnu-trace/MinimalPerfectHash.cpp:141-149 | the perfect hash in these terms is the one that the other results speak of |
| `PerfectHash.SortBuckets` | lib/xnu-trace/MinimalPerfectHash.cpp:83-85 | the sorted buckets are a permutation of the buckets in order of falling size |
| `PerfectHash.TrySalt` | lib/xnu-trace/MinimalPerfectHash.cpp:103-120 | the scan reports success exactly when the salt sends the bucket's keys to different free slots, and then returns those slots |
| `PerfectHash.FindSalt` | lib/xnu-trace/MinimalPerfectHash.cpp:99-130 | the least salt from 1 on that works, or none of the attempted ones does |
| `PerfectHash.PlaceBucket` | lib/xnu-trace/MinimalPerfectHash.cpp:121-136 | a salt whose slots are free adds the bucket's keys and leaves the slots of the keys already placed alone |
| `PerfectHash.ChooseSalt` | lib/xnu-trace/MinimalPerfectHash.cpp:96-136 | the salt of a bucket is the least that works, or the first free slot for a single key; it fits 32 bits, names a slot in range and keeps the table consistent; failure means that no attempted salt works |
| `PerfectHash.FreeSlotIsChosen` | lib/xnu-trace/MinimalPerfectHash.cpp:132-135 | the first free slot, negated and decremented, fits the 32-bit salt |
| `PerfectHash.FullTable` | lib/xnu-trace/MinimalPerfectHash.cpp:132-133 | a table without a free slot holds as many keys as it has slots, so the source's "no free slot" assertion cannot fire |
| `PerfectHash.NextBucket` | lib/xnu-trace/MinimalPerfectHash.cpp:95-97 | the keys of the buckets done so far never share a bucket with the next one, and a non-empty next bucket leaves fewer than n keys placed |
| `PerfectHash.PlacedIsPerfect` | lib/xnu-trace/MinimalPerfectHash.cpp:95-138 | when all keys are placed the lookup is a minimal perfect hash of them |
| `PerfectHash.LookupIsBijection` | lib/xnu-trace/MinimalPerfectHash.cpp:140-149 | lookup restricted to the keys is a bijection onto the slots 0..n-1 |
| `PerfectHash.KeyInRangeIff` | lib/xnu-trace/MinimalPerfectHash.cpp:140-149 | any key at all, member or not, maps below n exactly when the salt of its bucket names no slot beyond the table |
| `PerfectHash.InRangeAfterBuildIff` | lib/xnu-trace/MinimalPerfectHash.cpp:89-137 | after a successful build all salts name slots in range exactly when the salts left over from earlier builds, in the buckets this build leaves empty, do |
| `PerfectHash.GrowingBuildStaysInRange` | lib/xnu-trace/MinimalPerfectHash.cpp:89-137 | after any history of successful builds of one hash, from no salts on, all salts name slots in the table as long as the number of keys never fell |
| `PairedKeys.ShrinkingBuildCanEscape` | lib/xnu-trace/MinimalPerfectHash.cpp:89-149 | a history of two greedy builds, of three keys and then of two, after which a non-member maps to slot n; no two of its buckets with keys have the same size |
| `PairedKeys.SlotsAreShifted` | lib/xnu-trace/MinimalPerfectHash.cpp:89-137 | for a hasher that pairs two of the keys, every successful build gives the same slots, whatever salts it chose and however the sort ordered equal buckets |
| `PairedKeys.PairSaltsAreGreedy` | lib/xnu-trace/MinimalPerfectHash.cpp:89-137 | the salts 1 and the free slot are what the greedy search chooses for those keys |
| `PairedKeys.NeverStuck` | lib/xnu-trace/MinimalPerfectHash.cpp:89-137 | the search for salts never times out on those keys |
| `PerfectHash.DistinctCount` | lib/xnu-trace/MinimalPerfectHash.cpp:71-74 | the sort-and-unique count equals the number of keys exactly when the keys are different |
| `PerfectMap.MphMap.Permute` | include/xnu-trace/MinimalPerfectHash.h:162-175 | for every permutation p the entries become a gather, new[j] = old[p[j]], and the index array becomes the identity |
| `PerfectMap.StepForward` | include/xnu-trace/MinimalPerfectHash.h:166-171 | one step along a cycle keeps the part already gathered and the open cycle |
| `PerfectMap.CloseCycle` | include/xnu-trace/MinimalPerfectHash.h:172-173 | storing the saved entry completes the cycle |
| `PerfectMap.MphMap.Rebuild` | include/xnu-trace/MinimalPerfectHash.h:150-159 | reports duplicates exactly when keys repeat, and a timeout only as above; on success the entries are gathered by the slots of their keys |
| `PerfectMap.EntryReachedIff` | include/xnu-trace/MinimalPerfectHash.h:150-175 | after a rebuild a stored key is reached by its lookup exactly when its slot number and its old position are exchanged in pairs |
| `PerfectMap.InPlaceIffInvolution` | include/xnu-trace/MinimalPerfectHash.h:150-175 | every entry ends at the slot of its key if and only if the slot numbering composed with itself is the identity |
| `PerfectMap.RotationLosesKeys` | include/xnu-trace/MinimalPerfectHash.h:150-175 | three keys whose slots rotate: after any successful rebuild none of the three is found, though two were in place before, and the slot of the key inserted last holds another key |
| `PerfectMap.RotationHappens` | include/xnu-trace/MinimalPerfectHash.h:150-175 | such rebuilds exist: a history of three greedy builds that inserts the keys one by one, with the first two in place before the third |
| `PerfectMap.TwoEntriesAlwaysInPlace` | include/xnu-trace/MinimalPerfectHash.h:150-175 | with one or two entries a rebuild always puts every entry in place |
| `PerfectMap.InsertedSlotHolds` | include/xnu-trace/MinimalPerfectHash.h:96-117 | after an insertion the slot of the new key holds the entry two steps along the slots; that is the new entry exactly when its slot and its position are exchanged, and otherwise the entry of another key |
| `PerfectMap.RebuiltMeaning` | include/xnu-trace/MinimalPerfectHash.h:150-175 | a rebuild keeps the multiset of entries and the finite map they stand for, whatever the order |
| `PerfectMap.GatherKeepsMap` | include/xnu-trace/MinimalPerfectHash.h:162-175 | rearranging entries does not change the finite map |
| `Permutation.GatherKeepsEntries` | include/xnu-trace/MinimalPerfectHash.h:162-175 | a gather along a permutation keeps the multiset |
| `PerfectMap.InPlaceAgreesWithMap` | include/xnu-trace/MinimalPerfectHash.h:101-106 | when every entry is in place, a lookup succeeds exactly for the keys of the finite map |
| `PerfectMap.MphMap.Contains` | include/xnu-trace/MinimalPerfectHash.h:101-106 | true exactly when the slot of the key holds that key; it implies membership in the finite map, and is equivalent to it when the entries are in place |
| `PerfectMap.MphMap.TryEmplace` | include/xnu-trace/MinimalPerfectHash.h:109-118 | finds a reached key and changes nothing, or adds the key to the finite map, or aborts: on a key that is stored but not reached, as a duplicate; says exactly when the value returned for a new key is its own |
| `PerfectMap.MphMap.AppendAndRebuild` | include/xnu-trace/MinimalPerfectHash.h:113-117 | the new map is the old one with the entry added, and the returned slot holds the new entry exactly when its slot and its position are exchanged |
| `PerfectMap.MphMap.Index` | include/xnu-trace/MinimalPerfectHash.h:86-99 | the same for the subscript operator with its default value, including the first insertion |
| `PerfectMap.MphMap.InsertFirst` | include/xnu-trace/MinimalPerfectHash.h:87-91 | the first insertion builds the hash and needs no rearranging |
| `PerfectMap.FirstKey` | include/xnu-trace/MinimalPerfectHash.h:87-91 | the first key needs no rearranging: its slot can only be 0 |
| `PerfectMap.MphMapStatic.Build` | include/xnu-trace/MinimalPerfectHash.h:60-72 | reports duplicates exactly when keys repeat, and a timeout only as above; on success each value is in the slot of its key |
| `PerfectMap.MphMapStatic.Get` | include/xnu-trace/MinimalPerfectHash.h:74-76 | reading any stored key gives its value in the finite map |
| `TraceTheorems.ReplayedContexts` | lib/xnu-trace/log_structs.cpp:4-22 | applying the messages of any written log in order, from the context of its first sync frame, reproduces sp, all 31 general registers and all 32 vector registers of every logged context; nzcv stays that of the sync frame |
| `ReplayedPcs.ReplayedPc` | lib/xnu-trace/log_structs.cpp:9-11 | over a whole run, the replayed pc of a context is the logged pc of the last step at or before it whose pc is not four more than the one before; it equals the logged pc of the context exactly when that step is a multiple of 2^62 steps back |
| `ReplayedPcs.ReplayPcsOfRun` | lib/xnu-trace/log_structs.cpp:9-11 | from any frame of a written log, replay sets the pc on branches and keeps it otherwise |
| `ReplayedPcs.StraightRun` | lib/xnu-trace/TraceLog.cpp:213-221 | steps to the next instruction add up, in 64-bit arithmetic |
| `WordCount.CountVanishesIff` | lib/xnu-trace/TraceLog.cpp:285-286 | a 64-bit counter, doubled m times, is zero exactly at the multiples of 2^(64 - m) |
| `TraceTheorems.ExtractedPcs` | lib/xnu-trace/TraceLog.cpp:39-46 | for any written log the extracted pcs are the first pc followed by the pc of every logged context, whatever sync frames lie between and with 64-bit wrap-around |
| `TraceTheorems.LogThenExtract` | lib/xnu-trace/TraceLog.cpp:39-46 | logging a run and extracting its pcs, end to end, in the same terms |
| `TraceTheorems.LogAll` | lib/xnu-trace/TraceLog.cpp:331-351 | logging one thread succeeds exactly when every step changes at most five general and five vector registers, and then the buffer is a log of the whole run |
| `ThreadLogs.LogRun` | lib/xnu-trace/TraceLog.cpp:331-351 | several threads logged through the perfect-hash map: every thread ends with the log of exactly its own contexts if and only if each insertion of a thread exchanged slot and position, as is always so for up to two threads |
| `ThreadLogs.OwnLogsIffExchanged` | lib/xnu-trace/TraceLog.cpp:331-351 | the same equivalence for the table of writers at any point of a run |
| `ThreadLogs.TraceLog.Log` | lib/xnu-trace/TraceLog.cpp:331-351 | one call: the thread writes to the entry that the map returns; aborts on a duplicate exactly for a thread that is stored but not reached; a new thread whose slot and position are not exchanged leaves its own buffer empty |
| `ThreadLogs.TraceLog.InsertWriter` | include/xnu-trace/MinimalPerfectHash.h:109-118 | the map returns the writer of the new thread exactly when slot and position are exchanged, and another thread's otherwise |
| `ThreadLogs.KnownThreadWrites` | lib/xnu-trace/TraceLog.cpp:346-350 | a thread that is found writes one message of its own, and what held for the table still holds |
| `ThreadLogs.NewThreadWrites` | lib/xnu-trace/TraceLog.cpp:341-350 | a new thread that gets its own entry starts a log of its own |
| `ThreadLogs.NewThreadMisses` | lib/xnu-trace/TraceLog.cpp:341-350 | a new thread that gets another entry spoils the table for good: some buffer has a wrong number of messages from then on |
| `ThreadLogs.LogBufferCounts` | include/xnu-trace/TraceLog.h:48-55 | a buffer that is the log of some contexts has one message for each, counted by hopping over its bytes |
| `ThreadLogs.LogBufferReads` | include/xnu-trace/TraceLog.h:95-120 | from a thread's log the readers get the first pc and then all logged pcs, and all logged contexts on sp, general and vector registers |
| `ThreadLogs.ThreeThreads` | lib/xnu-trace/TraceLog.cpp:331-351 | three threads with one message each: the third one's goes to another buffer, its own stays empty, and none of the three is found any more |
| `TraceTheorems.HopsAreFrames` | include/xnu-trace/log_structs.h:150-156 | hopping by message size from the front visits exactly the written frames |
| `TraceTheorems.FrameAtFront` | include/xnu-trace/log_structs.h:209-216 | each frame has the size it was written with, at most 144 bytes for a delta message, and only sync frames are taken for sync frames |
| `TraceTheorems.StartsWithSync` | lib/xnu-trace/TraceLog.cpp:202-204 | every log starts with a sync frame of the first context with count 0 |
| `TraceTheorems.BufferStart` | include/xnu-trace/TraceLog.h:131-135 | the front of a written buffer is a sync frame that gives back that context |
| `TraceTheorems.SyncFrameIsFollowed` | lib/xnu-trace/TraceLog.cpp:202-204 | every sync frame counts the messages before it and is followed by a delta message |
| `TraceTheorems.SyncSpacing` | lib/xnu-trace/TraceLog.cpp:202-283 | fewer than 1 MiB + 144 message bytes lie between two sync frames or after the last, and at least 1 MiB between two |
| `TraceTheorems.TailOfRun` | lib/xnu-trace/TraceLog.cpp:202-288 | any tail of a log is a log, from the writer state reached there |
| `TraceTheorems.DeltaStretch` | lib/xnu-trace/TraceLog.cpp:277-283 | the byte count since the last sync frame bounds every stretch of delta messages |
| `TraceWriter.ThreadContext.WriteLogMsg` | lib/xnu-trace/TraceLog.cpp:193-288 | appends one message, after a sync frame when one is due; succeeds exactly when few enough registers change, adds one message to whatever the buffer holds, and keeps a log a log of everything logged |
| `TraceWriter.ThreadContext.WriteSync` | lib/xnu-trace/TraceLog.cpp:313-329 | appends exactly the sync header, the count and the last context, and resets the byte count |
| `MessageBytes.SyncDigits` | lib/xnu-trace/TraceLog.cpp:313-322 | the 928 bytes of a sync frame are the base-256 digits, least significant first, of the 17 header words, the count, pc, sp, nzcv, the general and the vector registers |
| `MessageBytes.SyncIff` | include/xnu-trace/log_structs.h:209-212 | a message is taken for a sync frame exactly if it starts with the digits of the 17 header words |
| `MessageBytes.UpdatedBySync` | lib/xnu-trace/log_structs.cpp:5-8 | applying a sync frame gives the context it was written with |
| `TraceWriter.ThreadContext.constructor` | include/xnu-trace/TraceLog.h:203-209 | a new thread context is empty and owes a sync frame |
| `TraceWriter.ThreadContext.CopyContext` | lib/xnu-trace/TraceLog.cpp:344 | copying the first context into an empty one makes it a log that starts there |
| `TraceWriter.FramesGrow` | lib/xnu-trace/TraceLog.cpp:193-288 | a message with its due sync frame adds one message to any list of frames |
| `TraceWriter.EncodeMessage` | lib/xnu-trace/TraceLog.cpp:206-277 | succeeds exactly when at most five general and five vector registers changed, and gives the bytes of the step: see IsMessage in the next row |
| `MessageBytes.DeltaIsMessage` | lib/xnu-trace/TraceLog.cpp:206-277 | the messages for a step are exactly the two header numbers and the digits of the pc if it is not four more than the last, of the sp if it is another one, and of the changed registers; the length follows from these |
| `MessageBytes.DeltaCarries` | lib/xnu-trace/TraceLog.cpp:217-226 | the branch flag is set exactly if the pc is not four more than the last, the sp flag exactly if sp is another one |
| `MessageBytes.ChangedAscending` | lib/xnu-trace/TraceLog.cpp:254-272 | the changed registers are listed in ascending order |
| `MessageBytes.UpdatedFromBytes` | lib/xnu-trace/log_structs.cpp:9-21 | a message with any header numbers is applied as its bytes say: pc and sp under their flags, and each register named in five bits of the header gets the digits at its place, all others stay |
| `TraceFrames.StepCarries` | lib/xnu-trace/TraceLog.cpp:216-226 | the 64-bit differences tested by the writer mean that the pc is not four more and that the sp is another one |
| `TraceWriter.MessageIsDelta` | lib/xnu-trace/TraceLog.cpp:274-277 | headers, fixed part, general and vector registers, in that order, form such a message |
| `TraceWriter.PopCountIsLength` | lib/xnu-trace/TraceLog.cpp:249-262 | the population count of the mask is the number of changed registers |
| `TraceWriter.EmitGprs` | lib/xnu-trace/TraceLog.cpp:252-260 | the header grows by the number r0 + 32 r1 + 1024 r2 + 32768 r3 + 1048576 r4 of the changed general registers in ascending order, and their values follow |
| `TraceWriter.EmitVecs` | lib/xnu-trace/TraceLog.cpp:265-272 | the same for the vector registers |
| `TraceWriter.ChunkIsRun` | lib/xnu-trace/TraceLog.cpp:202-288 | one message, with its sync frame when due, is a log step |
| `TraceWriter.LogAppend` | lib/xnu-trace/TraceLog.cpp:202-288 | logs compose |
| `ChangedMask.ChangedGprs` | lib/xnu-trace/TraceLog.cpp:228-239 | the two-lane mask selects exactly the general registers that differ, and never the 32nd slot |
| `ChangedMask.ChangedVecs` | lib/xnu-trace/TraceLog.cpp:241-247 | the same for the vector registers |
| `ChangedMask.InterleaveSpreads` | lib/xnu-trace/TraceLog.cpp:183-190 | the shift-and-xor helper moves bit k to bit 2k and clears the odd bits |
| `ChangedMask.MergeReads` | lib/xnu-trace/TraceLog.cpp:237-239 | the merged word has the even registers of lane 0 and the odd ones of lane 1 |
| `ChangedMask.VecNotEqualMeaning` | lib/xnu-trace/TraceLog.cpp:244-246 | joining the two lane comparisons says whether the 128-bit registers differ |
| `ChangedMask.WithFlagMarks` | lib/xnu-trace/TraceLog.cpp:231-236 | each pass adds one flag and keeps the earlier ones |
| `HeaderBits.HeaderSaysIff` | include/xnu-trace/log_structs.h:52-130 | a header says what it says exactly if it is the number r0 + 32 r1 + 1024 r2 + 32768 r3 + 1048576 r4, plus 2^25 for a branch and 2^26 for a moved sp, plus 2^29 times the count |
| `HeaderBits.HeaderAsNumber` | include/xnu-trace/log_structs.h:52-86 | any header is the sum of its fields in those places |
| `HeaderBits.NamingAddsNumber` | include/xnu-trace/log_structs.h:92-95 | naming registers adds their number to a header that has none |
| `HeaderBits.StartIsNumber` | include/xnu-trace/log_structs.h:103-126 | the flags and the count alone as a number |
| `HeaderBits.SetRegReads` | include/xnu-trace/log_structs.h:84-95 | setting one register number reads back and leaves the other four alone |
| `HeaderBits.SetRegKeepsFlags` | include/xnu-trace/log_structs.h:92-95 | it leaves the count and the three flags alone |
| `HeaderBits.StartHeaderReads` | include/xnu-trace/log_structs.h:103-126 | count and flags read back, with no sync bit and no register number |
| `HeaderBits.FixedCount` | include/xnu-trace/log_structs.h:60-62 | the fixed count is the number of the two flags set |
| `HeaderBits.AppendReg` | include/xnu-trace/log_structs.h:84-95 | a header that names a list of registers names the longer list after the next one is set |
| `LogFormat.ContextRoundTrip` | include/xnu-trace/log_structs.h:9-22 | a context read back from its bytes, at any place in a buffer, is the context |
| `LogFormat.ContextDigits` | include/xnu-trace/log_structs.h:9-22 | the bytes of a context are the base-256 digits of pc, sp, nzcv, the 31 general and the 32 vector registers, in that order, least significant digit first |
| `LogFormat.Read64Digits` | include/xnu-trace/log_structs.h:166-173 | a word that is read has the digits found there |
| `LogFormat.AllDigits64` | lib/xnu-trace/TraceLog.cpp:256 | word i of a written array is at eight times i, in digits |
| `LogFormat.LiveContext.Update` | lib/xnu-trace/log_structs.cpp:4-22 | the in-place update of pc, sp and the two register arrays is the pure update of the context value, which UpdatedFromBytes and UpdatedBySync give in terms of bytes |
| `LogFormat.LiveContext.PatchGprs` | lib/xnu-trace/log_structs.cpp:15-18 | the loop over general registers applies the message's changes in order |
| `LogFormat.LiveContext.PatchVecs` | lib/xnu-trace/log_structs.cpp:19-21 | the loop over vector registers applies the message's changes in order |
| `LogFormat.LiveContext.Overwrite` | lib/xnu-trace/log_structs.cpp:5-8 | a sync frame replaces the whole context |
| `TraceFrames.SyncReads` | include/xnu-trace/log_structs.h:209-247 | a sync frame, whatever follows it, is recognised and gives back its context and count |
| `TraceFrames.DeltaSize` | include/xnu-trace/log_structs.h:150-156 | a delta message, whatever follows it, is not taken for a sync frame and its size is its length, at most 144 |
| `TraceFrames.DeltaPcSp` | include/xnu-trace/log_structs.h:166-173 | pc and sp read back exactly when their flags say they are present |
| `TraceFrames.DeltaNames` | include/xnu-trace/log_structs.h:174-193 | the counts and register numbers read back |
| `TraceFrames.DeltaPatchesGprs` | lib/xnu-trace/log_structs.cpp:15-18 | patching the last general registers gives the new ones |
| `TraceFrames.DeltaPatchesVecs` | lib/xnu-trace/log_structs.cpp:19-21 | patching the last vector registers gives the new ones |
| `TraceFrames.DeltaUpdates` | lib/xnu-trace/log_structs.cpp:4-22 | applied to any context that agrees with the last one on sp and the registers, a message gives one that agrees with the new; pc moves only on a branch, nzcv never |
| `TraceReader.PcIterator.Advance` | include/xnu-trace/TraceLog.h:99-118 | moves to the next delta message, over a sync frame if there is one, and steps the pc by 4 or to the branch target |
| `TraceReader.ExtractPcs` | lib/xnu-trace/TraceLog.cpp:39-46 | the loop yields the pcs of a walk from the first sync frame to the end of the buffer |
| `TraceReader.StepOverRun` | include/xnu-trace/TraceLog.h:48-55 | from any frame of a written log the iterator reaches the next delta message, never a sync frame |
| `TraceReader.DeltaStepsPc` | include/xnu-trace/TraceLog.h:103-111 | over a written message the pc steps to the logged one, branch or not |
| `TraceReader.PcsOfRun` | include/xnu-trace/TraceLog.h:99-118 | from any frame of a written log the walk yields the pc before it and all that were logged after it |
| `BitVector.DoubleWordVector.Set` | include/xnu-trace/BitVector.h:345-352 | for any value at all: elements before the index stay, the element becomes the value modulo 2^n (in the signed range for signed vectors), and a later element is kept exactly when the bits of the value beyond the field are already set in it; a value in range that is not negative is a plain list update |
| `BitVector.DoubleWordVector.GetIsElement` | include/xnu-trace/BitVector.h:330-343 | a read gives the element of the integer list that the packed buffer stands for |
| `BitVector.DoubleWordVector.GetIsField` | include/xnu-trace/BitVector.h:330-343 | a read is the value of the n bits at n times the index |
| `BitVector.DoubleWordVector.AccessInBounds` | include/xnu-trace/BitVector.h:354-371 | both words of every access lie in the buffer |
| `BitVector.DoubleWordVector.BufferIsLeast` | include/xnu-trace/BitVector.h:366-371 | the buffer is the least whole number of 16-byte blocks that holds the elements and one word more |
| `BitVector.DoubleWordVector.FillAscending` | include/xnu-trace/BitVector.h:345-352 | filling in ascending order with any values makes every read give the stored value modulo 2^n, which is the value itself if it is in range |
| `BitVector.DoubleWordVector.UpdateIsStore` | include/xnu-trace/BitVector.h:345-352 | the double-word insert replaces the field and ors the further bits of the widened value into the rest of the double word, and changes nothing else in the buffer |
| `BitVector.DoubleWordVector.StoreOnElements` | include/xnu-trace/BitVector.h:345-352 | what such a store of any value does to the list of elements |
| `BitVector.DoubleWordVector.StoredBits` | include/xnu-trace/BitVector.h:345-352 | bit by bit: the binary digits of the value replace the field and are or-ed in beyond it, up to the width of the word |
| `BitVector.DoubleWordVector.StoredSign` | include/xnu-trace/BitVector.h:345-352 | beyond the word, a signed vector ors in the sign of the stored word |
| `BitVector.OversizedSetOverwrites` | include/xnu-trace/BitVector.h:345-352 | storing 32 in the first element of a zeroed 5-bit vector leaves that one 0 and makes the second 1 |
| `BitVector.DoubleWordVector.NegativeSetKeepsLaterIff` | include/xnu-trace/BitVector.h:345-352 | the decoded value of a later element is unchanged by a negative store exactly when its bits in the same double word are all ones |
| `BitVector.NegativeSetOverwrites` | include/xnu-trace/BitVector.h:345-352 | a concrete vector in which storing -1 at index 0 turns the element at index 1 from 0 into -1 |
| `BitVector.ValueOfInjective` | include/xnu-trace/BitVector.h:330-343 | different element bits decode to different values |
| `BitVector.ReadOverWrite` | include/xnu-trace/BitVector.h:354-364 | writing element i of the packed layout gives i and leaves every other element alone |
| `BitVector.ValueOfEncoded` | include/xnu-trace/BitVector.h:76-79 | decoding the n-bit encoding of a value in range gives the value, signed or not |
| `BitVector.ValueOfWrapped` | include/xnu-trace/BitVector.h:76-79 | decoding the n low bits of any value gives the value in range that differs from it by a multiple of 2^n |
| `BitWords.ExtractIsSlice` | include/xnu-trace/BitVector.h:37-39 | extraction takes the field and pads with zeros |
| `BitWords.InsertReplaces` | include/xnu-trace/BitVector.h:52-56 | inserting a value that fits replaces exactly the field |
| `BitWords.InsertNegative` | include/xnu-trace/BitVector.h:52-56 | inserting a negative value also sets every higher bit, because the inserted value is not masked |
| `BitWords.InsertKeepsHigherIff` | include/xnu-trace/BitVector.h:52-56 | inserting any value keeps the lower bits and writes the field; the higher bits are kept exactly when the value's bits beyond the field are already set there |
| `BitWords.SignExtendInverts` | include/xnu-trace/BitVector.h:76-79 | sign extension inverts truncation to n bits |
| `SplitBitVector.SplitWordVector.Set` | include/xnu-trace/BitVector.h:411-428 | the two-word variant does the same for any value wherever the source is defined, except that the further bits end with the word the element ends in |
| `SplitBitVector.SplitWordVector.StoredBits` | include/xnu-trace/BitVector.h:411-428 | bit by bit: the binary digits of the value replace the field and are or-ed in beyond it, up to that end |
| `SplitBitVector.SplitWordVector.GetIsElement` | include/xnu-trace/BitVector.h:386-409 | its reads give the elements of the same packed layout |
| `SplitBitVector.SplitWordVector.WordsOfElement` | include/xnu-trace/BitVector.h:430-454 | the one or two words an accessible element touches are in the buffer, and the masks asked for are defined |
| `SplitBitVector.SplitWordVector.AccessibleIff` | include/xnu-trace/BitVector.h:386-428 | an element is left out exactly if its access reaches behind the buffer or asks for an undefined mask |
| `SplitBitVector.SplitWordVector.BufferIsLeast` | include/xnu-trace/BitVector.h:449-453 | the buffer is the least whole number of 16-byte blocks that holds the elements |
| `SplitBitVector.SplitWordVector.ZeroWidthMaskIff` | include/xnu-trace/BitVector.h:416-427 | a mask of no bits is asked for exactly when an element ends on a word boundary |
| `SplitBitVector.SplitInsert` | include/xnu-trace/BitVector.h:420-427 | for any value the two half inserts equal one insert across both words |
| `SplitBitVector.SplitExtract` | include/xnu-trace/BitVector.h:396-401 | the two half reads equal one read across both words |
| `PageIndex.MachORegions.LookupInst` | lib/xnu-trace/MachORegions.cpp:139-143 | the word read at an address within one page has as base-256 digits the four bytes at that address of the last JIT region that covers it, else of the ordinary region that covers it |
| `PageIndex.WordIsAt` | lib/xnu-trace/MachORegions.cpp:139-143 | the least significant digit is the byte at the address itself |
| `PageIndex.MachORegions.CreateHash` | lib/xnu-trace/MachORegions.cpp:149-184 | aborts over a duplicate page exactly when two ordinary regions overlap; on success the perfect-hash map holds exactly the page table of the regions |
| `PageIndex.TableAgrees` | lib/xnu-trace/MachORegions.cpp:149-184 | the page table has the page of an address exactly when some region covers the address, and points into the backing region |
| `PageIndex.BackingIsUnique` | lib/xnu-trace/MachORegions.cpp:149-178 | at most one region backs an address |
| `PageIndex.AppendPages` | lib/xnu-trace/MachORegions.cpp:152-160 | the pages of an ordinary region are added in order, and are new unless ordinary regions overlap |
| `PageIndex.OverlapRepeatsPage` | lib/xnu-trace/MachORegions.cpp:152-160 | ordinary regions that overlap list some page twice |
| `PageIndex.OverridePages` | lib/xnu-trace/MachORegions.cpp:162-178 | the pages of a JIT region replace the entries they find and are added where they find none; they add no duplicate page and remove none |
| `PageIndex.LayerMeaning` | lib/xnu-trace/MachORegions.cpp:152-178 | writing regions over one another leaves each page with the last region that has it |
| `PageIndex.ReplacedEntry` | lib/xnu-trace/MachORegions.cpp:168-173 | overwriting a found entry updates the finite map at its page |
| `TaskWait.InvStep` | include/xnu-trace/Atomic.h:9-26 | every step of every thread keeps: the counter is n minus the decrements done, a loaded value is never below it, and a sleeper with an outdated value has a notification coming |
| `TaskWait.InvAlways` | include/xnu-trace/ThreadPool.h:13-22 | so it holds in every state of every run |
| `TaskWait.ReturnsOnlyWhenDone` | include/xnu-trace/ThreadPool.h:13-22 | the wait returns only after all n blocks have run and decremented |
| `TaskWait.NeverLeftAsleep` | include/xnu-trace/Atomic.h:12-22 | once every worker has notified, the waiter is not asleep |
| `TaskWait.SomeStepEnabled` | include/xnu-trace/Atomic.h:12-22 | until the wait has returned some thread can take a step of its own |
| `TaskWait.MeasureDecreases` | include/xnu-trace/Atomic.h:12-22 | every step brings a run closer to its end, except a spurious wake-up, which sets it back by at most four steps |
| `TaskWait.WaitTerminates` | include/xnu-trace/ThreadPool.h:13-22 | a run with c spurious wake-ups has at most 40 n + 6 + 5 c steps, and a run that cannot go on without another one has returned from the wait |
| `BasicBlocks.ExtractBbs` | lib/xnu-trace/TraceLog.cpp:14-31 | for every non-empty trace: expanding the blocks gives back the pcs, without the final one when its run has length one, if and only if no run has 2^30 pcs or more; otherwise at least 2^30 pcs are lost. Without such a run no block continues where the one before ends, and a left-out pc does not continue the last block |
| `BasicBlocks.BlockSize` | lib/xnu-trace/TraceLog.cpp:22 | the 32-bit size computed with wrap-around is four times the run length modulo 2^30 |
| `BasicBlocks.EmitCounted` | lib/xnu-trace/TraceLog.cpp:21-23 | emitting a run of 2^30 pcs or more loses at least that many, and the loss stays |
| `BasicBlocks.StraightRunFitsIff` | lib/xnu-trace/TraceLog.cpp:22 | a trace that is one straight run is short enough exactly below 2^30 pcs |
| `BasicBlocks.EmitBlock` | lib/xnu-trace/TraceLog.cpp:21-23 | emitting a run below 2^30 pcs covers everything seen and keeps the blocks maximal |
| `BasicBlocks.StartIsLastIff` | lib/xnu-trace/TraceLog.cpp:27 | the final test is false exactly for a run of length one, among those below 2^30 pcs |
| `Subregions.SubregionsForSortedPcs` | python/xnutrace/tracelog.py:100-124 | raises exactly when a pc lies in a lower subregion than the one before; otherwise the regions are aligned, increasing, a whole subregion or more apart, every subregion in them holds a pc, and they cover all pcs or, exactly when all pcs form one stretch from address zero, are none |
| `Subregions.SortedNeverDescends` | python/xnutrace/tracelog.py:111-114 | sorted pcs never raise |
| `Subregions.CheckAcceptsIff` | python/xnutrace/tracelog.py:127-132 | the repository's own check accepts the result exactly when the last region was emitted and no pc lies in the top subregion of the address space |
| `Subregions.VerifySubregions` | python/xnutrace/tracelog.py:127-132 | the filtering loop accepts exactly when every pc lies in some region, whose end is its base plus size modulo 2^64 |
| `Subregions.StretchFromZeroIsDropped` | python/xnutrace/tracelog.py:121-124 | a pc in the first subregion, alone, gets no region |
| `Subregions.TopRegionIsRejected` | python/xnutrace/tracelog.py:127-132 | a pc in the last subregion gets a region that covers it, which the check rejects |
| `Subregions.RoundDownIsScale` | python/xnutrace/tracelog.py:66-68 | masking with the complement of a power of two minus one rounds down to a multiple of it |
| `Subregions.MaskClearsLowBits` | python/xnutrace/tracelog.py:66-68 | the same, bit by bit, for any width |
| `Subregions.ScanTests` | python/xnutrace/tracelog.py:109-115 | the three wrap-around tests of the loop decide whether the subregion is the same, lower, or more than one further on |
| `Subregions.EmittedRegion` | python/xnutrace/tracelog.py:116-123 | the size computed for a region is exact even when its end wraps to zero |
| `Subregions.FinishScan` | python/xnutrace/tracelog.py:121-124 | what the final test and the last region add up to |

## Left out

- Kernel, Mach, dyld, Frida and dispatch code, exception handlers and signposts:
  calls into systems that are not part of this model.
- `CompressedFile` and the stream mode of `TraceLog`: the behaviour is that of zstd
  and stdio. Only the in-memory `log_buf` is modelled, as a sequence of bytes.
- `write_log_msg(uint64_t pc)`: it writes no sync frame, so the readers do not accept
  its output.
- `ctx_iterator`: its constructors copy from the address of the pointer they are
  given. Replay uses `update` directly.
- `changed_gpr` and `changed_vec`: loops over accessors that `LiveContext.Update`
  already uses.
- ThreadLogs.TraceLog.Log: a writer is an object of its own that entries refer to,
  where the source moves the struct with its entry. The state after an aborted call is
  not described. The variant that takes only a pc is left out with its message format.
- TraceReader.PcIterator.Advance: the source also reads the header at the end of the
  buffer; that read is guarded here.
- LogFormat.LiveContext.Update: requires a complete message whose register numbers
  exist. Number 31 in a malformed message would write past `lr`.
- MessageBytes.UpdatedFromBytes: for messages whose vector header has no flags, as the
  writer leaves it; the source never looks at them.
- PerfectHash.MinimalPerfectHash.Build: requires at most 2^31 keys, so that
  `-slot - 1` fits the 32-bit salt; the source only asserts that the count fits 32
  bits. The timeout is a bound on the attempts for one bucket. For no keys at all the
  source first calls `fastmod::computeM_u32(0)` with 32-bit hashers, which needs a
  non-zero divisor and is not part of this model; here the empty table is just built.
- PerfectHash.SortBuckets: a selection sort stands for `std::sort`, whose order among
  buckets of the same size is not specified.
- Internals of fastmod, xxhash and the jevhash mixers: `mod` is the exact remainder
  and the hash is arbitrary.
- PerfectMap.MphMap.Permute: the moved-from state of an entry between two moves is
  not modelled; entries are values in a sequence field.
- PerfectMap.MphMap.TryEmplace: what an aborted call leaves behind is not described,
  as the process ends there.
- BitVector.DoubleWordVector.Set: words are bit strings in a sequence field, not bytes
  behind a cast pointer, so alignment and aliasing are not captured.
- SplitBitVector.SplitWordVector.Set: unsigned only, and not where the source is
  undefined: for an element that ends on the boundary of a 32- or 64-bit word, or
  whose access reaches behind the buffer. Signed split vectors shift an `int` past
  its width.
- Exact, one-bit and atomic vectors, proxies and iterators, and the factory's
  dispatch: direct array accesses, unimplemented code or template plumbing.
- TwoWay.Memmem: pointers are positions in a sequence, and lengths are unbounded; no
  object in memory reaches the width of `size_t`.
- PageIndex.MachORegions.LookupInst: an address that no region covers reads through an
  arbitrary value in the source and is excluded. How regions are collected from the
  process is left out.
- TaskWait.WaitTerminates: the lifetime of the waiter object is left out; the last
  notification may come after the wait has returned.
- `chunk_into_bins_by_needle` and `parallelize_indexed_loop`: the split comes from a
  thread-pool library that is not part of this model.
- meta.bin, instruction histograms, coverage writers, notebooks, command-line tools and
  `scripts/perfect_hashing.py`: easy members, input and output, or repetition.
