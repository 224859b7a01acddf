# tinybft memory layout and demo bookkeeping in Dafny

This project models TinyBFT's fixed-memory layout engine and the bookkeeping in its demo driver.
TinyBFT is a PBFT replication library for devices with very little memory.

The memory layout has four statically sized regions:

- **Agreement window**: W slots, each holding a prepare and a commit certificate.
- **Checkpoint store**: W/K+1 checkpoint certificates.
- **Event region**: client and view-change message buffers.
- **Scratch pool**: N message buffers with a parallel used-length table.

The engine's entry points are all linear scans over these arrays:

- initialise;
- set the persistence flag;
- look up a region by tag;
- allocate from the scratch pool and release back to it;
- find an agreement slot and admit a new one;
- find or initialise a checkpoint certificate.

The demo driver adds the following, each for a replica:

- a ten-slot key-value store with truncating update-or-insert and lookup;
- the primary of a view;
- a bounds-checked fault flag;
- the non-faulty and faulty counts behind the prepare/commit certificates and the health report.

Layout of the Dafny modules:

- `Base` (base.dfy): machine integer ranges, `Option`, and the two scans the engine uses everywhere.
  - `IndexOf` is the first index holding a value.
  - `ArgMinFirst` is the lowest index of the minimum, scanning from `UINT32_MAX` with a strict `<`.
  - `Repeat` fills a fixed array with one value, and `Project` takes the array of keys a scan compares.
- `Layout` (layout.dfy): the configuration constants of memory_layout.h, the region and message enums, and the record shapes.
  - Payload arrays are `seq<u8>` of `MaxMsgSize` bytes.
  - Their contents are only ever zeroed.
- `Scratch`, `Window`, `Checkpoints`: the pure specification of the scratch pool, the agreement window and the checkpoint store, with the lemmas about them.
- `MemoryLayout` (memory.dfy): the memory state record and the C entry points.
  - Each entry point is a method whose loop mirrors the C code.
  - Each method is proved equal to the pure specification and to change nothing else.
- `KvStore` and `Replicas`: the demo's key-value store, replica records, primary selection and quorum counts.

Representation choices:

- A scratch buffer pointer is an index handle: `Option<nat>`, with `None` for NULL.
- A pointer into a region is the index of the slot or certificate.
- A C string is `CString`: the bytes before its terminator. Each byte is a `CChar`, a Dafny `char` with code 1..255, so NUL cannot occur inside a key or value.
- C's `%` on a negative `int` truncates toward zero. This is written out in `PrimaryForView`.

Sequence number 0 doubles as "empty". After initialisation:

- a search for 0 finds slot 0;
- a checkpoint lookup for 0 hands back certificate 0 without resetting it.

The model keeps both behaviours.

What the checkpoint code does, and does not do:

- A reused checkpoint certificate is zeroed, so its `valid` flag is false.
- The sequence number is not checked to be a multiple of K.
- When every certificate is valid, index 0 is reused.
- No code appends votes or drops a repeat vote from the same sender.

## Model

| member | source | states |
|---|---|---|
| Layout.MaxFaultyFor | memory_layout.h:12-14 | (N-1)/3 is the largest f with 3f+1 <= N |
| Layout.DefaultConfiguration | memory_layout.h:8-22 | the defaults give N=4, f=1, 3f+1 <= N, and W/K+1 = 3 checkpoint certificates |
| Layout.TagOf | memory_layout.h:41-47 | exactly the codes 0..3 name a region, each one a different region; MEMORY_REGION_COUNT=4 is not a region |
| Layout.TagRoundTrip | memory_layout.h:41-47 | decoding the code of a region gives back that region |
| Layout.MsgTypeOf | memory_layout.h:50-61 | exactly the codes 0..9 name a message kind, each one a different kind |
| Layout.MsgTypeRoundTrip | memory_layout.h:50-61 | decoding the code of a message kind gives back that kind |
| Layout.FreshSlot | memory_layout.h:99-104 | a zeroed slot has a prepare certificate with a pre-prepare buffer and N prepare buffers, a commit certificate with N commit buffers, and the stamped sequence number |
| Layout.FreshCert | memory_layout.h:92-97 | a zeroed checkpoint certificate has N vote buffers, the stamped sequence number, valid false and count 0 |
| Base.IndexOf | memory_layout.c:102-107 | the result is the lowest index holding the value, or None exactly when the value is absent |
| Base.ArgMinFirst | memory_layout.c:113-121 | the strict-less scan from UINT32_MAX returns the lowest index of the minimum, and index 0 when every entry is UINT32_MAX |
| MemoryLayout.MemoryInit | memory_layout.c:14-20 | after init: every array has its compile-time size; every slot is zero with sequence number 0; every certificate has sequence number 0, is invalid and has count 0; every scratch buffer is free; the persistence flag is kept |
| MemoryLayout.InitStartsEmpty | memory_layout.c:14-20 | after init the window is all-empty, no certificate is valid, and the scratch pool holds no buffer |
| MemoryLayout.ZeroFoundAfterInit | memory_layout.c:101-108 | after init, find(0) hits slot 0, and the checkpoint lookup for 0 returns certificate 0 unchanged |
| MemoryLayout.SetNvm | memory_layout.c:23-31 | only the persistence flag changes; no region changes |
| MemoryLayout.GetRegion | memory_layout.c:34-47 | each of the four tags reaches its own region; every other value gives NULL |
| MemoryLayout.GetRegionDistinct | memory_layout.c:34-47 | two different valid tags never reach the same region |
| Scratch.Alloc | memory_layout.c:50-64 | a size above MAX_MSG_SIZE gives NULL with the pool unchanged; otherwise the lowest-index free buffer gets the size as its used length and nothing else changes; NULL with the pool unchanged only when no buffer is free |
| MemoryLayout.AllocFromScratch | memory_layout.c:50-64 | the C loop computes exactly Scratch.Alloc and changes no other region |
| Scratch.AllocUsedCount | memory_layout.c:55-60 | an allocation of non-zero size holds one more buffer; a size-0 allocation hands out a buffer but leaves it free |
| Scratch.UsedCountBound | memory_layout.c:56-63 | the pool never holds more than N buffers, and it holds N exactly when no buffer is free |
| Scratch.UsedCountZero | memory_layout.c:19 | the pool holds nothing exactly when every used length is 0 |
| Scratch.UsedCountUpdate | memory_layout.c:58 | writing one used length changes the held count only by that buffer's change between free and held |
| Scratch.Release | memory_layout.c:67-98 | a handle naming a held buffer frees exactly that buffer; an unknown or already-free buffer leaves the pool unchanged |
| MemoryLayout.MoveToRegion | memory_layout.c:67-98 | the search by identity computes exactly Scratch.Release, whatever the destination and size; no other region changes |
| Scratch.ReleaseUsedCount | memory_layout.c:80-97 | a release frees exactly one buffer when the handle names a held one, and none otherwise |
| Scratch.ReleaseIdempotent | memory_layout.c:80-82 | a second release of the same buffer is a no-op |
| Scratch.AllocReleaseRoundTrip | memory_layout.c:50-98 | releasing the buffer an allocation handed out restores the pool, for every size |
| Scratch.OthersUntouched | memory_layout.c:55-97 | allocation and release leave every buffer they do not name unchanged |
| Window.Find | memory_layout.c:101-108 | the result is the lowest-index slot with the sequence number, or None exactly when no slot has it |
| MemoryLayout.FindAgreementSlot | memory_layout.c:101-108 | the C loop computes exactly Window.Find |
| Window.Oldest | memory_layout.c:112-121 | the chosen slot has the minimum sequence number and is the lowest index among ties |
| MemoryLayout.OldestSlot | memory_layout.c:112-121 | the C eviction scan computes exactly Window.Oldest |
| Window.Init | memory_layout.c:111-129 | exactly the oldest slot is zeroed and stamped; all other slots are unchanged; find of the new number then succeeds |
| MemoryLayout.InitAgreementSlot | memory_layout.c:111-129 | the C code computes exactly Window.Init and changes no other region |
| Window.InitThenFind | memory_layout.c:111-129 | after a find that missed, init puts the number in the reused slot, and find returns exactly that slot |
| Window.GuardedInitKeepsDistinct | memory_layout.c:111-129 | find-then-init keeps nonzero sequence numbers in distinct slots |
| Window.InitCanDuplicate | memory_layout.c:111-129 | init without a find can duplicate: admitting 3 into [1,2,3,4] evicts slot 0 and leaves two slots holding 3 |
| Window.InitResidents | memory_layout.c:116-126 | init removes the smallest resident number and adds the new one to the resident multiset |
| Window.ResidentsAreLatest | memory_layout.c:111-129 | from an all-empty window, strictly increasing admissions leave the last min(n, W) numbers resident, padded with zeros |
| Window.WindowKeepsLastW | memory_layout.c:111-129 | after at least W strictly increasing admissions, the residents are exactly the last W numbers, as a multiset and as a set |
| MemoryLayout.FifthAdmissionEvictsFirst | memory_layout.c:111-129 | after init, admitting 1, 2, 3, 4, 5 leaves 2, 3, 4, 5 resident |
| Checkpoints.Find | memory_layout.c:133-139 | the result is the lowest-index certificate with the sequence number, or None exactly when no certificate has it |
| Checkpoints.Victim | memory_layout.c:142-151 | the reuse choice is the invalid certificate with seq < UINT32_MAX that has the smallest seq, lowest index among ties; index 0 when none qualifies |
| Checkpoints.VictimIsFirstMinKey | memory_layout.c:145-151 | the reuse scan is the minimum scan with a valid certificate counted as UINT32_MAX |
| MemoryLayout.ReusableCert | memory_layout.c:142-151 | the C reuse scan over W/K+1 certificates computes exactly Checkpoints.Victim |
| Checkpoints.FindOrInit | memory_layout.c:132-157 | a matching certificate is returned untouched; otherwise only the victim changes, and it is zeroed and stamped (valid false, count 0) |
| MemoryLayout.FindCheckpointCert | memory_layout.c:132-157 | the C code computes exactly Checkpoints.FindOrInit and changes nothing else |
| Checkpoints.FindOrInitIdempotent | memory_layout.c:132-157 | asking twice for the same number returns the same certificate and changes nothing more |
| Checkpoints.FindOrInitKeepsInvalid | memory_layout.c:153-155 | no certificate is ever made valid |
| Checkpoints.InvalidStoreReusesOldest | memory_layout.c:145-151 | when all certificates are invalid, reuse is oldest-first with the lowest index among ties |
| Checkpoints.AllValidFallsBackToFirst | memory_layout.c:142-157 | when every certificate is valid, a new number resets certificate 0 |
| KvStore.EmptyStore | tinybft_demo.c:151 | a cleared store has ten unused slots |
| KvStore.Truncate | tinybft_demo.c:598-599 | strncpy plus terminator keeps exactly the first min(len, n) bytes |
| KvStore.FindKey | tinybft_demo.c:594-601 | the result is the lowest-index used slot whose key equals the argument, or None exactly when there is none |
| KvStore.FirstUnused | tinybft_demo.c:603-605 | the result is the lowest-index unused slot, or None exactly when the store is full |
| KvStore.Update | tinybft_demo.c:587-618 | an empty key is ignored; a matching used slot gets the value cut to 255 bytes; otherwise the lowest free slot gets the key cut to 31 bytes and the value cut to 255; a full store is unchanged; nothing else changes |
| KvStore.UpdateKvStore | tinybft_demo.c:587-618 | the single C pass, which returns on a match and remembers the first free slot, computes exactly KvStore.Update |
| KvStore.Lookup | tinybft_demo.c:457-463 | GET yields the value of the first used slot holding the key, and "not found" exactly when none does |
| KvStore.GetValue | tinybft_demo.c:457-463 | the C lookup loop computes exactly KvStore.Lookup |
| KvStore.EmptyStoreInvariants | tinybft_demo.c:151 | a cleared store is well stored, has unique keys, and finds nothing |
| KvStore.UpdateWellStored | tinybft_demo.c:598-616 | every update keeps used keys non-empty and under 32 bytes, and values under 256 bytes |
| KvStore.ShortKeyStoredVerbatim | tinybft_demo.c:610-611 | a key shorter than MAX_KEY_SIZE is stored unchanged |
| KvStore.UpdateKeepsKeysUnique | tinybft_demo.c:594-617 | for keys shorter than MAX_KEY_SIZE, an update keeps at most one used slot per key |
| KvStore.PutThenGet | tinybft_demo.c:587-618 | for keys that fit, GET after PUT returns the value cut to 255 bytes when the key was present or a slot was free, and "not found" on a full store |
| KvStore.PutLeavesOtherKeys | tinybft_demo.c:594-617 | for keys that fit, a PUT changes no other key's GET result |
| KvStore.LongKeyDuplicates | tinybft_demo.c:595-611 | a 32-byte key put twice fills two slots with the same truncated key; the key never reads back, while its 31-byte prefix does |
| Replicas.ThresholdsAgree | tinybft_demo.c:9-10 | the demo's N=4 and f=1 equal the layout's, and N = 3f+1 |
| Replicas.PrimaryForView | tinybft_demo.c:171-173 | for a view >= 0 the primary is view mod N, in [0, N); a negative view gives a value in (-N, 0]; in all cases the view is congruent to the result mod N |
| Replicas.PrimaryRotates | tinybft_demo.c:171-173 | the primary advances round-robin with the view and repeats every N views |
| Replicas.EveryReplicaLeads | tinybft_demo.c:171-173 | every replica is primary of some view within any N consecutive views |
| Replicas.InitializeSystem | tinybft_demo.c:141-156 | N replicas with id i, view 0, seq 0, not faulty, empty store; exactly replica 0 is primary; the global sequence is 0 |
| Replicas.InitialSystemHealthy | tinybft_demo.c:141-156 | a fresh system has no faulty replica, is healthy and reaches quorum |
| Replicas.SetReplicaFaulty | tinybft_demo.c:159-163 | an id outside [0, N) is ignored; otherwise only that replica's faulty flag changes |
| Replicas.ToggleTwiceRestores | tinybft_demo.c:159-163 | toggling a replica's fault flag twice restores the system |
| Replicas.CountNonFaultyUpdate | tinybft_demo.c:159-163 | changing one flag changes the non-faulty count only by that replica's change |
| Replicas.SetFaultyMonotone | tinybft_demo.c:159-163 | repairing a replica never lowers the valid-vote count; marking one faulty never raises it |
| Replicas.CountsPartition | tinybft_demo.c:507-512 | every replica is counted exactly once: the non-faulty count of this vote loop plus the faulty count of the status screen (650-655, which Replicas.FaultStatus cites and proves through this lemma) is N |
| Replicas.NoneFaulty | tinybft_demo.c:650-655 | the faulty count is 0 exactly when no replica is marked faulty |
| Replicas.QuorumIffHealthy | tinybft_demo.c:507-522 | with N = 4 replicas, a certificate (>= 2f+1 valid votes) forms exactly when the faulty count is <= f |
| Replicas.CountValidVotes | tinybft_demo.c:507-512 | the counting loop returns the number of non-faulty replicas, and whether that reaches 2f+1 |
| Replicas.PreparePhase | tinybft_demo.c:507-522 | valid PREPAREs are the non-faulty replicas; a prepare certificate is reported exactly when the system is healthy |
| Replicas.CommitPhase | tinybft_demo.c:537-552 | valid COMMITs are the non-faulty replicas; a commit certificate is reported exactly when the system is healthy |
| Replicas.FaultStatus | tinybft_demo.c:650-659 | the faulty count plus the non-faulty count is N; HEALTHY is reported exactly when a quorum is reachable |

## Left out

- Console I/O and presentation: `main`, the `process_command` parsing (`sscanf`, `strcasecmp`, `atoi`), `printf`, `_getch`, screen clearing and all display functions. None of this changes the modelled state.
- The execute phase and the pre-prepare sequence update in tinybft_demo.c:
  - the execute phase depends on `rand()` for faulty replicas;
  - neither is among the modelled operations.
- The random demo keys of the PROCESS command: they come from `rand()`.
- The memory-percentage report. It is floating-point arithmetic over hard-coded constants.
- `is_primary`: an unchecked read of the replica's flag, with no logic of its own.
- Byte copying into destination regions. The copy branches in `tinybft_move_to_region` are empty, so the model places nothing. Payload bytes are only ever zeroed.
- The mapping of regions to non-volatile memory. `tinybft_memory_set_nvm` stores only a flag; the rest of it is commentary.
- Vote aggregation:
  - `prepare_count`, `commit_count` and `checkpoint_count` are never updated, and no code sets `valid` to true;
  - the fields are modelled, but no operation on them exists to model.
- The partition tree: only its record is declared, with a SHA-256 hash field and no operations.
- `sizeof` and the byte sizes of the regions.
- Character encodings: one Dafny `char` stands for one C byte, and keys and values are assumed NUL-free. A multi-byte UTF-8 character is several `CChar`s, and the model does not decode it.
- The replica fields `id`, `view` and `seq_num` and the global `current_seq` are C `int`. They are unbounded `int` here, because no modelled operation does arithmetic on them.
- Window.WindowKeepsLastW: stated for a window that starts all-empty, which is the state after initialisation. Positivity of the admitted numbers is not needed.
