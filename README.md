# jsql base library and configuration — a Dafny model

This project models the core of jsql's single-header base library
(`include/base.h`) and its command-line configuration (`src/core/config.c`):

- **Arena** — a bump allocator. It has a total size, a current offset and a
  single saved checkpoint. Aligned allocation rounds the offset up with
  `ALIGN_UP`. The buffer is a byte count and an allocation is its offset.
- **BaseHashTableOA** — an open-addressing hash table with linear probing.
  - Deletion leaves tombstones, and a load-factor test decides when to rehash.
  - Copy and free callbacks are optional; the free callbacks are recorded as
    ghost logs of what was released.
  - Bucket arrays may come from an arena and are then never given back.
  - There is an index-order iterator.
  - The contracts are stated against an abstract map, `Lookup`: the first
    Occupied slot, in index order, whose key is equal to the query. `Valid`
    says:
    - the counters equal the numbers of Occupied and Tombstone slots;
    - keys are unique under the equality callback;
    - equal keys hash equally;
    - no Empty slot lies on the probe path from a key's home slot to the slot
      that holds it.
- **VECTOR_DEFINE** — a generic growable array (`Vec<T>`) over an `array` with
  size and capacity.
- **StringView / BaseString**:
  - A string view is a nullable pointer plus a length. The pointer is modelled
    as the characters readable from it.
  - A BaseString is a vector of `char` that keeps a NUL right after its
    contents.
- **FNV-1a** hashes of C strings and byte buffers, and C-string key equality.
- **DatabaseConfig**:
  - `db_config_init_defaults` sets the defaults.
  - `db_config_from_args` scans `argv` and writes options into the
    configuration as it reads them. It stops with `false` at the first help
    request, missing value, rejected value or unknown option.

Files: `wrappers.dfy` (Option), `bits.dfy` (powers of two and bitwise AND on
naturals), `arena.dfy`, `probing.dfy` (slot sequences, the abstract map, the
probe-chain invariant and their lemmas), `hashtable.dfy`, `vector.dfy`,
`stringview.dfy`, `basestring.dfy`, `fnv.dfy`, `config.dfy`.

Behaviour of the code worth noting:

- **`ht_oa_insert` growth test.** The load test has no `+1`: the table grows
  when `item_count + 1 >= bucket_count` or when
  `(item_count + tombstone_count) / bucket_count` exceeds 0.7. So inserting a
  12th key into 16 buckets holding 11 items does *not* rehash, while
  `ht_oa_put` of the same absent key does. For a key that `ht_oa_contains`
  reports present, put's test counts no extra item and can fire later than
  insert's: with 1 item in 2 buckets insert rehashes and put does not.
  `HashTableOA.GrowthTestsCompared` states both.
- **`ht_oa_rehash` bucket count.** The new count is the request (16 for 0),
  or `2 * item_count` when the request is below `item_count`.

## Model

| member | source | states |
|---|---|---|
| Arenas.AlignUp | include/base.h:136-137 | the rounded value is a multiple of the power-of-two alignment, and lies in [value, value + alignment) when the sum does not wrap |
| Arenas.AlignUpFacts | include/base.h:136-137 | the mask `~(alignment - 1)` applied to the wrapped sum rounds it down to a multiple of the alignment |
| Arenas.AllocOutcome | include/base.h:631-653 | the corrected allocation: success gives an aligned offset in [current, current + alignment) whose end `offset + item_size` is at most total_size; failure exactly when aligning overflows or the end exceeds total_size |
| Arenas.AllocAsWritten | include/base.h:636-645 | the allocation as written, with the end offset computed in u64 (it can wrap) |
| Arenas.AllocAsWrittenWrapsAround | include/base.h:636-645 | a huge item_size makes the wrapped end fall within total_size, so the code "succeeds" where the corrected outcome fails |
| Arenas.Arena.Init | include/base.h:607-620 | a fresh arena of the given size with both offsets 0 |
| Arenas.Arena.FreeAll | include/base.h:622-629 | buffer released; total size and both offsets zero |
| Arenas.Arena.Reset | include/base.h:253-257 | both offsets 0; size kept; `prev <= current <= total` kept |
| Arenas.Arena.MarkTemp | include/base.h:259-262 | prev_offset := current_offset (a later mark overwrites an earlier one) |
| Arenas.Arena.ReleaseTemp | include/base.h:264-267 | current_offset := prev_offset |
| Arenas.Arena.AllocAligned | include/base.h:631-653 | on success returns the aligned offset and advances current_offset to its end; on failure returns None and changes nothing; the invariant is kept |
| Arenas.Arena.Alloc | include/base.h:249-251 | arena_alloc is AllocAligned with the default alignment 16 |
| Arenas.DefaultAlignmentIsPowerOfTwo | include/base.h:58-60 | the default alignment is a power of two |
| Arenas.DefaultOutcome | include/base.h:249-251 | a default-aligned allocation is 16-aligned, at or after the current offset, and ends within the arena |
| Arenas.MarkAllocRelease | include/base.h:259-267 | mark, allocate, release: the next allocation returns the same offset as the first one |
| Bits.PowerOfTwoTest | src/core/config.c:67-68 | for x >= 1, `x & (x - 1) == 0` iff x is a power of two |
| Bits.AndClearsLowBits | include/base.h:136-137 | masking with `2^w - 2^k` rounds down to a multiple of `2^k` |
| Probing.Count | include/base.h:525-529 | the number of slots in a given state is at most the number of slots |
| Probing.CountUpdate | include/base.h:525-529 | how overwriting one slot changes each state count |
| Probing.Find | include/base.h:1390-1414 | the abstract lookup: Some exactly when some Occupied slot has an equal key, and its value is then that slot's |
| Probing.FindMatch | include/base.h:1390-1414 | with unique keys, the lookup of a key stored in slot i is slot i's value |
| Probing.EmptinessMeaning | include/base.h:1449-1452 | no Occupied slot iff every lookup misses |
| Probing.FindAgree | include/base.h:1025-1098 | two unique-key slot arrays holding the same key/value pairs give the same lookup |
| Probing.ProbeMiss | include/base.h:1103-1138 | a probe that meets no equal key before an Empty slot (or a full wrap) proves the key absent, by the chain invariant |
| Probing.ProbeCoversAll | include/base.h:1103-1138 | a full wrap from any home slot visits every slot |
| Probing.PlaceFacts | include/base.h:1286-1293 | writing a new key into the first free slot of its probe path keeps the chain invariant and key uniqueness |
| Probing.TombstoneFacts | include/base.h:1428-1440 | turning a matched slot into a Tombstone keeps the chain invariant and key uniqueness |
| Probing.ValueUpdateFacts | include/base.h:1320-1341 | replacing a matched slot's value keeps the chain invariant and key uniqueness |
| Probing.NextOccupied | include/base.h:1466-1490 | the first Occupied index at or after i (or the end) |
| Probing.OccupiedBelow | include/base.h:1455-1490 | the ascending list of Occupied indices below b |
| Probing.OccupiedBelowCount | include/base.h:1455-1490 | that list is as long as the Occupied count of the prefix |
| Probing.KeysOf | include/base.h:1188-1203 | the keys of the Occupied slots, one per Occupied slot |
| HashTableOA.RehashTarget | include/base.h:1025-1030 | the new bucket count is positive and at least item_count, and is the request when that is positive and at least item_count |
| HashTableOA.GrowthTestsCompared | include/base.h:1223-1232 | for a key that contains reports absent (extra = 1), put's growth test fires whenever insert's does, and with 11 items in 16 buckets insert keeps the buckets while put doubles them; for a key reported present (extra = 0), put's test fires only when insert's does, and with 1 item in 2 buckets insert doubles them while put keeps them |
| HashTableOA.HashTable.Init | include/base.h:1141-1175 | a table of the requested (or default 16) Empty slots, counters 0, no callbacks, every lookup None; with an arena, the slot array is carved from it: the arena's offset moves to the end of the block arena_alloc places, while its size, temp mark and buffer stay as they were |
| HashTableOA.HashTable.SetManagedKV | include/base.h:1177-1186 | installs the callbacks and leaves the slots and counters untouched |
| HashTableOA.HashTable.FindSlot | include/base.h:1103-1138 | found: the slot holds an equal key; not found: the key is absent and the slot is the first free slot of the probe path (a Tombstone in preference to the Empty slot that ends the probe); None only when every slot is Occupied |
| HashTableOA.HashTable.Get | include/base.h:1390-1414 | returns the value stored under an equal key, or NULL; changes nothing |
| HashTableOA.HashTable.Contains | include/base.h:1416-1418 | true iff a key is stored with a non-NULL value |
| HashTableOA.HashTable.ProbeEmpty | include/base.h:1069-1084 | the rehash probe ends at the first Empty slot of the key's path |
| HashTableOA.HashTable.Relocate | include/base.h:1061-1091 | the new array holds exactly the old key/value pairs (no copies), no tombstones, with the chain invariant and unique keys |
| HashTableOA.HashTable.Rehash | include/base.h:1025-1098 | bucket_count := RehashTarget; item_count and every lookup kept; tombstones dropped; a failed arena allocation changes nothing; no callback is called |
| HashTableOA.HashTable.AllocBuckets | include/base.h:1035-1055 | with an arena, succeeds exactly when the arena can carve the array, which then consumes arena space |
| HashTableOA.HashTable.PlaceNew | include/base.h:1264-1293 | copies the key and then the value, releasing the key copy when the value copy fails; on success writes the slot, item_count + 1, tombstone_count - 1 exactly when a Tombstone is reused, and the key now maps to the (copied) value |
| HashTableOA.HashTable.Insert | include/base.h:1216-1294 | true iff the growth InsertGrowth fits in the arena (always without one), the key is absent and its copies succeed; bucket_count becomes InsertGrowth exactly when the growth fits, and the arena offset moves past the new slot array while its size, temp mark and buffer stay; an existing key gives false with every lookup unchanged; success adds exactly this key, item_count + 1 and the tombstone accounting; the fallback rehash is unreachable |
| HashTableOA.HashTable.GrowForInsert | include/base.h:1217-1232 | a freed table gets the default capacity, then doubles under insert's test; true iff that slot array fits in the arena (always without one), and then bucket_count is the new count and the arena offset moves past it (size, temp mark and buffer unchanged), otherwise nothing changes; on success there is room for one more item; lookups unchanged |
| HashTableOA.HashTable.Replace | include/base.h:1320-1341 | only that slot's value changes; item_count kept; the old value is released unless it is NULL, the passed value, or the new copy |
| HashTableOA.HashTable.Put | include/base.h:1296-1388 | upsert: true iff the growth PutGrowth fits in the arena (always without one) and the value copy (for a stored key) or both copies (for an absent key) succeed; bucket_count and the arena offset move exactly as that growth says, the arena's size, temp mark and buffer stay; on success the key maps to the (copied) value and nothing else changes in the map; an existing key keeps item_count and releases the old value as above; an absent key is placed as by insert |
| HashTableOA.HashTable.GrowForPut | include/base.h:1303-1315 | the growth test counts the key only when contains says it is absent; true iff the grown slot array fits in the arena (always without one), and then bucket_count is PutGrowth and the arena offset moves past the array (size, temp mark and buffer unchanged); on success an absent key has room |
| HashTableOA.HashTable.GrowIfLoaded | include/base.h:1303-1319 | on a table with buckets, the target is twice the buckets exactly when the key, counted only if absent, would fill every bucket or push the load past 0.7; true iff the target's slot array fits in the arena (always without one), and then bucket_count is the target and the arena offset moves past the array (size, temp mark and buffer unchanged); lookups unchanged |
| HashTableOA.HashTable.Store | include/base.h:1317-1387 | the probe-and-write part of put, after growth |
| HashTableOA.HashTable.Remove | include/base.h:1420-1442 | true iff the key was stored; then its slot becomes a Tombstone, item_count - 1, tombstone_count + 1, its key and non-NULL value are released, the key maps to None and every other key is unchanged; false changes nothing |
| HashTableOA.HashTable.Vacate | include/base.h:1428-1440 | releases the slot's key and value through the callbacks and buries the slot |
| HashTableOA.HashTable.Clear | include/base.h:1188-1203 | every slot Empty, both counters 0, bucket_count kept, every lookup None; with free callbacks the stored keys and non-NULL values are released in index order |
| HashTableOA.HashTable.EmptyAll | include/base.h:1188-1203 | every slot Empty, counters and bucket_count kept; the free logs grow by the stored keys and non-NULL values in index order |
| HashTableOA.HashTable.Release | include/base.h:1190-1201 | one slot of the clear loop: its key and non-NULL value go to the installed free callbacks and the slot becomes Empty |
| HashTableOA.HashTable.Free | include/base.h:1205-1214 | clears, then drops the slot array: bucket_count 0 |
| HashTableOA.HashTable.Size | include/base.h:1444-1447 | item_count is the number of stored key/value pairs and at most bucket_count |
| HashTableOA.HashTable.SlotAccounting | include/base.h:538-541 | item_count + tombstone_count never exceeds bucket_count, and the difference is the number of Empty slots |
| Probing.CountsPartition | include/base.h:525-529 | every slot is exactly one of Empty, Occupied and Tombstone, so the three counts add up to the number of slots |
| HashTableOA.HashTable.IsEmpty | include/base.h:1449-1452 | true iff every lookup misses |
| HashTableOA.HashTable.SkipToOccupied | include/base.h:1458-1462 | the advancing loop stops at the first Occupied slot at or after its start, or at bucket_count; the slots it skips hold no Occupied index |
| HashTableOA.TableIterator.Begin | include/base.h:1455-1464 | positioned on the first Occupied slot (or the end), nothing yielded |
| HashTableOA.TableIterator.Next | include/base.h:1466-1490 | past the end: false and no change; otherwise yields the current slot's key and value and moves to the next Occupied slot |
| HashTableOA.TableIterator.Complete | include/base.h:1455-1490 | once past the end, exactly the Occupied slots were yielded, each once, in ascending index order |
| Vectors.InitialCapacity | include/base.h:663-689 | the requested capacity, or the default 8 for 0; always positive |
| Vectors.GrowCapacity | include/base.h:719-751 | a full buffer grows to twice its capacity (8 from 0) |
| Vectors.DoubleUntil | include/base.h:916-942 | the doubling loop reaches a capacity at least the need, and less than twice the need unless no doubling was needed |
| Vectors.Inserted | include/base.h:793-823 | the element goes at the index, earlier elements stay, later ones shift up by one |
| Vectors.Removed | include/base.h:825-843 | earlier elements stay, later ones shift down by one |
| Vectors.RemoveUndoesInsert | include/base.h:793-843 | removing at the index just inserted at gives the original contents |
| Vectors.InsertUndoesRemove | include/base.h:793-843 | re-inserting a removed element at its index gives the original contents |
| Vectors.Resized | include/base.h:845-867 | cut to n, or padded with the fill value |
| Vectors.Vec.Init | include/base.h:663-689 | empty, with InitialCapacity |
| Vectors.Vec.Free | include/base.h:691-698 | empty, capacity 0 |
| Vectors.Vec.Reserve | include/base.h:700-717 | capacity becomes the request when larger; the elements are kept |
| Vectors.Vec.Push | include/base.h:719-751 | the value is appended; a full buffer grows to GrowCapacity |
| Vectors.Vec.Pop | include/base.h:753-764 | None iff empty; otherwise returns the last element and removes it |
| Vectors.Vec.Get | include/base.h:766-782 | the element at an in-bounds index |
| Vectors.Vec.Set | include/base.h:784-791 | one element overwritten |
| Vectors.Vec.Insert | include/base.h:793-823 | contents become Inserted(old, index, value); a full buffer grows |
| Vectors.Vec.Remove | include/base.h:825-843 | returns the element and the contents become Removed(old, index) |
| Vectors.Vec.Resize | include/base.h:845-867 | contents become Resized(old, n, fill); capacity grows to n if needed |
| Vectors.Vec.Clear | include/base.h:869-872 | empty, buffer kept |
| Vectors.Vec.ShrinkToFit | include/base.h:874-895 | capacity becomes the size; elements kept |
| Vectors.Vec.Copy | include/base.h:897-914 | a fresh vector with the same elements |
| Vectors.Vec.ShiftUp | include/base.h:816-819 | the memmove of vec_insert: the prefix before index is kept and each element from index on moves up one place |
| Vectors.Vec.CopyAfter | include/base.h:939 | the memcpy of vec_append_array: the elements in use are kept and arr lands just past them |
| Vectors.DoubleCapacity | include/base.h:924-933 | the doubling loop ends at AppendCapacity: the first doubling of the capacity (the default 8 for 0) that is at least the new size |
| Vectors.Vec.AppendArray | include/base.h:916-942 | the array is appended; capacity doubles until it fits |
| Vectors.Vec.Size | include/base.h:359-362 | the number of elements |
| Vectors.Vec.IsEmpty | include/base.h:369-372 | true iff there are no elements |
| Vectors.PushThenPop | include/base.h:719-764 | a pop right after a push returns the pushed value and restores the contents |
| Vectors.InsertThenRemove | include/base.h:793-843 | removing at the index just inserted at returns the value and restores the contents |
| StringViews.FromCstr | include/base.h:385-387 | the view of a C string up to its NUL; NULL gives (NULL, 0) |
| StringViews.Equals | include/base.h:393-401 | equal lengths, and both NULL or both non-NULL with equal text |
| StringViews.EqualsIsEquivalence | include/base.h:393-401 | sv_equals is reflexive, symmetric and transitive on well-formed views |
| StringViews.EqualsCstr | include/base.h:403-412 | a NULL C string equals only (NULL, 0); otherwise the text equals the C string up to its NUL |
| StringViews.EqualsCstrIsEquals | include/base.h:385-412 | comparing with a C string is comparing with sv_from_cstr of it |
| StringViews.Slice | include/base.h:414-422 | (NULL, 0) iff start >= length or the view is NULL; otherwise length `max(0, min(end, length) - start)` and the text is the matching part of the original |
| StringViews.LeadingSpaces | include/base.h:424-432 | the number of leading C-locale whitespace characters |
| StringViews.TrailingSpaces | include/base.h:434-442 | the number of trailing C-locale whitespace characters |
| StringViews.TrimLeftMeaning | include/base.h:424-432 | NULL stays NULL; the result is NULL iff all characters are whitespace; otherwise the text minus its leading whitespace |
| StringViews.TrimRightMeaning | include/base.h:434-442 | NULL stays NULL; an empty non-NULL view gives (NULL, 0); otherwise the text minus its trailing whitespace |
| StringViews.TrimShape | include/base.h:444-446 | a non-NULL trimmed view is non-empty with no whitespace at either end |
| StringViews.TrimIdempotent | include/base.h:444-446 | trimming twice is trimming once |
| BaseStrings.CStr | include/base.h:508-512 | the first size + 1 characters of the buffer are the contents and then a NUL; a C-string reader stops earlier when the contents hold a NUL, which bstr_append_char accepts |
| BaseStrings.EnsureCapacity | include/base.h:948-966 | the capacity doubles until the contents, the additional characters and the NUL fit; the contents are kept |
| BaseStrings.Init | include/base.h:470-480 | empty and NUL-terminated, capacity hint + 1 (default 8 + 1) |
| BaseStrings.Free | include/base.h:482 | empty, no buffer |
| BaseStrings.AppendChar | include/base.h:484-493 | the character is appended and the NUL kept after it |
| BaseStrings.Clear | include/base.h:495-501 | empty, the NUL at position 0, capacity kept |
| BaseStrings.FromCstr | include/base.h:968-978 | the characters of the C string, NUL-terminated, capacity strlen + 1 |
| BaseStrings.FromSv | include/base.h:980-992 | the view's text (empty for NULL), NUL-terminated, capacity length + 1 |
| BaseStrings.AppendCstr | include/base.h:994-1007 | the C string's characters are appended and the NUL kept |
| BaseStrings.AppendSv | include/base.h:1009-1022 | the view's text is appended (nothing for an empty view) and the NUL kept |
| Fnv.HashBytes | include/base.h:1519-1527 | FNV-1a of no bytes is the offset basis |
| Fnv.FoldBytesAppend | include/base.h:1519-1527 | hashing one more byte is one more FNV-1a round (xor, then multiply modulo 2^64) |
| Fnv.HashBytesAppend | include/base.h:1519-1527 | base_hash_bytes of a buffer extended by one byte is one more FNV-1a round on the hash of the buffer |
| Fnv.HashString | include/base.h:1496-1506 | the corrected string hash; NULL hashes to the offset basis |
| Fnv.HashStringIsHashBytes | include/base.h:1496-1527 | the corrected string hash is base_hash_bytes of the bytes before the NUL |
| Fnv.HashStringAsWritten | include/base.h:1496-1506 | the string hash as written, with plain `char` sign-extended |
| Fnv.AsWrittenAgreesOnAscii | include/base.h:1496-1506 | on 7-bit strings the code's hash equals the intended one |
| Fnv.AsWrittenSignExtends | include/base.h:1502 | on the one-byte string 0x80 the code's hash differs from FNV-1a of that byte |
| Fnv.StrEqual | include/base.h:1508-1517 | strcmp == 0 iff the bytes before the NULs are equal |
| Fnv.KeyEqualString | include/base.h:1508-1517 | equal iff both NULL, or both non-NULL with equal strings |
| Fnv.StringCallbacksCoherent | include/base.h:1496-1517 | the corrected string hash (FNV-1a over unsigned bytes) with base_key_equal_string is an equivalence under which equal keys hash equally, as the table requires |
| Fnv.FoldSignedOfText | include/base.h:1501-1504 | the loop of base_hash_string as written reads only the bytes before the NUL: strings with the same text hash equally |
| Fnv.AsWrittenCallbacksCoherent | include/base.h:1496-1517 | the callbacks the program installs, base_hash_string as written (sign-extending) with base_key_equal_string, are an equivalence under which equal keys hash equally, so the table's requirement holds for them too |
| Config.StrToL | src/core/config.c:44 | strtol's result lies in the range of a 64-bit long |
| Config.StrToLOfDecimal | src/core/config.c:44 | strtol reads back a decimal numeral, with or without a minus sign |
| Config.StrToLSkipsSpace | src/core/config.c:44 | leading whitespace is skipped |
| Config.StrToLNoDigits | src/core/config.c:44 | no leading digit gives 0 |
| Config.Defaults | src/core/config.c:13-22 | file "database.db", page size 4096, cache 64 MB, port 5432, WAL off, read-only off, level INFO |
| Config.DefaultsAdmissible | src/core/config.c:13-22 | the defaults pass the checks the scanner applies |
| Config.StepAt | src/core/config.c:28-84 | one loop iteration: it moves past the option and its value, switches flags only on, and changes no field but the one named by the option |
| Config.ValueOptionSemantics | src/core/config.c:33-65 | an option missing its value returns false; the file path is taken as given; a port is accepted iff in 1..65535, a cache size iff in 1..8192 |
| Config.PageSizeSemantics | src/core/config.c:61-72 | a page size is accepted iff it is a power of two in 512..65536, the test `v & (v - 1)` agreeing with the power-of-two definition |
| Config.FlagSemantics | src/core/config.c:30-84 | help and an unknown argument return false; the read-only, WAL, verbose and quiet flags set their field and go on at the next argument |
| Config.OptionSemantics | src/core/config.c:30-84 | help returns false; an option missing its value returns false; port accepted iff in 1..65535, cache iff in 1..8192, page size iff a power of two in 512..65536; the flags and levels are set; an unknown argument returns false |
| Config.StepKeepsAdmissible | src/core/config.c:39-72 | one step stores only values that pass the checks |
| Config.RunKeepsAdmissible | src/core/config.c:24-88 | admissible settings stay admissible, whatever the outcome |
| Config.RunFieldFrame | src/core/config.c:24-88 | flags are never switched off; a field whose options do not occur keeps its prior value |
| Config.LaterLevelWins | src/core/config.c:77-80 | of -v and -q, the later one decides the level |
| Config.HelpKeepsEarlierOptions | src/core/config.c:30-32 | help returns false at that point, and options read before it stay applied |
| Config.PageSizeOption | src/core/config.c:61-72 | a decimal page size is accepted iff it is a power of two in 512..65536 |
| Config.DatabaseConfig.InitDefaults | src/core/config.c:13-22 | the fields become Defaults() |
| Config.DatabaseConfig.FromArgs | src/core/config.c:24-88 | the result and the new fields are exactly Run(argv, 1, old fields) |
| Config.DatabaseConfig.ApplyOption | src/core/config.c:28-84 | one pass of the loop on the fields: it stops exactly when StepAt stops, leaving the fields as they were, and otherwise leaves the fields and the next index StepAt gives |
| Config.ParseFromDefaults | src/core/config.c:13-88 | defaults followed by the scan always leave admissible settings, equal to Run from the defaults |

## Left out

- Heap allocation failure (`malloc`, `calloc`, `realloc`) is not modelled: heap allocations always succeed. Vec.Reserve, Vec.Push, Vec.Insert, Vec.Resize, Vec.ShrinkToFit, Vec.AppendArray and the bstr functions therefore always return true. Arena allocation failure is modelled.
- `realloc` is modelled as a fresh array holding a copy of the old block. Pointer identity of the reallocated buffer is not modelled.
- The `LOG_FATAL` aborts in `arena_init` and `ht_oa_init` are not modelled. Their allocations are required to succeed.
- Logging (`LOG_*`), `ASSERT` (modelled as preconditions), `print_usage` and `sv_fprint` are output only and are not modelled.
- The floating-point growth factor `(usize)((f64)cap * 2.0)` is modelled as `cap * 2`.
- Vectors.DoubleCapacity: the minimum capacity of 1 (include/base.h:927-928) and the `new_capacity <= vec->capacity` guard (include/base.h:931-932) are not modelled. Neither can fire, because the default capacity is 8 and the factor is exactly 2, so each doubling of a positive capacity exceeds the old capacity.
- The 0.7f load-factor test is modelled as `10 * used >= 7 * buckets`. This is exact below 2^23 buckets, because 0.7f is slightly below 7/10.
- Fixed-width integers:
  - Sizes and counts are unbounded naturals.
  - The arena's offsets are kept below 2^64, and its u64 end-offset wrap is modelled explicitly (see Findings).
  - FNV uses 64-bit bit-vectors.
  - The `(u16)`/`(u32)` casts in the config scanner are not modelled, because they apply only to values already checked to fit.
- Memory and pointers:
  - Memory contents behind `void *` keys and values are not modelled.
  - Values are `Null | Ref(v)`, and keys and values are compared by value, not by address.
  - `sv_from_parts` is the `StringView` constructor itself.
  - `bstr_len` is `Vec.Size`.
- The slice accessors, the math/bit macros other than `ALIGN_UP`, and the vector's `begin`/`end`/`capacity` accessors are not modelled. They are one-line field reads.
- Config.StrToL: `errno` is not modelled; out-of-range input is clamped to the long range, as strtol does.
- Config.DatabaseConfig.FromArgs: the arguments are modelled as NUL-free strings, so `strcmp(a, b) == 0` becomes string equality.
- src/main.c, src/core/database.c and include/sqldb/core.h are not part of this model. The constants of core.h appear in config.dfy.
- The arena argument that `ht_oa_put`, `ht_oa_insert`, `ht_oa_remove` and `ht_oa_clear` pass to the copy and free callbacks (include/base.h:1193-1195, 1269-1280, 1325-1337, 1363-1374, 1430-1432) is not modelled: the callbacks are pure functions and free logs, and never allocate from the arena, so only bucket arrays consume arena space here.
- HashTableOA.HashTable.SetManagedKV: requires of its caller that a successful key copy returns a key equal to the original under the table's equality (`KeyCopyCoherent`). The source does not check this; without it a copied key could be stored where lookups for the original key never find it.
- HashTableOA.HashTable.Clear, HashTableOA.HashTable.EmptyAll, HashTableOA.HashTable.Vacate and HashTableOA.HashTable.Remove: the key frees and the value frees go to two separate logs (`freedKeys`, `freedValues`), each in call order. The interleaving of key and value frees (key, value, key, value in include/base.h:1192-1195 and 1430-1432) is not modelled.
- HashTableOA.HashTable.Put: `ht_oa_contains` is evaluated twice in the source's growth test. It is modelled once, because it has no side effects.

## Findings

| source | as written | input that shows it | evidently intended | confidence | as-written member | corrected member |
|---|---|---|---|---|---|---|
| include/base.h:636-645 | `aligned_current_offset + item_size` is computed in u64 and can wrap before it is compared with `total_size` | a 64-byte arena at offset 16 and an item_size of 2^64 - 8: the end wraps to 8 <= 64, so the allocation "succeeds" | fail when the item does not fit in the space left | not executed | Arenas.AllocAsWrittenWrapsAround | Arenas.AllocOutcome |
| include/base.h:1502 | `hash ^= (u64)(*p)` with a plain `char`, which sign-extends bytes >= 0x80 where char is signed | the one-byte string "\x80" | FNV-1a over the string's bytes, as `base_hash_bytes` computes it | not executed | Fnv.AsWrittenSignExtends | Fnv.HashStringIsHashBytes |
