# Verified models of the NativeAPITest tables and codecs

The library keeps records in three kinds of hash table and converts text in three ways. This
project models them in Dafny and proves what callers rely on.

**LKRhash.** `CLKRLinearHashTable` is a linear hash table: it grows and shrinks by one bucket
at a time and is addressed by a level, a split index and two masks. A bucket is a chain of
clumps of N record slots each; N is a parameter of the model. Two views are modelled:

* The table itself, as a class with the source's fields: address variables, directory of
  segments, record count. A chain is a sequence of clumps, each with its slots and its place
  in memory. A ghost map from keys to records says what the table stands for; every operation
  is proved against it, for every pattern of refused allocations. The heap is a function from
  the number of a request to its answer; clumps and segments are accounted for.
* The locking protocol, as a step relation over any number of threads, subtables and buckets:
  a step takes or releases a lock, changes the address variables, or reads or writes one
  bucket. The invariant is proved for every state of every run.

**HASH_TABLE and TREE_HASH_TABLE.** Chains sorted by hash. Insertion by compare-and-swap under
the shared lock is a step model, for both tables and any number of threads; deletion, sweeping
and rehashing are methods on a class. The tree table's forest of path prefixes is a record of
maps (parent, children, record, path) with the hash chains beside it.

**Codecs.** Base64 on bit vectors, so shifts, masks and DWORD wrap-around are the program's;
STRA escaping and in-place unescaping on a byte array; the MULTISZ list in a double-NUL buffer.

## Files

| files | contents |
|---|---|
| `Bits`, `Addressing` | bitwise arithmetic on naturals, the address variables |
| `Records`, `Clump`, `Place`, `Chain`, `Delete`, `Sweep`, `Split`, `Merge` | bucket chains |
| `Directory`, `Contents`, `TableState` | segments, and when a table stands for a map |
| `References`, `LoadControl`, `BucketSteps`, `Relocation`, `Purge`, `TableSweep`, `TableReset` | parts of the table's operations |
| `LinearTable`, `HashTable` | the classes `CLKRLinearHashTable` and `CLKRHashTable` |
| `LockProtocol`, `LockInvariant`, `LockSteps`, `LockRelocation`, `LockResize`, `LockTrim`, `LockTheorems`, `LockSafety` | the locking protocol |
| `ChainTable`, `CasTable` | `HASH_TABLE` |
| `Tree`, `TreeInsert`, `TreeDelete`, `TreeRehash`, `TreeTable`, `TreeCas` | `TREE_HASH_TABLE` |
| `Base64`, `EscapeCodes`, `Stra`, `MultiSz` | codecs |

## Findings

Statements about the code that turned out false, each with the exact condition or a reachable
example:

* `_SetSegVars` sizes the directory by whole segments but allocates a partial one too. The
  directory covers the initial buckets exactly when their number is a multiple of the segment
  size or the number of whole segments is no directory size (`Directories.InitialDirSize`).
  513 buckets in segments of 64 get 8 entries for 9 segments (`Directories.UncoveredInitialSize`).
* An expansion that fails for want of a clump keeps the segment it has just added. The segment
  is spare, beyond what the active buckets need, exactly when the bucket would have been its
  first (`LinearHashTable.Expand`). A contraction loses exactly the spare segments in the half
  of the directory it drops (`Relocations.ShrinkDirectory`, `LinearHashTable.Contract`); clearing
  and destroying a table lose all of them, because the loop that frees segments stops at the
  last active bucket (`LinearHashTable.Clear`, `LinearHashTable.Destroy`). Nothing else loses a
  segment. `LinearTables.FailedExpansionLosesASegment` reaches the case.
* That expansion also releases the table lock before the lock of the bucket it did not
  activate, so a bucket that is not active can be locked while the table is free
  (`LockSafety.InactiveBucketLocked`); it is the only such case (`LockSafety.LockedBucketIsActive`).
  A contraction by another thread may then take that bucket's segment away, freed or forgotten,
  and the failed expansion unlocks a bucket that is gone (`LockSafety.SegmentTakenAway`,
  `LockSafety.WhenTheSegmentGoes`, `LockSafety.SegmentFreedUnderLock`).
* The encoder's buffer-overflow exits, taken for unreachable in the source, are reached exactly
  when the encoded size does not fit a DWORD (`Base64.Base64Encode`), from 3221225470 bytes on
  (`Base64.SmallestThatWraps`).
* `Base64Decode` accepts `=` anywhere and ignores stray bits; encoding its result gives the
  string back exactly when the string is canonical (`Base64.EncodeOfDecode`).
* `Unescape` loses text between a literal `%` and the first escape. It agrees with its
  documentation exactly when nothing but `%` stands between the first `%` and the first escape,
  or there is no escape (`EscapeCodes.UnescapeIsFaithful`).
* `Unescape` does not undo `EscapeUtf8`, which leaves `%` alone: it does so exactly for the
  NUL-free texts that hold no escape and have nothing but `%` between the first `%` and the
  first byte escaped (`EscapeCodes.Utf8RoundTrip`).
* `EscapeInternal` does not look at the result of appending a character that needs no escape.
  It can report success with characters missing exactly when such a character, after the first
  one escaped, outgrows the temporary buffer: 512 bytes, or twice the text if that is more
  (`Stras.EscapeIsRight`, `Stras.LossIsPossible`). 170 `%` and two letters do
  (`Stras.SuccessWithALostCharacter`). A text whose escaped form fits that buffer is safe.
* The flag of `SplitCommaDelimitedString` that asks for empty entries to be removed makes no
  difference: appending an empty string leaves no trace in a MULTISZ
  (`MultiStrings.SplitCommaDelimitedString`). Asked to keep them, it does what it was asked
  exactly when there are none (`MultiStrings.EmptyEntriesAreKept`); "a,,b" has one
  (`MultiStrings.EmptyEntryIsLost`).
* Copying a MULTISZ onto itself empties it, and reads a buffer already given up exactly when
  the copy needs a larger one (`MultiStrings.MultiSz.Copy`).
* `TREE_HASH_TABLE::InsertRecord` of the empty path reads outside its buffer, and only then
  (`TreeInsertion.LowestParent`).

## Model

| member | source | states |
|---|---|---|
| Addressing.BucketAddressIsLinear | projects/NativeAPITest/lkrhash.h:1282-1313 | the two masks and the split index compute linear hashing by its definition (one more signature bit if that bucket exists), and the address is below the number of active buckets |
| Addressing.ActiveDeterminesAddr | projects/NativeAPITest/TestLKRHashing.cpp:2654-2674 | level, split index and both masks are a function of the number of buckets: two address states with as many buckets are the same state |
| Addressing.ExpandContractInverse | projects/NativeAPITest/TestLKRHashing.cpp:3326-3340 | contraction undoes expansion and expansion undoes contraction, masks included |
| Addressing.ExpansionSplitsOneBucket | projects/NativeAPITest/TestLKRHashing.cpp:3138-3151 | an expansion re-addresses exactly the signatures of the split bucket whose next bit is set, to the new bucket |
| Addressing.ContractionMergesOneBucket | projects/NativeAPITest/TestLKRHashing.cpp:3326-3350 | a contraction sends every signature of the last bucket to its buddy and moves no other |
| Addressing.SavedAddressIsCurrent | projects/NativeAPITest/TestLKRHashing.cpp:3153-3166 | the saved split index and mask used after the table lock is dropped give the table's own addresses |
| Addressing.InitialAddr | projects/NativeAPITest/TestLKRHashing.cpp:2647-2674 | the mask-growing loop reaches a well-formed address state for any initial number of buckets |
| Bits.PowerOfTwoTest | projects/NativeAPITest/TestLKRHashing.cpp:442-445 | the test by mask recognises exactly the powers of two |
| Bits.ExtendMaskIsNextMask | projects/NativeAPITest/TestLKRHashing.cpp:3142-3147 | shifting a one into a mask of k ones gives the mask of k + 1 ones in 32 bits |
| Clumps.PackedCount | projects/NativeAPITest/lkrhash.h:627-717 | in a compact chain all clumps but the last are full, so the clumps are as few as the records allow |
| Placing.Place | projects/NativeAPITest/TestLKRHashing.cpp:3226-3262 | storing a record in the next slot, taking a clump from the free list when the target is full, appends it and keeps every clump |
| Splitting.SplitConserves | projects/NativeAPITest/TestLKRHashing.cpp:3180-3300 | moving and staying records together are the old bucket's records, with multiplicity |
| Splitting.FullTargetLeavesOne | projects/NativeAPITest/TestLKRHashing.cpp:3126-3137 | when a target clump fills, the two targets have used no more clumps than have been scanned, so one is still spare |
| Splitting.SplitRecordSet | projects/NativeAPITest/TestLKRHashing.cpp:3180-3300 | for a chain of any length and any division of its records one spare clump suffices (none for a single clump); both chains end compact with the right records in order, and every clump is linked or freed once |
| Merging.Surplus | projects/NativeAPITest/TestLKRHashing.cpp:3357-3391 | the slot-by-slot count is records to move minus empty slots to receive them |
| Merging.FindRoom | projects/NativeAPITest/TestLKRHashing.cpp:3524-3552 | the search stops at the target chain's last clump, behind its last record |
| Merging.SurplusSuffices | projects/NativeAPITest/TestLKRHashing.cpp:3393-3414 | zero, one or two spare clumps as the surplus calls for, plus the clumps retired so far, leave one whenever the target fills |
| Merging.MergeRecordSets | projects/NativeAPITest/TestLKRHashing.cpp:3513-3651 | with the spare clumps the surplus calls for, the free list never runs dry on chains of any length; the target holds its records then the old ones, compact, and every clump is linked or freed once |
| Chains.Walk | projects/NativeAPITest/TestLKRHashing.cpp:1392-1426 | stopping at the first empty slot misses no record: the walk ends on the first wanted record, or there is none |
| Chains.InsertItem | projects/NativeAPITest/TestLKRHashing.cpp:786-873 | the insertion finds the key or the chain's end; it overwrites, refuses, appends or fails for lack of a clump, and the chain stays compact |
| Deleting.DeleteNode | projects/NativeAPITest/TestLKRHashing.cpp:1203-1341 | the last record fills the hole, an emptied last clump is freed, and the caller's cursor, advanced by one, stands exactly where the deleted record was |
| Sweeping.SweptEnd | projects/NativeAPITest/TestLKRHashing.cpp:2019-2084 | when the cursor reaches the end, each record present at the start has been asked about exactly once and exactly the spared ones are left |
| Sweeping.SweepChain | projects/NativeAPITest/TestLKRHashing.cpp:2019-2084 | a sweep with deletions under its cursor asks about each record of a chain once, deletes exactly those condemned, and stops only after an abort or stop answer |
| Directories.SetBucketFrame | projects/NativeAPITest/lkrhash.h:1317-1337 | storing through segment and slot index changes that bucket and no other |
| Directories.InitialDirSize | projects/NativeAPITest/TestLKRHashing.cpp:2676-2695 | the initial directory has a proper size, and covers the initial buckets if and only if they fill whole segments or the whole segments are no directory size |
| Directories.UncoveredInitialSize | projects/NativeAPITest/TestLKRHashing.cpp:2676-2695 | 513 buckets in segments of 64: nine segments, eight directory entries |
| Directories.HalvingKeepsChains | projects/NativeAPITest/TestLKRHashing.cpp:3468-3490 | halving a directory whose lower half spans the active buckets loses no record |
| Directories.FreedSegmentKeepsChains | projects/NativeAPITest/TestLKRHashing.cpp:3444-3466 | freeing the segment that starts at the first inactive bucket loses no record |
| Directories.HeldCount | projects/NativeAPITest/TestLKRHashing.cpp:2707-2715 | the segments held are those the active buckets need and the spare ones |
| Contents.ScanFinds | projects/NativeAPITest/TestLKRHashing.cpp:1392-1426 | in a bucket that holds exactly its share of the map, a scan by signature and key finds the map's record, or the map has none |
| Contents.SplitBucket | projects/NativeAPITest/TestLKRHashing.cpp:3204-3262 | dividing the split bucket by the new addresses leaves both buckets exact |
| Contents.MergedBucket | projects/NativeAPITest/TestLKRHashing.cpp:3513-3651 | the last bucket's records appended to the buddy's leave the buddy exact |
| TableStates.DeletedState | projects/NativeAPITest/TestLKRHashing.cpp:1203-1341 | after a deletion the table stands for the map without that record's key, and its clumps balance |
| TableStates.DoubledState | projects/NativeAPITest/TestLKRHashing.cpp:3053-3085 | doubling a full directory keeps the table's map and makes room for the next bucket |
| Relocations.PrimeSplit | projects/NativeAPITest/TestLKRHashing.cpp:3126-3137 | one clump is asked for exactly when the bucket to split has more than one, and no other; refused, none is kept |
| Relocations.PrimeMerge | projects/NativeAPITest/TestLKRHashing.cpp:3393-3414 | none, one or two clumps are asked for exactly as the surplus calls for; when the second is refused the first is given back |
| Relocations.SplitBuckets | projects/NativeAPITest/TestLKRHashing.cpp:3110-3170 | after the relocation the table stands for the same map under the advanced addresses, and the clumps in use are those before, the spare ones and the new bucket's, less those freed |
| Relocations.MakeRoom | projects/NativeAPITest/TestLKRHashing.cpp:3053-3110 | how far an expansion gets is decided by the first request refused; the directory doubles exactly when it is full and granted, and the new segment is held from then on |
| Relocations.GrownSpares | projects/NativeAPITest/TestLKRHashing.cpp:3087-3110 | a segment added is spare exactly as long as the bucket it was added for is not active and would be its first |
| Relocations.ShrinkDirectory | projects/NativeAPITest/TestLKRHashing.cpp:3437-3490 | no other bucket is lost; the last bucket's segment is freed exactly when the bucket was its first; the directory is halved exactly when its lower half spans the buckets and memory is granted; a segment is lost if and only if it was spare and lies in the half dropped |
| Relocations.LostSegments | projects/NativeAPITest/TestLKRHashing.cpp:3468-3490 | whatever the half dropped still held was beyond what the buckets needed, or had just been freed |
| Relocations.MergeBuckets | projects/NativeAPITest/TestLKRHashing.cpp:3437-3502 | after the merge the table stands for the same map under the stepped-back addresses, with the clumps balanced |
| Relocations.FoldLast | projects/NativeAPITest/TestLKRHashing.cpp:3357-3502 | a contraction succeeds if and only if the clumps its surplus calls for are granted, and then accounts for every clump and every segment |
| References.OverwriteNeverDips | projects/NativeAPITest/TestLKRHashing.cpp:854-865 | between the two callbacks of an overwrite no record's count is below what it was or will be; self-overwrite changes nothing |
| LoadControl.SparseIsBounded | projects/NativeAPITest/TestLKRHashing.cpp:1017-1035 | a table sparse enough to contract has fewer records than its remaining buckets plus one allow |
| BucketSteps.LookUp | projects/NativeAPITest/TestLKRHashing.cpp:1387-1442 | a look-up in the addressed bucket answers with the map's record for the key, or with none exactly when the map has none |
| BucketSteps.InsertInBucket | projects/NativeAPITest/TestLKRHashing.cpp:755-873 | an insertion in the addressed bucket leaves the table standing for the updated map, with its clumps balanced |
| BucketSteps.RemoveFromBucket | projects/NativeAPITest/TestLKRHashing.cpp:975-1012 | the first wanted record is taken out of the table, or no record of that signature is wanted |
| Purging.ReleasedRefs | projects/NativeAPITest/TestLKRHashing.cpp:1226-1227 | releasing distinct records of the table keeps reference counts in agreement with slots and finds handed out |
| TableSweeps.SweepBuckets | projects/NativeAPITest/TestLKRHashing.cpp:2000-2088 | over all buckets, no record is asked about twice and, unless stopped, every record once; exactly the condemned ones are gone and the count is theirs |
| TableResets.PresetSizes | projects/NativeAPITest/lkrhash.h:814-911 | the three preset table sizes meet the condition under which the initial directory covers the buckets |
| TableResets.SetUp | projects/NativeAPITest/TestLKRHashing.cpp:2647-2735 | a new table is empty and well-formed, or one request failed and everything has been given up |
| TableResets.ReleaseBuckets | projects/NativeAPITest/TestLKRHashing.cpp:2259-2304 | clearing releases each record exactly once and frees every clump but the buckets' own |
| TableResets.FreeSegments | projects/NativeAPITest/TestLKRHashing.cpp:2309-2313 | the clearing loop frees exactly the segments the active buckets need; the spare ones are left in the directory |
| TableResets.AllReleased | projects/NativeAPITest/TestLKRHashing.cpp:2259-2306 | after clearing, the only references left are those handed out by finds |
| LinearTables.LinearHashTable.constructor | projects/NativeAPITest/TestLKRHashing.cpp:236-330 | a new table is in use and empty with no segment spare or lost, or a request failed |
| LinearTables.LinearHashTable.Expand | projects/NativeAPITest/TestLKRHashing.cpp:3040-3172 | success exactly when no request is refused and the size limit not reached; it advances the address by one step, and the clumps in use are those before, the one requested and the new bucket's, less those freed; failure restores the address variables and clumps; a segment becomes spare exactly when a clump is refused at a segment's first bucket |
| LinearTables.LinearHashTable.Contract | projects/NativeAPITest/TestLKRHashing.cpp:3311-3502 | success exactly when there is more than one segment and the clumps called for are granted; it steps the address back with clumps and segments accounted for; failure changes nothing; exactly the spare segments in the half of the directory dropped are lost |
| LinearTables.LinearHashTable.InsertRecord | projects/NativeAPITest/TestLKRHashing.cpp:741-917 | return code, map, reference callbacks and load after an insertion: key-exists exactly without overwrite, allocation failure only for a new key, records at most MaxLoad per bucket unless growth was refused |
| LinearTables.LinearHashTable.FindKey | projects/NativeAPITest/TestLKRHashing.cpp:1359-1442 | the map's record with one reference handed out, or no such key exactly when the map has none |
| LinearTables.LinearHashTable.DeleteKey | projects/NativeAPITest/TestLKRHashing.cpp:958-1039 | exactly that key leaves the map, its record is released once, and the table has shrunk to its load or one segment unless contraction was refused |
| LinearTables.LinearHashTable.DeleteRecord | projects/NativeAPITest/TestLKRHashing.cpp:1079-1165 | deletes only this very record, not one with an equal key |
| LinearTables.LinearHashTable.DeleteIf | projects/NativeAPITest/TestLKRHashing.cpp:2000-2088 | each record asked about exactly once unless stopped; exactly the condemned ones leave the map and are released |
| LinearTables.LinearHashTable.Clear | projects/NativeAPITest/TestLKRHashing.cpp:2240-2336 | the map is empty and all slot references released; a table that had records is back at its preset size, or out of use because a request failed, and exactly its spare segments are lost |
| LinearTables.LinearHashTable.Destroy | projects/NativeAPITest/TestLKRHashing.cpp:456-468 | destruction leaves no bucket, clump or directory; the segments never freed are the spare ones and those lost before |
| LinearTables.ExpandAndContract | projects/NativeAPITest/TestLKRHashing.cpp:3040-3502 | in a table without spare segments, an expansion and a contraction lose a segment if and only if the expansion was refused a clump at a segment's first bucket and the contraction leaves no directory entry for that segment |
| LinearTables.FailedExpansionLosesASegment | projects/NativeAPITest/TestLKRHashing.cpp:3053-3490 | from a full directory whose next split bucket has several clumps, one refused clump and then memory enough lose a segment |
| LinearTables.CrowdedTable | projects/NativeAPITest/TestLKRHashing.cpp:3053-3137 | there is such a full directory: 64 buckets in segments of 8, with all records in bucket 0 and one more of them than a clump holds |
| HashTables.RoutingIsModulo | projects/NativeAPITest/TestLKRHashing.cpp:667-687 | the masked form and the remainder form of subtable selection agree |
| HashTables.RouteInRange | projects/NativeAPITest/TestLKRHashing.cpp:667-687 | the subtable index is always in range |
| HashTables.Served | projects/NativeAPITest/TestLKRHashing.cpp:926-947 | changing a key in the subtable its signature selects changes the whole table's map at that key only |
| HashTables.AllAccounted | projects/NativeAPITest/TestLKRHashing.cpp:926-947 | reference counts that agree in every subtable agree for the whole table: a record is counted in no subtable but its own |
| HashTables.HashTable.constructor | projects/NativeAPITest/TestLKRHashing.cpp:346-448 | all subtables are set up, or the table is out of use |
| HashTables.HashTable.Clear | projects/NativeAPITest/TestLKRHashing.cpp:2345-2352 | the map is empty; a subtable that cannot be set up anew puts the whole table out of use |
| HashTables.PartSwept | projects/NativeAPITest/TestLKRHashing.cpp:1805-1811 | a subtable swept after others adds its count, continues the numbering of the predicate's calls, and leaves the subtables dividing the whole map |
| HashTables.AllSwept | projects/NativeAPITest/TestLKRHashing.cpp:1805-1811 | when all subtables have been swept, every record of the whole table has been asked about exactly once |
| HashTables.HashTable.DeleteIf | projects/NativeAPITest/TestLKRHashing.cpp:1788-1819 | each record of the whole table is asked about at most once, and exactly once unless the predicate stops the sweep; exactly the condemned ones leave the map, and the counts of the subtables add up to their number |
| HashTables.Run | projects/NativeAPITest/TestLKRHashing.cpp:926-1197 | over any sequence of inserts, finds, deletions by key, record or predicate, and clears, with any refused allocations, return codes and found records are those of a map from keys to records; in every state each record's references are one if the map has it and one for each find that returned it; with no request refused, loads stay bounded while no subtable is at its size limit, and no segment is ever spare or lost |
| LockTheorems.StepKeeps | projects/NativeAPITest/TestLKRHashing.cpp:3049-3171 | every step of every thread keeps the protocol invariant |
| LockTheorems.RunKeeps | projects/NativeAPITest/TestLKRHashing.cpp:3049-3171 | every state of every run satisfies the invariant |
| LockTrims.CoTrimKeeps | projects/NativeAPITest/TestLKRHashing.cpp:3444-3490 | giving up a segment and half of the directory keeps the invariant, whatever failed expansions still have locked there |
| LockSafety.LockedBucketIsCurrent | projects/NativeAPITest/TestLKRHashing.cpp:756-770 | whenever nobody holds the table lock for writing, each operation's bucket lock is on the bucket its signature addresses now |
| LockSafety.BucketDecides | projects/NativeAPITest/TestLKRHashing.cpp:3153-3171 | in the bucket an operation has locked, a key's record is there if and only if the map has the key, though relocation runs after the table lock is dropped |
| LockSafety.OperationsAreAtomic | projects/NativeAPITest/TestLKRHashing.cpp:772-876 | what an operation does by looking at its bucket alone is what a map would do |
| LockSafety.FindsTheRecord | projects/NativeAPITest/TestLKRHashing.cpp:1366-1436 | a find under its bucket lock succeeds exactly when the map has the key, with the map's record |
| LockSafety.NothingLostOrDoubled | projects/NativeAPITest/TestLKRHashing.cpp:3153-3171 | stored records and records in transit together are the map's, each in exactly one place |
| LockSafety.LockedBucketIsActive | projects/NativeAPITest/TestLKRHashing.cpp:3123-3168 | while the table is not write-held, a locked bucket is inactive if and only if its holder is an expansion that failed for a clump and it is the bucket that expansion did not activate |
| LockSafety.LockedHasSegment | projects/NativeAPITest/TestLKRHashing.cpp:3123-3168 | the segment of every locked bucket is in the directory |
| LockSafety.SegmentTakenAway | projects/NativeAPITest/TestLKRHashing.cpp:3444-3490 | another thread's step takes a locked bucket away if and only if it takes its segment out of the directory; it is then a contraction giving up segments, and the bucket that of a failed expansion |
| LockSafety.WhenTheSegmentGoes | projects/NativeAPITest/TestLKRHashing.cpp:3444-3490 | that segment is freed if and only if it starts at the bucket just deactivated, and forgotten if and only if it is not and lies in the half of the directory dropped |
| LockSafety.InactiveBucketLocked | projects/NativeAPITest/TestLKRHashing.cpp:3126-3168 | from every address state within the size limit, with one record more than a clump holds in the bucket to split, a run reaches a lock on an inactive bucket |
| LockSafety.SegmentFreedUnderLock | projects/NativeAPITest/TestLKRHashing.cpp:3158-3466 | and when the last bucket is its segment's first, the run goes on to free the segment of the bucket still locked |
| LockSafety.SomeoneIsNotBlocked | projects/NativeAPITest/TestLKRHashing.cpp:4664-4707 | while any thread is at work, some thread at work waits for no lock |
| LockSafety.UnblockedMoves | projects/NativeAPITest/TestLKRHashing.cpp:3114-3168 | a thread at work that waits for no held lock has a step to take |
| LockSafety.NoDeadlock | projects/NativeAPITest/TestLKRHashing.cpp:4664-4707 | no reachable state is deadlocked |
| ChainTables.FindNode | projects/NativeAPITest/IISLib/hashtable.h:323-375 | the scan stops at the key's node if and only if the chain has one, else where all before hash to no more and all behind to more |
| ChainTables.InsertSorted | projects/NativeAPITest/IISLib/hashtable.h:643-652 | a node inserted behind all of smaller or equal hash keeps the order of equal hashes |
| ChainTables.WithHashCount | projects/NativeAPITest/IISLib/hashtable.h:636-656 | nodes are counted as often among those of their hash as in the chain |
| ChainTables.AllWithHash | projects/NativeAPITest/IISLib/hashtable.h:636-656 | all nodes of a hash lie in that hash's bucket, in that bucket's order |
| ChainTables.RehashAll | projects/NativeAPITest/IISLib/hashtable.h:632-656 | the new buckets hold exactly the old nodes, each at hash modulo the new size, sorted |
| ChainTables.RehashedOk | projects/NativeAPITest/IISLib/hashtable.h:632-656 | the rebuilt table is proper and has, per hash, the same nodes in the same order |
| ChainTables.SameAnswers | projects/NativeAPITest/IISLib/hashtable.h:588-666 | every look-up finds the same node, or none, before and after |
| ChainTables.ChainTable.FindKey | projects/NativeAPITest/IISLib/hashtable.h:379-400 | the record of the key's node, or no node of the table has the key |
| ChainTables.ChainTable.DeleteKey | projects/NativeAPITest/IISLib/hashtable.h:497-516 | exactly the node of that key goes, and the count follows |
| ChainTables.ChainTable.DeleteIf | projects/NativeAPITest/IISLib/hashtable.h:520-556 | exactly the nodes whose records are condemned go |
| ChainTables.ChainTable.RehashIfNeeded | projects/NativeAPITest/IISLib/hashtable.h:588-666 | the same table for every look-up, of the new size exactly when the items outnumber it and memory is there, and otherwise untouched |
| CasTables.LinkedChain | projects/NativeAPITest/IISLib/hashtable.h:469-471 | a node linked between smaller-or-equal and greater hashes keeps the chain sorted and its keys distinct |
| CasTables.ScanStays | projects/NativeAPITest/IISLib/hashtable.h:345-365 | another thread's insertion never lands among the nodes a scan has passed |
| CasTables.StepKeeps | projects/NativeAPITest/IISLib/hashtable.h:444-478 | every step of every thread keeps the invariant and loses no node |
| CasTables.RunKeeps | projects/NativeAPITest/IISLib/hashtable.h:444-478 | in every state of every run chains are sorted, keys distinct, nothing inserted is lost, and the nodes number the item count plus insertions between compare-and-swap and increment |
| CasTables.ScansAreRight | projects/NativeAPITest/IISLib/hashtable.h:323-375 | a scan that stops at a key's node is right, and one that finds none was begun when the key was absent |
| Trees.UnderLinear | projects/NativeAPITest/IISLib/treehash.h:550-567 | of two paths above the same path one is above the other |
| Trees.SiblingsDisjoint | projects/NativeAPITest/IISLib/treehash.h:639-654 | subtrees of different children share no path |
| TreeInsertion.LowestParent | projects/NativeAPITest/IISLib/treehash.h:550-567 | the backward loop finds the longest present path leading to the key, and leaves a NUL at each separator below it; exactly for the empty key its first read is outside the buffer |
| TreeInsertion.AddNode | projects/NativeAPITest/IISLib/treehash.h:412-513 | a new node comes behind the nodes of its chain that do not hash higher and first among its parent's children, and nothing else changes; an existing one is given the record it lacked; the forest invariant survives |
| TreeInsertion.UnderCuts | projects/NativeAPITest/IISLib/treehash.h:550-591 | the paths at or above the key are exactly its cuts at separators above index 0 |
| TreeInsertion.InsertRecord | projects/NativeAPITest/IISLib/treehash.h:548-591 | exactly the missing ancestors and the key's node are created; an existing record is kept; a refused node leaves a forest without the record; only the empty key goes astray |
| TreeDeletion.AncestorPresent | projects/NativeAPITest/IISLib/treehash.h:606-658 | below a node of the forest every path above it has a node |
| TreeDeletion.DeleteNode | projects/NativeAPITest/IISLib/treehash.h:606-658 | the recursion removes exactly the node and everything below it from chains and links, counts them, and terminates on the nodes left |
| TreeRehashing.RehashAll | projects/NativeAPITest/IISLib/treehash.h:819-839 | every node is taken out of the old chains and placed in the new ones by the new remainder, sorted, none lost or doubled |
| TreeTables.TreeTable.RehashIfNeeded | projects/NativeAPITest/IISLib/treehash.h:770-849 | more chains exactly when the nodes outnumber the new size and memory is there; paths, records, parents and children stay, and the forest invariant holds with the new chains |
| TreeTables.TreeTable.InsertRecord | projects/NativeAPITest/IISLib/treehash.h:515-602 | the table's forest after an insertion and the rehash that follows a success, and why it may fail |
| TreeTables.TreeTable.DeleteKey | projects/NativeAPITest/IISLib/treehash.h:660-679 | exactly the paths at or below the key go, all other nodes keep path and record |
| TreeTables.TreeTable.DeleteIf | projects/NativeAPITest/IISLib/treehash.h:681-739 | exactly the condemned records are dropped, and exactly those nodes go at or below which every record is condemned and every node is visited before its parent |
| TreeTables.GoneStep | projects/NativeAPITest/IISLib/treehash.h:698-735 | such a node is one whose record may go and whose children have all gone when it is visited |
| TreeTables.LeafGoes | projects/NativeAPITest/IISLib/treehash.h:712-722 | a node without children goes if and only if it has no record or a condemned one |
| TreeTables.AncestorsStay | projects/NativeAPITest/IISLib/treehash.h:719-727 | the nodes above a node or a record that stays all stay |
| TreeTables.TreeTable.FindKey | projects/NativeAPITest/IISLib/treehash.h:385-408 | the record stored for a path, or no node of that path has one |
| TreeCas.SwapFits | projects/NativeAPITest/IISLib/treehash.h:446-486 | a compare-and-swap succeeds only where the node belongs in its sorted chain, and only if no node of its path has come in since the scan began |
| TreeCas.ScanGoesOn | projects/NativeAPITest/IISLib/treehash.h:362-381 | another thread's insertion never lands among the nodes a scan has passed, and a scan never skips its own path's node |
| TreeCas.StepKeeps | projects/NativeAPITest/IISLib/treehash.h:412-602 | every step of every inserting thread keeps the invariant; no node, record, parent link or listed child is lost or changed |
| TreeCas.ForestInEveryState | projects/NativeAPITest/IISLib/treehash.h:412-602 | in every state of every run with any number of inserting threads, every node is in its chain and every path above a node has a node; a child list lacks a child exactly while a thread is between linking that node into its chain and into the list; the nodes number the item count and those not yet counted |
| TreeCas.AtRest | projects/NativeAPITest/IISLib/treehash.h:412-602 | when no thread is at work the forest is one that insertions one by one could have left, with the right count |
| TreeCas.InsertionLasts | projects/NativeAPITest/IISLib/treehash.h:515-602 | once an insertion has ended other than for want of memory, in all later states its key's node has a record, its own unless there was one before, and all paths above the key have nodes |
| Base64.PaddingOnlyAtTheEnd | projects/NativeAPITest/IISLib/base64.cpp:108-118 | a character is padding exactly when it is one of the last one or two as the size modulo 3 tells |
| Base64.OverflowMeansWrapped | projects/NativeAPITest/IISLib/base64.cpp:79-103 | the buffer runs out inside the loop only when the announced size has wrapped |
| Base64.Base64Encode | projects/NativeAPITest/IISLib/base64.cpp:49-125 | status for every buffer; on success the buffer holds the standard encoding and a NUL, exactly of the announced size; nothing is written beyond the buffer; the overflow exits are taken exactly when the size does not fit a DWORD |
| Base64.SmallestThatWraps | projects/NativeAPITest/IISLib/base64.cpp:43-103 | the encoded size fits a DWORD exactly below 3221225470 bytes, for which a buffer of one character is announced |
| Base64.Base64Decode | projects/NativeAPITest/IISLib/base64.cpp:179-241 | status for every string and buffer; on success exactly the announced bytes are written, and nothing beyond them in any case |
| Base64.DecodeOfEncode | projects/NativeAPITest/IISLib/base64.cpp:49-241 | decoding an encoding gives every non-empty byte string back |
| Base64.EncodeOfDecode | projects/NativeAPITest/IISLib/base64.cpp:179-241 | encoding what was decoded gives the string back if and only if '=' is padding only and no bits are stray |
| Base64.PadInsideIsAccepted | projects/NativeAPITest/IISLib/base64.cpp:159-170 | '=' inside a string decodes as zero bits |
| EscapeCodes.EveryPercentStartsATriplet | projects/NativeAPITest/IISLib/stringa.cpp:773-800 | every '%' of an escaped text starts two hexadecimal digits and never a %u escape |
| EscapeCodes.PlainOfEscaped | projects/NativeAPITest/IISLib/stringa.cpp:692-824 | decoding every escape of an escaped text gives the text back |
| EscapeCodes.UnescapeAfterEscape | projects/NativeAPITest/IISLib/stringa.cpp:858-938 | Unescape after Escape restores every NUL-free text, for any test that escapes '%' |
| EscapeCodes.UrlRoundTrip | projects/NativeAPITest/IISLib/stringa.cpp:606-623 | the URL test is such a test |
| EscapeCodes.UnescapeIsFaithful | projects/NativeAPITest/IISLib/stringa.cpp:895-930 | Unescape does what it documents if and only if only '%'s stand between the first '%' and the first escape, or there is none |
| EscapeCodes.TextBeforeAnEscapeIsLost | projects/NativeAPITest/IISLib/stringa.cpp:895-930 | "%z%41" becomes "%A" |
| EscapeCodes.Utf8RoundTrip | projects/NativeAPITest/IISLib/stringa.cpp:592-604 | Unescape after EscapeUtf8 restores a NUL-free text if and only if the text holds no escape and nothing but '%' stands between its first '%' and its first byte above 127 |
| EscapeCodes.Utf8DoesNotRoundTrip | projects/NativeAPITest/IISLib/stringa.cpp:592-604 | an example: EscapeUtf8 leaves "%41", which comes back as "A" |
| Stras.EscapeIsRight | projects/NativeAPITest/IISLib/stringa.cpp:692-824 | a reported success is the right text if and only if no unescaped character's append both outgrew the temporary buffer and was refused; that cannot happen if the escaped text fits the buffer escaping starts with |
| Stras.LossIsPossible | projects/NativeAPITest/IISLib/stringa.cpp:802-810 | there are refusals under which a loss goes unreported if and only if a character that needs no escape, after one that does, outgrows that buffer |
| Stras.SuccessWithALostCharacter | projects/NativeAPITest/IISLib/stringa.cpp:802-810 | such a text: 170 '%' and two letters, of which the last needs byte 513 |
| Stras.Decodes | projects/NativeAPITest/IISLib/stringa.cpp:865-894 | decoding an escape in place keeps destination behind scan pointer and the text read so far decoded |
| Stras.Stra.Escape | projects/NativeAPITest/IISLib/stringa.cpp:692-824 | success or failure and the resulting text for every text and every pattern of refused memory, memory being asked for exactly where a buffer is outgrown |
| Stras.Stra.Unescape | projects/NativeAPITest/IISLib/stringa.cpp:858-938 | the in-place loop computes the stated result on every text, %u escapes and decoded NULs included |
| MultiStrings.StringsOfPack | projects/NativeAPITest/IISLib/multisz.h:186-191 | reading a packed list gives its strings back, whatever follows |
| MultiStrings.PackOfStrings | projects/NativeAPITest/IISLib/multisz.cpp:26-46 | packing what was read gives the buffer back up to the list's end |
| MultiStrings.AppendedList | projects/NativeAPITest/IISLib/multisz.cpp:222-229 | text written over the final terminator with a new double one adds exactly the strings it holds |
| MultiStrings.OneString | projects/NativeAPITest/IISLib/multisz.cpp:160-232 | one string more, or none for the empty string |
| MultiStrings.CalcLength | projects/NativeAPITest/IISLib/multisz.cpp:26-46 | length with all terminators, and number of strings |
| MultiStrings.MultiSz.Append | projects/NativeAPITest/IISLib/multisz.cpp:160-232 | the list grows by the strings appended; it is unchanged, and the append fails, exactly when the buffer is outgrown and memory refused |
| MultiStrings.MultiSz.Copy | projects/NativeAPITest/IISLib/multisz.h:97-105 | the list becomes the other's, or empty when memory is refused or it is copied onto itself; it then reads memory given up exactly when it must grow |
| MultiStrings.MultiSz.FindString | projects/NativeAPITest/IISLib/multisz.cpp:49-81 | found if and only if the list has the string |
| MultiStrings.MultiSz.Equals | projects/NativeAPITest/IISLib/multisz.cpp:340-372 | true if and only if the lists are equal |
| MultiStrings.SplitCommaDelimitedString | projects/NativeAPITest/IISLib/multisz.cpp:374-473 | the non-empty, possibly trimmed entries in order, whatever the flag for empty ones says; when the memory for an entry is refused, the entries before it |
| MultiStrings.EntriesOfJoined | projects/NativeAPITest/IISLib/multisz.cpp:414-468 | a list written with commas is read back if and only if no entry is empty or holds a comma |
| MultiStrings.EmptyEntriesAreKept | projects/NativeAPITest/IISLib/multisz.cpp:440-462 | the list has all the pieces, the empty ones included, if and only if none is empty |
| MultiStrings.EmptyEntryIsLost | projects/NativeAPITest/IISLib/multisz.cpp:440-462 | "a,,b" has three pieces and leaves two strings |

## Left out

* Chain pointers: a chain is a sequence of clumps, so a next pointer is a position and two clumps never share one. Slot signature and record pointer are set and cleared together.
* The records' memory, the user's key extraction, hashing and equality: a key is a class of equal keys with its signature. That no signature is the reserved one, and that equal keys have equal hashes, is assumed as the header demands.
* The table lock and bucket locks are ideal reader/writer locks; their implementation, spin counts and fairness are not modelled.
* The locking model makes the expansion's size test atomic with taking the table lock, and has no clear; a whole-table operation there takes all table locks in order, visits buckets and may delete records.
* `Apply`, `ApplyIf` and iterators, `_Erase` included: `ApplyIf` is the sweep of `DeleteIf` with callbacks; iterators add positions that outlive the lock.
* `CheckTable`, statistics, multiple keys, and the choice of the number of subtables.
* Counters do not wrap, and MaxLoad is a real number.
* Calls on a table out of use return its state in `HashTables`; in `LinearTables` a table in use is demanded instead.
* `TreeCas` has no rehash, which takes the lock exclusively between insertions; an empty key, for which the search has no bounds; nor the memory of nodes allocated and not linked in.
* `TREE_HASH_TABLE` paths are compared exactly; comparison without case is taken as done on folded paths.
- TreeInsertion.InsertRecord: promises nothing about the forest for the empty key, for which the source's index of the last character wraps below zero and memory outside the buffer is read and may be written.
- TreeTables.TreeTable.InsertRecord: likewise for the empty key.
- TreeInsertion.AddNode: one thread at a time; the compare-and-swaps of several threads are the steps of `TreeCas`.
* The failure of the first copy in `TREE_HASH_TABLE::InsertRecord`, which releases a lock not yet taken.
* Reference counts of `HASH_TABLE` and `TREE_HASH_TABLE` records.
* `PRIME::GetPrime`: rehashing takes any size of at least twice the old one.
* `STRA` texts of 2 GB and more on 32-bit builds, where further size guards apply. The conversion of %u escapes to the code page is a parameter of at most six bytes.
- EscapeCodes.Utf8RoundTrip: assumes that no character takes six bytes in the code page; a %u escape would then be no shorter decoded than written.
* The second-width Base64 functions and `multisza`, which repeat the ones modelled, and comparisons without case.
* `MULTISZ` appends whose buffer size would overflow.
