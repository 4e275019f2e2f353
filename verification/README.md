# Address translation and caching of a paged-CPU emulator, in Dafny

This project models the core of a teaching emulator for virtual memory. It
covers the path one memory access takes:

- **Address codec.** A 64-bit virtual address is split into four 9-bit
  page-directory indices (PGD, PUD, PMD, PTE) and a 12-bit page offset. The
  indices make the 36-bit virtual page number. A physical address is a 20-bit
  frame and a 12-bit offset (`addr.dfy`, module `Addr`).
- **Four-level page walk.** Memory is a sequence of 32-bit words. Each entry
  is the byte address of the next table. There are two variants: one checks
  each entry against the error code, the earlier one does not
  (`page_walk.dfy`, module `PageTable`).
- **Fully-associative TLB.** It has 128 entries. Replacement is driven by a
  doubly linked list of slot indices, modelled as a sequence that stays a
  permutation of 0..127 (`list.dfy`, module `EvictionList`; `tlb.dfy`,
  module `Tlb`).
- **Two-level direct-mapped TLB.** There are two 16-line level-1 TLBs
  (instruction and data) and a 64-line L2. Two versions exist, and they
  differ in how a fill in one level-1 TLB invalidates the other
  (`tlb_hrchy.dfy`, module `TlbHierarchy`).
- **Two-level cache.** L1 has 4 ways × 64 sets, L2 has 8 ways × 512 sets,
  and a line is 4 words. The L2 is exclusive of the L1 and acts as a victim
  cache. Replacement is by age, writes go through to memory, and a write
  miss allocates a line (`lru.dfy`, `cache.dfy`, `cache_hrchy.dfy`; modules
  `Lru`, `Cache`, `CacheHierarchy`). `cache_inv.dfy` (module
  `CacheInvariants`) states the invariant this hierarchy keeps and proves
  reads and writes correct against memory.
- **Command listing.** A simulation is a list of commands. Each command is
  checked for size, kind and alignment, then appended to a growable array.
  The model covers both versions of the file (`commands.dfy`, modules
  `Commands` and `GradedCommands`).

Everything is a pure function over immutable datatypes:

- Sets, lines, TLBs and memory are `seq`s.
- Shifts and masks are written as division and remainder by powers of two.
- Fixed widths are subset types such as `U32` and `Index9`.
- An operation that can fail returns a `Result`. Its error path is the
  source's error code.
- A C routine that only reads memory becomes a function with a "defined"
  predicate. The predicate says which words must exist, because the source
  never checks bounds.

Where the source does something other than what it evidently means, both
versions are modelled:

- an `…AsWritten` member follows the code, together with a lemma that shows
  the difference on a concrete input;
- the corrected member carries the intended property and is the one the
  rest of the model builds on.

These pairs are listed under "Findings".

## Assumptions about headers that are not part of this model

- Error codes: `ERR_BAD_PARAMETER` is -124. It is the fifth member of an
  enum that starts at -128. The checked page walk compares table entries with
  this value, converted to 32 bits.
- `cache_t` values are `L1_ICACHE = 0`, `L1_DCACHE = 1`, `L2_CACHE = 2`.
  This matters where the eviction code passes the enum as a way count.
- `foreach_way(v, n)` declares its own loop variable `v` and runs it over
  0 .. n-1.
- `HIT_WAY_MISS` is a value no way index takes. A miss is the `Miss` case of
  a datatype.
- Cache entries hold `v`, `age`, `tag` and `line[4]`. TLB entries hold a
  tag, a frame and `v`.
- The field shifts `PGD_PREV_SIZE` … `PTE_PREV_SIZE` are 39/30/21/12.
- Assertions are enabled. `move_back` calls `push_back` inside `assert`
  (done/list.c:85), so a build with `NDEBUG` would unlink the node and never
  put it back.
- `sizeof(command_t)` is a parameter `unit`, because `commands.h` is not
  part of this model.

## Replacement rules as the code has them

- **Ties go to the highest way.** The victim is chosen with `>=`
  (done/cache_mng.c:294). So of several oldest ways the highest index is
  evicted, where the usual rule breaks ties toward the lowest way. See
  `Cache.Victim`.
- **The update reads the live age.** `LRU_age_update` compares each way with
  the chosen way's age as it stands in the set being updated
  (done/lru.h:24). The loop has already set that age to 0, so ways after the
  chosen one never age.
  - `Lru.AgeUpdatePrior` is the usual rule, which compares against the
    chosen way's age before the update.
  - `Lru.UpdateAgainstPrior` and `Lru.LiveReadLosesOrder` state the
    difference.
  - `Lru.AgeUpdate` and the cache follow the code.
- **The update ignores valid bits.** Invalid ways are aged like valid ones.

## Model

| member | source | states |
|---|---|---|
| Addr.Widths | provided/addr.h:13-31 | The declared widths fit together: four 9-bit indices make the 36-bit page number, 16 + 36 + 12 = 64, 20 + 12 = 32, a directory has 512 entries, the field shifts 39/30/21/12 step by 9 down to the page offset, and MASK_49bits + 1 = 2^49 |
| Addr.InitVirtAddr | done/addr_mng.c:24-45 | init_virt_addr succeeds exactly when the offset is at most 0xFFF and every index at most 0x1FF; a failure is ERR_BAD_PARAMETER; on success the five fields read back as given and the reserved part is 0 |
| Addr.InitVirtAddr64 | done/addr_mng.c:47-57 | A 64-bit value is accepted exactly when it fits in 49 bits; the offset is its low 12 bits and each index the 9 bits at shift 12, 21, 30 or 39 |
| Addr.VirtualPageNumber | done/addr_mng.c:59-76 | The page number is below 2^36, and its four 9-bit slices, least significant first, are the PTE, PMD, PUD and PGD indices |
| Addr.VirtAddrToU64 | done/addr_mng.c:78-84 | The 64-bit form is below 2^48, with the page number above bit 12 and the page offset in the low 12 bits |
| Addr.InitPhyAddr | done/addr_mng.c:94-100 | The frame is the page whose 4096 bytes contain the page-start address; the offset is stored as given |
| Addr.PhysicalAddress | done/cache_mng.c:95-98 | The 32-bit address of a phy_addr_t splits back into its frame (above bit 12) and its offset |
| Addr.PhysicalRoundTrip | done/addr_mng.c:94-100 | Splitting a 32-bit physical address and packing it gives it back, and packing and splitting gives back frame and offset |
| Addr.VirtRoundTrip | done/addr_mng.c:47-84 | Every value below 2^48 survives init_virt_addr64 followed by virt_addr_t_to_uint64_t |
| Addr.Bit48Dropped | done/addr_mng.c:50-56 | A value with bit 48 set passes the 49-bit check but comes back without bit 48 |
| Addr.ComposeDecompose | done/addr_mng.c:47-84 | Converting an address to 64 bits and decoding it gives back every field; only the reserved part is reset |
| PageTable.ReadPageEntry | done/page_walk.c:6-13 | The entry for index i of a table at byte address b is the memory word holding byte b + 4i, with b taken down to a whole word |
| PageTable.PageWalkUnchecked | grading/projet01/done/page_walk.c:14-23 | The earlier walk keeps the virtual page offset; `PageTable.UncheckedIsChain` states its frame and when it is defined |
| PageTable.PageWalk | done/page_walk.c:16-37 | The checked walk fails only with ERR_BAD_PARAMETER, and a successful walk keeps the virtual page offset |
| PageTable.UncheckedIsChain | grading/projet01/done/page_walk.c:6-23 | The earlier walk reads word index + base/4 at each level, starting at table 0 and following PGD, PUD, PMD, PTE. It can be carried out exactly when that chain exists in memory. Its frame is the last entry divided by 4096, and its offset is the virtual offset |
| PageTable.CheckedAgreesWithUnchecked | done/page_walk.c:6-37 | Wherever the earlier walk is defined, the checked walk is too. It fails exactly when one of the four entries met equals ERR_BAD_PARAMETER as a 32-bit word; otherwise it returns the earlier walk's address |
| EvictionList.IsEmptyList | done/list.c:12-16 | A list is empty exactly when it holds no node and neither end dangles |
| EvictionList.InitList | done/list.c:12-23 | A fresh list holds nothing and is_empty_list holds of it |
| EvictionList.PushBack | done/list.c:33-47 | push_back appends the value after every existing item; it needs a list with a node, as it dereferences the back |
| EvictionList.PushFront | done/list.c:49-62 | push_front puts the value before every existing item; it needs a list with a node |
| EvictionList.PopBack | done/list.c:64-71 | On an empty list nothing changes; popping the only node leaves a list that is not empty (one end still points at the freed node); otherwise the last item is removed and the rest kept in order |
| EvictionList.PopFront | done/list.c:72-79 | The same for the first item |
| EvictionList.PopUndoesPush | done/list.c:33-79 | On a list with a node, pop_back undoes push_back and pop_front undoes push_front |
| EvictionList.MoveBack | done/list.c:82-86 | For a node with both neighbours, move_back keeps the multiset of values, puts the node's value last and keeps every other value in its order |
| EvictionList.MoveBackDomain | done/list.c:82-86 | Where move_back is defined it is the corrected move; the front and the back node are outside its domain |
| EvictionList.MoveToBack | done/list.c:82-86 | Moving any node, front and back included, to the back keeps the values as a multiset, puts the moved value last and the others in their order |
| EvictionList.MoveToBackKeepsPermutation | done/tlb_mng.c:63-66 | Moving a node to the back keeps the list a permutation of the slot indices 0 .. n-1 |
| EvictionList.MoveBackOfBack | done/tlb_mng.c:63-66 | For the corrected move, which tlb_hit needs when the matching slot is already the most recently used one: moving the back node to the back changes nothing. The written move_back cannot do this, as the back node has no next node (see Findings) |
| Tlb.TlbEntryInit | done/tlb_mng.c:18-29 | The new entry is valid, carries pa's frame and the whole 36-bit page number of va as its tag (its 9-bit slices are va's indices) |
| Tlb.TlbFlushAsWritten | done/tlb_mng.c:31-44 | The flush as written returns ERR_NONE and leaves the TLB exactly as it was |
| Tlb.TlbFlush | done/tlb_mng.c:31-44 | The corrected flush leaves 128 entries, every one invalid and zeroed, as the flush of the direct-mapped TLBs does |
| Tlb.FlushLoopMapsPageZero | done/tlb_mng.c:35-39 | The entry the flush loop builds from virtual address 0 and frame 0 is valid and matches page 0, so the loop, even with its guards fixed, would map page 0 in every slot |
| Tlb.FlushedTlbMisses | done/tlb_mng.c:31-73 | After the corrected flush no lookup hits, whatever the eviction list, and the list is left as it was |
| Tlb.FlushDiscrepancy | done/tlb_mng.c:35-36 | A valid entry survives the written flush, while the intended flush invalidates it |
| Tlb.TlbInsert | done/tlb_mng.c:45-56 | tlb_insert overwrites exactly the given slot and keeps every other slot |
| Tlb.CompareDiscrepancy | done/tlb_mng.c:61-65 | An entry built for va matches va's page number, but the written comparison with the whole 48-bit address matches only when page number and offset are both 0 |
| Tlb.FindFromBack | done/tlb_mng.c:63-65 | Scanning the list from back to front, the result is the last position whose slot holds a valid entry for the page; none is found exactly when no slot named by the list matches |
| Tlb.TlbHit | done/tlb_mng.c:58-73 | A miss happens exactly when no listed slot holds the page, and changes nothing. On a hit, the slot answering is the most recently used matching one and it moves to the back of the list. The answer is that slot's frame with va's offset. The list stays a permutation of itself |
| Tlb.TlbSearch | done/tlb_mng.c:76-90 | The search hits exactly when tlb_hit does. A hit returns tlb_hit's address and eviction list and leaves the TLB unchanged. On a miss the code is ERR_NONE exactly when the page walk succeeds. A failed walk returns the walk's error and changes nothing. A successful walk returns the walked address, writes its translation into the slot at the front of the list, and moves that front to the back |
| Tlb.SearchThenHit | done/tlb_mng.c:76-90 | After a successful search, looking the same address up again hits, gives the same physical address and leaves the list as it is |
| Tlb.SearchKeepsPermutation | done/tlb_mng.c:86-88 | The replacement list stays a permutation of the 128 slot indices through every search |
| Tlb.MissEvictsFront | done/tlb_mng.c:83-88 | A miss replaces only the least recently used slot, the one at the front of the list |
| TlbHierarchy.HrchyFlush | grading/projet02/done/tlb_hrchy_mng.c:15-46 | A flushed TLB has LINES entries, all zero and invalid (done/tlb_hrchy_mng.c:8-40 is the same) |
| TlbHierarchy.HrchyEntryInit | grading/projet02/done/tlb_hrchy_mng.c:48-79 | The entry is valid, carries the frame, and its tag with the line index appended gives back the page number; the tag fits in 36 - log2(LINES) bits |
| TlbHierarchy.HrchyInsert | grading/projet02/done/tlb_hrchy_mng.c:81-119 | A line index of LINES or more is refused with ERR_BAD_PARAMETER and nothing changes; otherwise exactly that line is replaced |
| TlbHierarchy.HrchyHit | grading/projet02/done/tlb_hrchy_mng.c:131-141 | A TLB hits exactly when the line of the page holds a valid entry with the page's tag, and then answers with that entry's frame and the virtual offset |
| TlbHierarchy.FlushedMisses | grading/projet02/done/tlb_hrchy_mng.c:15-46 | Nothing hits in a flushed TLB |
| TlbHierarchy.InsertThenHit | grading/projet02/done/tlb_hrchy_mng.c:81-168 | Inserting the entry for a page at its line makes that page hit with the inserted frame |
| TlbHierarchy.HoldsIsUnique | grading/projet01/done/tlb_hrchy.h:14-28 | In a direct-mapped TLB, line and tag together name one page: two pages held at the same line are the same page |
| TlbHierarchy.CaseCheck | grading/projet02/done/tlb_hrchy_mng.c:153-163 | One case of the switch reads past the end of the array it was given exactly when vpn mod lines is not below the array's length. Within the array it hits exactly when the entry at line vpn mod lines is valid with tag vpn / lines, and then answers with that entry's frame and the virtual offset |
| TlbHierarchy.HrchyHitAsWritten | grading/projet02/done/tlb_hrchy_mng.c:121-168 | The fall-through version agrees with the intended lookup on every hit and on the L2 TLB. On a level-1 miss it goes on to the L2 case and returns exactly what that case returns on the level-1 array with 64 lines. That case reads past the 16-line array exactly when vpn mod 64 is 16 or more |
| TlbHierarchy.HitFallThroughCounterexample | grading/projet02/done/tlb_hrchy_mng.c:143-163 | A level-1 TLB holds page 16 at line 0. Page 64 misses in it, yet the fall-through lookup reports a hit for page 64 with page 16's frame |
| TlbHierarchy.Refill | grading/projet02/done/tlb_hrchy_mng.c:199-218 | After an L2 hit the level-1 TLB of the access hits with the same frame. Every other line of that TLB, L2, and the other level-1 TLB are unchanged |
| TlbHierarchy.FillAfterWalk | grading/projet02/done/tlb_hrchy_mng.c:219-251 | After a walk the page hits with the walked frame in L2 and in the level-1 TLB of the access. Every other line of all three TLBs is unchanged, and at the page's line the other level-1 entry keeps all but its valid bit. The checked variant clears that bit exactly when the L2 line being overwritten held a valid entry whose rebuilt level-1 tag equals the entry's tag. The unconditional variant always clears it |
| TlbHierarchy.HrchySearch | grading/projet02/done/tlb_hrchy_mng.c:169-253 | The search has three outcomes. A level-1 hit answers from level 1 and changes no TLB. Otherwise an L2 hit answers from L2 and refills the level-1 TLB of the access. Otherwise the page table is walked: a failed walk returns its error and changes nothing, and a successful one returns the walked address and does the checked fill. The hit flag is set exactly on a hit in either level, and a successful search leaves the answer in the level-1 TLB of the access |
| TlbHierarchy.HrchySearchUnconditional | done/tlb_hrchy_mng.c:159-232 | The same three outcomes for the other version, whose miss path does the unconditional fill |
| TlbHierarchy.SearchAgainHitsL1 | grading/projet02/done/tlb_hrchy_mng.c:187-196 | In both versions, after a successful search the same address is a level-1 hit: searching again returns the same address, sets the hit flag and changes no TLB |
| TlbHierarchy.VariantsDiffer | done/tlb_hrchy_mng.c:216-230 | The two versions give different results exactly on a miss in both levels with a successful walk, where the other level-1 TLB holds a valid entry at the page's line that is not backed by the L2 entry being evicted |
| TlbHierarchy.FillVariantsCounterexample | grading/projet02/done/tlb_hrchy_mng.c:240-241 | The data TLB holds page 80 at line 0 and L2 is empty. An instruction fill for page 0 keeps that data entry under the checked rule and drops it under the unconditional rule |
| TlbHierarchy.FlushedIsInclusive | grading/projet02/done/tlb_hrchy_mng.c:15-46 | Three flushed TLBs satisfy the inclusion invariant: every valid level-1 entry is backed by the L2 entry for the same page with the same frame |
| TlbHierarchy.RebuiltTagIsL1Tag | grading/projet02/done/tlb_hrchy_mng.c:227-231 | The 32-bit value `oldtag << 2 \| line >> 4` is the level-1 tag of the page the evicted L2 entry held |
| TlbHierarchy.FillKeepsInclusion | grading/projet02/done/tlb_hrchy_mng.c:222-251 | The miss path keeps the inclusion invariant in both versions. Its invalidation rule removes the one level-1 entry whose L2 backing is evicted |
| TlbHierarchy.SearchKeepsInclusion | grading/projet02/done/tlb_hrchy_mng.c:187-253 | Every search, in both versions, keeps the inclusion invariant |
| TlbHierarchy.SearchFillsBothLevels | grading/projet02/done/tlb_hrchy_mng.c:187-253 | Under the invariant, a successful search leaves the translation in both the level-1 TLB of the access and L2 |
| Lru.AgeIncrease | done/lru.h:3-15 | The chosen way becomes age 0, and every other way grows one older unless it is at the cap WAYS - 1 |
| Lru.AgeUpdate | done/lru.h:17-29 | The chosen way becomes age 0. A way before it grows one older when it was younger than the chosen way and below the cap. A way after it keeps its age |
| Lru.UpdateAgainstPrior | done/lru.h:24-28 | The written update agrees with the update by prior age up to the chosen way. After it, the two differ exactly on the ways the prior-age rule would age |
| Lru.AgesStayCapped | done/lru.h:3-29 | Both macros keep every age at most WAYS - 1 |
| Lru.UpdateOfYoungestIsIdentity | done/lru.h:24 | A hit on a way of age 0 changes no age |
| Lru.PriorKeepsDistinct | done/lru.h:17-29 | The update by prior age keeps the ages of a set pairwise distinct |
| Lru.LiveReadLosesOrder | done/lru.h:24 | Ages [1, 0] are distinct, yet the written update of way 0 gives [0, 0]; the prior-age rule gives [0, 1] |
| Cache.Geometry | provided/cache.h:14-52 | Remaining bits are 2 + 2 + 6 and 2 + 2 + 9. Tag and remaining bits make 32. The tag divisor is line size × sets. The data cache is shaped like the instruction cache. Capacities are 4 KiB and 64 KiB |
| Cache.SlotIsBijective | provided/cache.h:83-84 | Slot line × WAYS + way lies within the flat array and gives back its line and way |
| Cache.SetAndTagAreLineNumber | done/cache_mng.c:227-228 | An address's set index and tag are the line number phaddr / 16 split at the number of sets |
| Cache.CacheFlush | done/cache_mng.c:140-171 | A flushed level has its shape and every entry zeroed |
| Cache.CacheEntryInit | done/cache_mng.c:99-138 | The new entry is valid, age 0, tagged phaddr >> REMAINING_BITS, holds the four memory words of the address's 16-byte line, and the addressed word sits at index (phaddr >> 2) % 4 |
| Cache.CacheInsert | done/cache_mng.c:173-208 | A line index or way out of range is refused with ERR_BAD_PARAMETER; otherwise exactly that slot is replaced |
| Cache.InsertThenHit | done/cache_mng.c:173-239 | Inserting a valid entry carrying an address's tag into a way of the address's set makes the address hit. When no other way of the set holds that tag, the hit is on the inserted way and returns the inserted line |
| Cache.FindWay | done/cache_mng.c:229-239 | The lookup loop returns the first way, in order, that is valid with the tag; none is found exactly when no way matches |
| Cache.CacheHit | done/cache_mng.c:210-265 | A miss happens exactly when no way of the address's set holds its tag validly. A hit returns the set index and the first matching way with its line, and that way becomes age 0. Only ages change, and only in that set |
| Cache.CacheHitAsWritten | done/cache_mng.c:226-242 | The written lookup finds the same way and line, but resets the age of every way of the set to 0 |
| Cache.CapturedUpdateCounterexample | done/cache_mng.c:236 | A hit on way 0 keeps way 1 at age 2 under the intended update, while the written macro expansion sets it to 0 |
| Cache.FirstInvalid | done/cache_mng.c:282-288 | findPlace takes the first invalid way; none is found exactly when every way is valid |
| Cache.Victim | done/cache_mng.c:290-299 | The victim has the greatest age in the set, and every later way is strictly younger, so ties go to the highest index |
| Cache.PlaceInSet | done/cache_mng.c:282-303 | The new entry sits at age 0 in the first invalid way, or, when every way is valid, in the way of the victim, the oldest way with ties to the highest index. The evicted entry is returned. Every other way keeps its fields |
| Cache.EvictionKeepsOtherAges | done/cache_mng.c:302-303 | After an eviction no other way's age changes: the update runs on a way whose age is already 0 |
| Cache.FillAgesOthers | done/cache_mng.c:285-286 | Filling an invalid way ages every other way by one, up to the cap |
| Cache.FillAsWritten | done/cache_mng.c:282-288 | The written fill places the entry like the intended one but leaves every age in the set at 0 |
| Cache.FillCounterexample | done/cache_mng.c:286 | Filling way 1 ages way 0 to 1 under the intended update, while the written expansion leaves it at 0 |
| Cache.EvictAsWritten | done/cache_mng.c:290-303 | The written eviction pushes the new entry's line to L2, not the victim's. It pushes the tag read at slot index × enum value + way |
| Cache.EvictDiscrepancy | done/cache_mng.c:300-302 | In a full L1 instruction set the written eviction moves the new line and the tag of set 0 instead of the victim that the intended placement returns |
| CacheHierarchy.LevelConversions | done/cache_mng.c:315-325 | Moving a line between L1 (tag, set) and L2 (tag >> 3, (tag & 7) << 6 \| set) keeps its line number, and the two conversions undo each other |
| CacheHierarchy.ToL2Entry | done/cache_mng.c:315 | An evicted L1 entry enters L2 valid, at age 0, with its tag shifted right by 3 and its line unchanged |
| CacheHierarchy.InsertInL1 | done/cache_mng.c:306-319 | The entry is placed in its L1 set. Without an eviction L2 is unchanged. With one, the victim is placed in the L2 set its line maps to, and only that set changes |
| CacheHierarchy.MoveL2ToL1 | done/cache_mng.c:321-328 | The L2 line enters L1 at set s2 mod 64 under the rebuilt tag, with the same line number. When nothing is evicted from L1, the L2 way is left invalid |
| CacheHierarchy.CacheRead | done/cache_mng.c:352-406 | An unaligned address is refused with ERR_BAD_PARAMETER. An L1 hit answers from L1 and leaves L2 alone. An L2 hit answers with the word of the line L2 holds. A miss in both answers the memory word. The levels that come back keep the shape of the caches |
| CacheHierarchy.CacheReadAsWritten | done/cache_mng.c:276-280 | As written, the read reports no word exactly when L1 misses, and never changes L2 |
| CacheHierarchy.ReadStopsAtL1 | done/cache_mng.c:276-280 | For a line held only in L2, the written read returns with no word and nothing moved, while the intended read succeeds |
| CacheHierarchy.WriteLine | done/cache_mng.c:460-461 | Copying a line back replaces exactly memory line n, the words 4n .. 4n + 3 |
| CacheHierarchy.WriteBackBaseAsWritten | done/cache_mng.c:458-459 | The written base, in bytes, is the start of the block of SETS bytes (64 or 512) that holds the address, not the start of its 16-byte line |
| CacheHierarchy.WriteBackBaseDiscrepancy | done/cache_mng.c:458-459 | Writing an unchanged line back to its own place leaves memory unchanged. For address 16, though, the written base is word 0, while the line lives at word 4 |
| CacheHierarchy.Rewrite | done/cache_mng.c:453-457 | The written way becomes valid, age 0, with the same tag and the new line. Other sets are untouched, and other ways of the set keep their fields |
| CacheHierarchy.CacheWrite | done/cache_mng.c:430-490 | An unaligned address is refused. Otherwise memory keeps its length, the addressed word becomes w, and every word outside the address's line is unchanged. The levels that come back keep the shape of the caches |
| CacheHierarchy.ByteOf | done/cache_mng.c:426 | `(word >> 8i) & 0xFF` is a byte |
| CacheHierarchy.ComposeBytes | done/cache_mng.c:426 | Four bytes put together little-endian give a 32-bit word whose bytes are those four |
| CacheHierarchy.BytesCompose | done/cache_mng.c:426 | A word is its four little-endian bytes put together |
| CacheHierarchy.MergeThenByte | done/cache_mng.c:509-512 | Merging a byte at position i changes byte i to it and keeps the other three bytes |
| CacheHierarchy.AlignDown | done/cache_mng.c:424 | Taking the offset down to a multiple of 4 keeps the frame and gives the aligned address of the same word |
| CacheHierarchy.CacheReadByte | done/cache_mng.c:408-428 | The byte read is byte phaddr % 4 of the word the aligned read returns. The caches end as that read leaves them. The caller's address comes back aligned down to its word |
| CacheHierarchy.CacheWriteByte | done/cache_mng.c:492-515 | The byte write stores, at the addressed word, the read word with one byte merged in. Every word outside the line is unchanged. The caller's address comes back aligned down to its word |
| CacheHierarchy.WriteByteWordAsWritten | done/cache_mng.c:506-512 | The word handed to the write is the byte merged into the L1 line's word on an L1 hit, and into 0 on an L1 miss |
| CacheHierarchy.WriteByteMissClears | done/cache_mng.c:506-512 | After an L1 miss the written byte write merges into 0, so the other three bytes of the word become 0 |
| CacheInvariants.FlushedInv | done/cache_mng.c:140-171 | Flushed L1 and L2 satisfy the hierarchy invariant for any memory. The invariant has three parts: valid entries hold memory's words for their line, tags are unique in a set, and no line is valid in both levels |
| CacheInvariants.MissMeansAbsent | done/cache_mng.c:229-242 | A miss means no valid entry of the level holds the address's line |
| CacheInvariants.HitReadsMemory | done/cache_mng.c:231-235 | In a coherent level the line a hit returns is memory's line, and its word at (phaddr >> 2) % 4 is the memory word |
| CacheInvariants.AgesDoNotMatter | done/lru.h:3-29 | Changing only ages keeps the invariant |
| CacheInvariants.PlaceKeepsLevel | done/cache_mng.c:282-303 | Placing a coherent entry whose line the level lacks keeps the level coherent and its sets tag-unique |
| CacheInvariants.EvictionKeepsExclusive | done/cache_mng.c:306-319 | Moving an L1 victim to L2 keeps the levels exclusive |
| CacheInvariants.InsertKeepsInv | done/cache_mng.c:343-350 | Filling L1 with a line in neither level keeps the invariant, the victim path included |
| CacheInvariants.InvalidateKeepsInv | done/cache_mng.c:322 | Invalidating an L2 way keeps the invariant |
| CacheInvariants.MoveKeepsInv | done/cache_mng.c:321-328 | Moving a valid L2 line that L1 lacks into L1 keeps the invariant |
| CacheInvariants.ReadCorrect | done/cache_mng.c:352-406 | Under the invariant an aligned read succeeds, returns the memory word at phaddr / 4 and keeps the invariant |
| CacheInvariants.WriteCorrect | done/cache_mng.c:430-490 | Under the invariant an aligned write succeeds. Memory becomes the old memory with exactly the word at phaddr / 4 replaced, and the invariant holds for the new memory |
| CacheInvariants.InsertPlaces | done/cache_mng.c:282-319 | Filling an L1 set with a line neither level holds puts the line in L1. L2 still lacks it and gains at most the L1 victim, a line L1 no longer holds; every other line L2 held stays |
| CacheInvariants.MoveUpPlaces | done/cache_mng.c:321-328 | Moving up the only L2 way holding a line that L1 lacks puts the line in L1 and removes it from L2, which gains at most the L1 victim |
| CacheInvariants.ReadPlacesLine | done/cache_mng.c:321-406 | Under the invariant, after an aligned read the address hits in its L1, and L2 no longer holds its line. L2 changes only by receiving the L1 victim: every line it holds afterwards was held before or is a line that just left L1, and every other line it held before is still held |
| CacheInvariants.WritePlacesLine | done/cache_mng.c:430-489 | The same for an aligned write: the address hits in the data L1 afterwards, whether it hit in L1, moved up from L2 or was allocated on a miss. L2 no longer holds its line and changes only by receiving the L1 victim |
| CacheInvariants.ReadByteCorrect | done/cache_mng.c:408-428 | Under the invariant a byte read returns byte phaddr % 4 of the memory word and keeps the invariant |
| CacheInvariants.WriteByteCorrect | done/cache_mng.c:492-515 | Under the invariant a byte write changes exactly one memory word, and within it exactly byte phaddr % 4. The invariant holds for the new memory |
| Commands.RejectAsWritten | done/commands.c:157-160 | The four flags as written are defined exactly when the size is not a multiple of 2^16; where defined they reject exactly the invalid commands |
| Commands.ZeroSizeDividesByZero | done/commands.c:160 | A data command of size 0, and an instruction of size 65536, are invalid yet make the alignment flag divide by zero |
| Commands.AddCommand | done/commands.c:152-184 | An invalid command gives ERR_BAD_PARAMETER and leaves the program alone. A valid one is appended after the existing lines. The capacity doubles exactly when the lines fill it |
| Commands.RejectAgrees | done/commands.c:157-166 | Where the written flags are defined, they reject the same commands as the ordered checks |
| Commands.AddKeepsFits | done/commands.c:169-180 | With a nonzero capacity that is a whole number of commands, adding keeps the lines within the capacity |
| Commands.ProgramFree | done/commands.c:186-206 | A freed program has no lines and capacity 0, which counts as full for every command size |
| Commands.AddAfterFree | done/commands.c:169-180 | Doubling a capacity of 0 leaves it 0, so a command added to a freed program lies beyond the capacity |
| GradedCommands.ProgramInit | grading/projet01/done/commands.c:22-31 | A new program is empty, and its capacity in bytes holds exactly ten commands |
| GradedCommands.CheckCommand | grading/projet01/done/commands.c:69-71 | An illegal size gives ERR_SIZE. A legal-size instruction write gives ERR_BAD_PARAMETER. Every other command passes |
| GradedCommands.CheckAgainstValid | grading/projet01/done/commands.c:69-71 | This version accepts what the first one accepts, plus the legal commands whose offset is not a multiple of their size |
| GradedCommands.MisalignedAccepted | grading/projet01/done/commands.c:65-82 | A word read at an odd offset passes here and is refused by the first version |
| GradedCommands.AddCommand | grading/projet01/done/commands.c:65-82 | A rejected command leaves the program alone. A listing whose lines reach the capacity doubles it before the 100-line bound is checked. A 101st command gives ERR_MEM. Success appends the command |
| GradedCommands.AddKeepsInvariant | grading/projet01/done/commands.c:72-80 | Adding keeps at most 100 lines, keeps them within the capacity, and keeps the capacity nonzero |
| GradedCommands.HundredAndFirstRefused | grading/projet01/done/commands.c:78 | With 100 lines, a legal command is refused with ERR_MEM and the lines do not change |
| GradedCommands.ShrinkAsWritten | grading/projet01/done/commands.c:55-63 | The written shrink keeps the lines and records nb_lines, or 10 when empty, as the capacity |
| GradedCommands.Shrink | grading/projet01/done/commands.c:55-63 | Shrinking in bytes keeps the lines. The capacity stays nonzero and holds them, and a nonempty listing becomes exactly full |
| GradedCommands.ShrinkThenAddOverflows | grading/projet01/done/commands.c:59 | After the written shrink, the next add succeeds with a capacity of 2 × nb_lines bytes, too small for the nb_lines + 1 commands it now holds |
| GradedCommands.ShrinkThenAddFits | grading/projet01/done/commands.c:55-82 | After the byte-counting shrink, the next add keeps the lines within the capacity and within 100 |

## Left out

- **Printing and dumps.** `cache_dump`, the `PRINT_*` and `DUMP_*` macros, the address printers, `print_list`, `print_reverse_list` and `program_print` are formatted output.
- **Parsing.** `program_read`, `handle_line*` and `fill_command` read text from files.
- **done/memory.c and provided/memory.c.** These load memory images from files. Memory is a parameter (a sequence of words) instead.
- **Allocation.**
  - malloc, calloc, realloc and free are left out, and so are their failure paths (the ERR_MEM after a failed realloc).
  - The zeroing of a grown listing is left out, because the model keeps no listing beyond nb_lines.
  - `clear_list` only frees list nodes.
- **NULL-pointer checks.** The `M_REQUIRE_NON_NULL` guards and the `== NULL` early returns are left out, because every Dafny value exists. One is a quirk: the second version's `program_init` demands that the listing pointer already be non-NULL before allocating it.
- **`program_init` and `program_shrink` of the first commands.c.** `START_SIZE` is defined in `commands.h`, which is not part of this model. The second version's `program_init` and `program_shrink` are modelled. The second version's `program_free` behaves like `Commands.ProgramFree`.
- **The shared L2.** The emulator uses one L2 behind both the instruction and the data L1. The invariant is stated for one L1 and the L2. An instruction line made stale by a data write is not modelled.
- **C representation.** This covers bit-field widths (carried by subset types instead), void-pointer casts between entry types, and the unused `replace` parameter.
- **Duplicate or broken files.** `done/addr-mng.c` does not compile and duplicates the codec. `grading/projet02/done/cache.h` and `done/tlb.h` duplicate other headers.
- **The error-code return of `tlb_search`, `tlb_hit` and `tlb_insert` calls whose result the source ignores.** These calls cannot fail in the model, because every index passed is in range.
- PageTable.PageWalk: its own contract gives only the error code and the offset. The full statement of its result is `PageTable.CheckedAgreesWithUnchecked`, because the frame depends on the chain of entries.
- CacheHierarchy.CacheRead: requires the words of the address's line to exist when neither level holds it. The source reads them without a bounds check.
- CacheHierarchy.CacheRead: its own contract does not say where the line ends up. `CacheInvariants.ReadPlacesLine` states it under the hierarchy invariant: the address hits in L1 afterwards, L2 no longer holds the line, and L2 gains only lines that left L1. When L1 evicts, the victim may land in the very L2 way the line left, so that way is not promised to stay invalid.
- CacheHierarchy.CacheWrite: its own contract does not say where the line ends up. `CacheInvariants.WritePlacesLine` states it under the hierarchy invariant, for the L1 hit, the move up from L2 and the write-allocate miss.
- CacheHierarchy.CacheWrite: requires the words of the address's line to exist. The source writes them without a bounds check.
- CacheHierarchy.CacheReadByte: states its result through the aligned word read and not directly against memory. `CacheInvariants.ReadByteCorrect` states it against memory under the invariant.
- CacheHierarchy.CacheWriteByte: states its result through the aligned word read. `CacheInvariants.WriteByteCorrect` states it against memory under the invariant.
- TlbHierarchy.HrchyHitAsWritten: on a fall-through it reads the level-1 entries' valid bit, tag and frame as if they were L2 entries. The source reads the level-1 array through an `l2_tlb_entry_t` pointer, and how that reinterprets the bit-fields depends on struct layouts that are not part of the model.
- Tlb.TlbInsert: requires the slot to exist. The source writes `tlb + line_index` with no bounds check, so an index of 128 or more is undefined behaviour.
- EvictionList.PopBack: with two or more nodes, the new back node keeps its `next` link to the freed node (done/list.c:67-69). The sequence model has no links, so it does not represent that stale pointer. The replacement policy never pops.
- EvictionList.PopFront: with two or more nodes, the new front node keeps its `previous` link to the freed node (done/list.c:75-77). This is not represented, for the same reason.
- EvictionList.PushBack: requires a non-empty list, because the source dereferences the back node unconditionally.
- EvictionList.PushFront: requires a non-empty list, because the source dereferences the front node unconditionally.
- Commands.AddCommand: refuses a command whose size is a multiple of 65536 with ERR_BAD_PARAMETER. The source divides by zero before it can refuse such a command. `Commands.RejectAsWritten` models the flags as written.

## Findings

| source | as written | input that shows it | evidently intended | confidence | as-written member | corrected member |
|---|---|---|---|---|---|---|
| done/tlb_mng.c:35-39 | every guard returns early when its init call succeeds. init_phy_addr always succeeds, so the flush returns at line 35 before its loop. Had it got there, the loop guard at line 39 would have stopped it after slot 0, and tlb_entry_init marks its entry valid, so page 0 would stay mapped | any TLB holding a valid entry | every entry invalid, as the flush of the direct-mapped TLBs leaves them | not executed | Tlb.TlbFlushAsWritten (Tlb.FlushDiscrepancy, Tlb.FlushLoopMapsPageZero) | Tlb.TlbFlush (Tlb.FlushedTlbMisses) |
| done/tlb_mng.c:61-65 | the stored tag, a page number, is compared with the whole 48-bit address | any address with a nonzero page number or offset, right after its entry was inserted | compare with the page number | not executed | Tlb.CompareDiscrepancy | Tlb.TlbHit |
| done/tlb_mng.c:88 | the front node is passed to move_back, which unlinks through the node's previous pointer (done/list.c:83), and the front has none | every TLB miss | move the least recently used slot to the back | not executed | EvictionList.MoveBack (EvictionList.MoveBackDomain) | EvictionList.MoveToBack |
| done/tlb_mng.c:66 | tlb_hit passes the matching node to move_back, which unlinks it through its next pointer (done/list.c:84). The back node has no next node | a hit on the most recently used slot, such as a second lookup of the same page | moving the back node leaves the list as it is | not executed | EvictionList.MoveBack (EvictionList.MoveBackDomain) | EvictionList.MoveToBack (EvictionList.MoveBackOfBack) |
| grading/projet02/done/tlb_hrchy_mng.c:133-163 | the switch cases have no break, so a level-1 miss falls into the L2 case on the 16-line array | page 16 at line 0 of the ITLB, then a lookup of page 64 | a level-1 miss returns 0 | not executed | TlbHierarchy.HrchyHitAsWritten (TlbHierarchy.HitFallThroughCounterexample) | TlbHierarchy.HrchyHit |
| done/cache_mng.c:276-280 | `return ERR_NONE;` follows the hit test unconditionally, so an L1 miss returns without a word | a data read of a line held only in L2 | look in L2, then in memory | not executed | CacheHierarchy.CacheReadAsWritten (CacheHierarchy.ReadStopsAtL1) | CacheHierarchy.CacheRead (CacheInvariants.ReadCorrect) |
| done/cache_mng.c:236 | the macro argument `way` is captured by the macro's own loop variable, so `way != way` is false and every age in the set becomes 0 | a hit on way 0 of a set whose way 1 has age 2 | age the other ways by the hit way's age | not executed | Cache.CacheHitAsWritten (Cache.CapturedUpdateCounterexample) | Cache.CacheHit |
| done/cache_mng.c:286 | the same capture in findPlace: every age in the set becomes 0 | filling way 1 of a set whose way 0 is valid with age 0 | age every other way | not executed | Cache.FillAsWritten (Cache.FillCounterexample) | Cache.PlaceInSet |
| done/cache_mng.c:300-302 | the victim's line is taken by pointer and then overwritten by the insert; the tag is read at slot index × cache_t + way | a full L1 instruction-cache set | move the victim's own line and tag to L2 | not executed | Cache.EvictAsWritten (Cache.EvictDiscrepancy) | Cache.PlaceInSet (CacheHierarchy.InsertInL1) |
| done/cache_mng.c:458-483 | the line is copied back, on the hit path (458-461) and again on the miss path (478-483), at word (phaddr - phaddr % LINES) / 4, with LINES the number of sets | a write to address 16: the line lives at word 4, the copy goes to word 0 | copy back at word 4 × (phaddr / 16) | not executed | CacheHierarchy.WriteBackBaseAsWritten (CacheHierarchy.WriteBackBaseDiscrepancy) | CacheHierarchy.CacheWrite (CacheInvariants.WriteCorrect) |
| done/cache_mng.c:506-512 | after the read returns no word on an L1 miss, the byte is merged into the initial 0 | a byte write to a line not in L1 | merge into the memory word | not executed | CacheHierarchy.WriteByteWordAsWritten (CacheHierarchy.WriteByteMissClears) | CacheHierarchy.CacheWriteByte (CacheInvariants.WriteByteCorrect) |
| done/commands.c:160 | the alignment flag divides by `(uint16_t)data_size` before any flag is tested | a data command of size 0 | reject with ERR_BAD_PARAMETER | not executed | Commands.RejectAsWritten (Commands.ZeroSizeDividesByZero) | Commands.AddCommand |
| grading/projet01/done/commands.c:59 | the shrunk capacity counts commands, while init and add count bytes | shrink a listing of 5 commands, then add one: realloc gets 10 bytes for 6 commands | capacity nb_lines × sizeof(command_t) | not executed | GradedCommands.ShrinkAsWritten (GradedCommands.ShrinkThenAddOverflows) | GradedCommands.Shrink (GradedCommands.ShrinkThenAddFits) |
