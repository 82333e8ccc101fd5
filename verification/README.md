# OS building blocks, modelled and proved in Dafny

Seven small operating-system components, each modelled in the form its source has
(fields, arrays and memory updated in place) and proved against a specification whose
own properties are the main results.

| component | specification | main results |
|---|---|---|
| SV39 page table (`Sv39*.dfy`) | a flat map from 27-bit page numbers to page numbers, last write wins | every guarded run of map_page and map_superpage translates every address like the flat map; a superpage is 512 pages; exact node count; exactly when map_page and map_superpage go wrong, and what they damage then; all of it also in plain numbers |
| TLB and MMU (`Tlb*.dfy`) | an MMU that always walks its first-match page table | the cache is transparent in every run; what each operation does to any cache; a working set that fits misses once per page; a cycle one page too long never hits |
| green threads (`Green*.dfy`) | a nested loop over rounds and threads | run() terminates and executes exactly that loop; registers survive every yield; the scheduler state is safe at every moment |
| free-list allocator (`FreeList*.dfy`) | a sequence of free chunks, a list of live chunks and a bump pointer | the list in memory stays intact under any client writes; exactly which place each request gets; disjointness; exact byte accounting; peak and LIFO theorems |
| bump allocator (`Bump*.dfy`, `Alignment.dfy`, `HeapRoom.dfy`) | a sequential heap that takes the first aligned place, refuses when there is none, and restarts | every interleaving is linearizable, refusals and resets included; exactly when a null answer is still right when given; calls are lock-free |
| writer-priority lock (`RwLock*.dfy`) | counts of live guards, and a set of waiting writers | the word encodes the guards in every reachable state; readers share up to the full count; no deadlock in any interleaving, no phantom waiter; exactly when writer priority is kept |
| memory primitives (`MemPrimitives.dfy`) | old contents moved; lexicographic order | memmove for every overlap; exactly when memcpy moves; strcmp is a total order |

`Bits.dfy` defines the machine operators `&`, `|`, `!`, `<<`, `>>` on natural numbers one
bit at a time and connects them to division, remainder and addition; the page table, the
lock and the allocators rest on it. `Wrappers.dfy` holds the option type,
`Cyclic.dfy` the indices that go round.

How the pieces fit together. Each component has value-level functions for its operations
(`Sv39Model`, `TlbModel`, `GreenModel`, `FreeListModel`, `BumpModel`, `RwLockModel`), a class
or methods with the source's fields and loops whose `ensures` equate the new state with
those functions (`Sv39`, `Tlb`, `GreenThreads`, `FreeList`, `Bump`, `RwLock`), and lemmas
about the functions over single steps and whole runs. Concurrent components are state
machines: one step per atomic operation, any number of threads, every interleaving. The
standard for the page table is section 4.4 (Sv39) of the RISC-V Instruction Set Manual,
Volume II, version 20211203; for the memory primitives it is sections 7.24.2.2 and
7.24.4.2 of ISO/IEC 9899:2011.

Modelling decisions a reader should know:

- A Rust panic is an outcome (`panicked`) with the state it leaves behind. Arithmetic that
  overflows wraps round, as in a release build.
- The node map, counters and addresses are natural numbers with explicit 64-bit or 32-bit
  wrap-around where the source computes with them.
- `tree` in the page-table lemmas records which node plays which role. It is not part of the
  table: every guarded run from a new table has one (`Sv39Runs.RunFromNew`), and every node has a role
  in it (`Sv39Tree.NodeHasRole`).
- A user function of the green threads is the sequence of its segments between yields, each
  given by the values it leaves in s0 to s11. The return address in a saved context stands
  for itself and the frames below it on that thread's stack.
- A call of the bump allocator returns in the step that decides it, its exchange or its failed check;
  nothing shared is touched in between. So a block belongs to the side of a reset on which its
  exchange falls, also when its caller gets hold of it later. A refusal takes its place in the
  history when the call reads the pointer from which its request does not fit.
- In the free-list memory `ram[a]` is the 64-bit word at the 8-aligned address a.
- The constants, branches and error cases are those of the code. Where the code and its
  documentation disagree the code is followed: map_superpage links through
  `curr_ppn - 1` instead of the root; the stack pointer gets no 16-byte headroom; and with two
  writers the lock lets a reader in before the writer that still waits.

False as promised, with the exact condition:

- Writer priority (`PriorityIff`): no reader enters before a waiting writer, in all schedules, if
  and only if at most one thread ever calls write(). Counted at each moment (`OneAtATimeIff`): if and
  only if at most one thread at a time waits to write or writes. Any two writers and any reader
  break it (`ReaderOvertakes`).
- map_page (`MapPageMeetsIff`): it does what it promises for every physical address if and only if no
  superpage covers the page. Inside one it panics exactly when the superpage's frame is not a table
  node (`MapPageUnderSuperpage`), and otherwise damages the table as `StrayWriteDamage` says
  (an instance in `MapPageThroughRoot`).
- map_superpage (`SuperpageMapsIff`): on every well-shaped table it maps its region if and only if the
  root entry is valid or the root is the only node so far. What it damages otherwise is in
  `StrayLinkDamage`, with an instance in `StraySuperpage`. `RootLinkAgrees` shows that a variant
  linking through the root has no such condition.
- memcpy (`MemcpyMovesIff`): correct on overlap if and only if the source is periodic; it fails on
  the input of `MemcpySmears`.
- The align-up expression (`AlignUpIff`): correct if and only if its sum does not overflow; it fails
  on the input of `AlignUpWraps`. A bump exchange is safe, and a free-list allocation keeps its
  invariant, if and only if that does not bite (`StepKeepsHistoryIff`, `AllocKeepsInvIff`).
- A null answer of the bump allocator (`NullIffQuietResets`): right whenever it is given if and only if
  reset() is called only while no alloc() stands between reading the pointer and returning, or the
  heap has no byte. Any heap with a byte has a failing run (`ResetRefuses`), and which resets of a
  run do the harm is in `JustifiedIffHarmless`.

## Model

| member | source | states |
|---|---|---|
| `Sv39.Sv39PageTable.constructor` | exercises/06_page_table/03_multi_level_pt/src/lib.rs:79-87 | a new table is the root node alone, all entries invalid, with node numbers starting at 0x80000 |
| `Sv39.Sv39PageTable.AllocNode` | exercises/06_page_table/03_multi_level_pt/src/lib.rs:90-95 | hands out `next_ppn` with an empty node stored under it and advances the counter; the rest of the table is unchanged |
| `Sv39.Sv39PageTable.MapPage` | exercises/06_page_table/03_multi_level_pt/src/lib.rs:115-149 | the loop over levels 2 and 1 with its in-place updates, including the panics of `unwrap`, does to the table what the specification function that all page-table theorems are about does |
| `Sv39.Sv39PageTable.Translate` | exercises/06_page_table/03_multi_level_pt/src/lib.rs:161-206 | the walk loop answers what the specification walk answers, superpage offsets and early faults included, and changes nothing |
| `Sv39.Sv39PageTable.MapSuperpage` | exercises/06_page_table/03_multi_level_pt/src/lib.rs:214-242 | alignment panics, the link through node `curr_ppn - 1` and the level-1 leaf write, exactly as written |
| `Sv39Bits.VpnIsField` | exercises/06_page_table/03_multi_level_pt/src/lib.rs:104-107 | `(va >> (12 + level*9)) & 0x1FF` is the 9-bit field at that position, for every level |
| `Sv39Bits.VpnsOfPage` | exercises/06_page_table/03_multi_level_pt/src/lib.rs:104-107 | the three indices are exactly the three 9-bit parts of the 27-bit page number in bits 38:12 |
| `Sv39Bits.EntryBits` | exercises/06_page_table/03_multi_level_pt/src/lib.rs:182-188 | an entry is valid iff bit 0 is set, is a leaf iff one of bits 1 to 3 (R, W, X) is, and its page number is the entry divided by 1024 |
| `Sv39Bits.PointerIs` | exercises/06_page_table/03_multi_level_pt/src/lib.rs:137-137 | an intermediate entry is its node number times 1024 plus 1, for every number below 2^54 |
| `Sv39Bits.PointerFacts` | exercises/06_page_table/03_multi_level_pt/src/lib.rs:137-137 | so it is valid, is not a leaf, and gives back its node number |
| `Sv39Bits.LeafFacts` | exercises/06_page_table/03_multi_level_pt/src/lib.rs:148-148 | for any `pa` and any `flags`, the leaf entry is valid, is a leaf iff one of bits 1 to 3 of the flags is set, keeps the low ten flag bits with V added, and its page number is `pa >> 12` or-ed with the flag bits above bit 9 |
| `Sv39Bits.LeafPpnIsPage` | exercises/06_page_table/03_multi_level_pt/src/lib.rs:148-148 | with flags below 1024 the page number in a leaf is exactly `pa / 4096` |
| `Sv39Bits.SuperpageAddress` | exercises/06_page_table/03_multi_level_pt/src/lib.rs:190-194 | a level-1 leaf translates each address like a 4 KB leaf whose page number has VPN[0] or-ed in |
| `Sv39Numbers.LeafAddressMeans` | exercises/06_page_table/03_multi_level_pt/src/lib.rs:187-201 | found at level 0, 1 or 2 a leaf gives 4096 times the low 52 bits of its page number, or-ed with the address modulo 4 KB, 2 MB or 1 GB; for an aligned leaf that is the sum |
| `Sv39Numbers.TranslateMeans` | exercises/06_page_table/03_multi_level_pt/src/lib.rs:161-206 | for any table whatever, translate is the three-level walk written out in divisions and remainders: missing nodes, invalid entries, leaves at each level and a pointer at level 0 |
| `Sv39Bits.AddressInIsSum` | exercises/06_page_table/03_multi_level_pt/src/lib.rs:197-197 | `(ppn << 12) \| offset` is the page base plus the offset, with no carry |
| `Sv39Tree.TreeSize` | exercises/06_page_table/03_multi_level_pt/src/lib.rs:90-95 | a well-shaped table has at most 2^18 + 2^9 + 1 nodes, so node numbers fit in the entry's page-number field |
| `Sv39Tree.GrowLevel1` | exercises/06_page_table/03_multi_level_pt/src/lib.rs:132-138 | linking a fresh level-1 node keeps the no-sharing tree shape and changes the walk of no page |
| `Sv39Tree.GrowLevel0` | exercises/06_page_table/03_multi_level_pt/src/lib.rs:132-138 | the same for a fresh level-0 node |
| `Sv39Tree.WriteLevel0` | exercises/06_page_table/03_multi_level_pt/src/lib.rs:145-148 | writing any entry into the level-0 node of a region keeps the shape and changes the walk of that one page only |
| `Sv39Tree.WriteLevel1Leaf` | exercises/06_page_table/03_multi_level_pt/src/lib.rs:238-241 | writing a level-1 leaf keeps the shape and changes the walks of exactly the 512 pages of its region, whatever was mapped there |
| `Sv39Theorems.TranslateIsPageWalk` | exercises/06_page_table/03_multi_level_pt/src/lib.rs:161-206 | translation of every 64-bit address is the page walk of bits 38:12 with the low 12 bits passed through |
| `Sv39Theorems.MapPageWalks` | exercises/06_page_table/03_multi_level_pt/src/lib.rs:115-149 | outside superpages map_page never panics, keeps the tree shape, and changes the walk of one page: to the new page number, or to a fault if R, W and X are all clear |
| `Sv39Theorems.MapPageAgrees` | exercises/06_page_table/03_multi_level_pt/src/lib.rs:115-149 | map_page on the tree is one overwrite in the flat map, and allocates nodes for its own path only |
| `Sv39Numbers.NewIsEmpty` | exercises/06_page_table/03_multi_level_pt/src/lib.rs:79-87 | a new table is node 0x80000 with 512 zero entries, hands out 0x80001 next, and faults at every address |
| `Sv39Numbers.MapPageTranslates` | exercises/06_page_table/03_multi_level_pt/src/lib.rs:109-149 | in plain numbers, outside superpages: with one of R, W, X and flags below 1024 the 4096 bytes of the page go to those of the page of `pa`; without R, W, X they fault; every other address keeps its translation |
| `Sv39Theorems.SuperpageAgrees` | exercises/06_page_table/03_multi_level_pt/src/lib.rs:214-242 | map_superpage, when it links to the root, is 512 overwrites in the flat map |
| `Sv39Numbers.SuperpagePanicsIff` | exercises/06_page_table/03_multi_level_pt/src/lib.rs:214-217 | on every well-shaped table and for all flags map_superpage panics if and only if va or pa is not a multiple of 0x200000, and then leaves the table alone |
| `Sv39Numbers.MapSuperpageTranslates` | exercises/06_page_table/03_multi_level_pt/src/lib.rs:214-242 | in plain numbers, linked to the root: the 2 MB region of va goes to `pa + x % 0x200000`, and every other address keeps its translation |
| `Sv39Leaves.LeafDecides` | exercises/06_page_table/03_multi_level_pt/src/lib.rs:161-206 | translate gives the address in the leaf entry the walk ends at, or a fault if there is none |
| `Sv39Leaves.MapPageStores` | exercises/06_page_table/03_multi_level_pt/src/lib.rs:145-148 | outside superpages map_page gives its page the leaf entry it was asked for, permission bits included, or none without R, W and X; every other address keeps its leaf entry, permission bits included |
| `Sv39Leaves.MapSuperpageStores` | exercises/06_page_table/03_multi_level_pt/src/lib.rs:236-241 | linked to the root, map_superpage does the same for the 512 pages of its region, at level 1 |
| `Sv39Theorems.StraySuperpageFaults` | exercises/06_page_table/03_multi_level_pt/src/lib.rs:231-233 | when another node has been allocated and the root entry is invalid, the call does not panic and the whole region still faults |
| `Sv39Theorems.SuperpageMapsIff` | exercises/06_page_table/03_multi_level_pt/src/lib.rs:214-242 | map_superpage maps its whole region if and only if the root entry is already valid or no node but the root was ever allocated |
| `Sv39Theorems.RootLinkAgrees` | exercises/06_page_table/03_multi_level_pt/src/lib.rs:221-224 | a labelled variant that links through the root, as the comments describe, meets the flat map on every well-shaped table, and equals the source's result if and only if the source links to the root |
| `Sv39Theorems.SuperpageIs512Pages` | exercises/06_page_table/03_multi_level_pt/src/lib.rs:209-242 | one map_superpage translates every address like 512 map_page calls over the same 2 MB, for all flags with one of R, W, X |
| `Sv39Runs.RunRefinesFlatMap` | exercises/06_page_table/03_multi_level_pt/src/lib.rs:115-242 | after any mixed run of guarded map_page and map_superpage calls, translate equals the flat last-write-wins map at every 64-bit address, and no call has panicked |
| `Sv39Runs.PagesRefineFlatMap` | exercises/06_page_table/03_multi_level_pt/src/lib.rs:115-206 | for runs of map_page alone the guards hold by themselves, for all flags, so the equality is unconditional |
| `Sv39Runs.HighBitsIgnored` | exercises/06_page_table/03_multi_level_pt/src/lib.rs:104-107 | addresses that agree on bits 38:0 translate alike, in any table whatsoever |
| `Sv39Runs.NodeCount` | exercises/06_page_table/03_multi_level_pt/src/lib.rs:90-95 | after every guarded run `next_ppn - root_ppn` is 1 plus the distinct VPN[2] values plus the distinct (VPN[2], VPN[1]) pairs of map_page calls, and is below 2^54 |
| `Sv39Stray.EntryOverwritten` | exercises/06_page_table/03_multi_level_pt/src/lib.rs:161-206 | overwriting one entry of any node with anything changes exactly the translations whose walk reads that entry, and says to what |
| `Sv39Stray.MapPageMeetsIff` | exercises/06_page_table/03_multi_level_pt/src/lib.rs:109-149 | with flags below 1024 and one of R, W, X, map_page completes, maps its page to `pa` and changes no other translation, for every `pa`, if and only if no superpage covers the page |
| `Sv39Stray.MapPageUnderSuperpage` | exercises/06_page_table/03_multi_level_pt/src/lib.rs:139-148 | map_page under a superpage panics if and only if the superpage's frame number is not also a table node; otherwise it writes its leaf into that node |
| `Sv39Stray.StrayWriteDamage` | exercises/06_page_table/03_multi_level_pt/src/lib.rs:139-148 | when it does not panic, every address whose walk reads the entry written translates through the new leaf at the level of that node, and every other address as before |
| `Sv39Stray.StrayLinkDamage` | exercises/06_page_table/03_multi_level_pt/src/lib.rs:231-241 | for any table: the stray pointer goes into the node allocated last, and exactly the addresses whose walk reads it change, to a fault or, through a level-1 node, to a 4 KB page of the new leaf |
| `Sv39Stray.StraySuperpage` | exercises/06_page_table/03_multi_level_pt/src/lib.rs:231-233 | an instance: a 4 KB page and then a superpage in another gigabyte: the superpage faults, and the page is lost with it exactly when its VPN[0] is the superpage's VPN[2] |
| `Sv39Stray.MapPageThroughRoot` | exercises/06_page_table/03_multi_level_pt/src/lib.rs:139-148 | an instance: after a superpage over the root's own frame, a map_page inside it leaves the page as it was and maps a whole unmapped gigabyte |
| `Tlb.TlbCache.constructor` | exercises/06_page_table/04_tlb_sim/src/lib.rs:72-79 | a new cache has the given number of invalid entries, also none at all, FIFO pointer 0 and zero counters |
| `Tlb.TlbCache.Lookup` | exercises/06_page_table/04_tlb_sim/src/lib.rs:90-103 | the scan answers the first valid entry of the pair and counts one hit, or answers nothing and counts one miss |
| `Tlb.TlbCache.Insert` | exercises/06_page_table/04_tlb_sim/src/lib.rs:111-139 | an existing pair is updated in place without moving the pointer; otherwise the entry under the FIFO pointer is replaced and the pointer advances round the capacity |
| `Tlb.TlbCache.FlushAll` | exercises/06_page_table/04_tlb_sim/src/lib.rs:144-149 | every entry becomes invalid and is otherwise unchanged; the FIFO pointer and the counters stay |
| `Tlb.TlbCache.FlushByVpn` | exercises/06_page_table/04_tlb_sim/src/lib.rs:154-161 | exactly the entries of that page become invalid, in every address space |
| `Tlb.TlbCache.FlushByAsid` | exercises/06_page_table/04_tlb_sim/src/lib.rs:166-173 | exactly the entries of that address space become invalid |
| `Tlb.TlbCache.ValidCount` | exercises/06_page_table/04_tlb_sim/src/lib.rs:176-179 | the count is the cardinality of the set of valid slots |
| `Tlb.MmuUnit.constructor` | exercises/06_page_table/04_tlb_sim/src/lib.rs:205-211 | a new MMU has a new cache, no mappings and address space 0 |
| `Tlb.MmuUnit.AddMapping` | exercises/06_page_table/04_tlb_sim/src/lib.rs:214-217 | appends the mapping and changes nothing else; the cache is not touched |
| `Tlb.MmuUnit.SwitchAsid` | exercises/06_page_table/04_tlb_sim/src/lib.rs:220-222 | changes the current address space and nothing else; the cache is not flushed |
| `Tlb.MmuUnit.Translate` | exercises/06_page_table/04_tlb_sim/src/lib.rs:232-251 | lookup, linear page-table search and refill do to the whole MMU what the specification step does |
| `TlbModel.FindFrom` | exercises/06_page_table/04_tlb_sim/src/lib.rs:94-99 | the slot found holds the pair and no earlier slot does; none is found only if no slot holds it |
| `TlbTheorems.FirstMatchAppend` | exercises/06_page_table/04_tlb_sim/src/lib.rs:214-217 | appending a mapping never changes the first match of a pair that had one |
| `TlbTheorems.FlushRemoves` | exercises/06_page_table/04_tlb_sim/src/lib.rs:144-173 | after each flush a pair is cached iff it was cached and the flush does not name it |
| `TlbEffects.FlushClearsValid` | exercises/06_page_table/04_tlb_sim/src/lib.rs:144-173 | a flush clears the valid bits it names and changes no other field, the pointer and the counters included |
| `TlbEffects.LookupAnswers` | exercises/06_page_table/04_tlb_sim/src/lib.rs:90-103 | in any cache a lookup answers the first entry of the pair and counts one hit, or counts one miss, and moves nothing |
| `TlbEffects.InsertThenLookup` | exercises/06_page_table/04_tlb_sim/src/lib.rs:111-139 | in any cache with a slot, coherent or not, the next lookup of the pair inserted answers the new page number, and its entry has the new flags |
| `TlbEffects.InsertUpdates` | exercises/06_page_table/04_tlb_sim/src/lib.rs:117-123 | if the pair was cached, the set of cached pairs, the pointer, the counters and what every other lookup finds stay |
| `TlbEffects.InsertReplaces` | exercises/06_page_table/04_tlb_sim/src/lib.rs:125-137 | if it was not, it takes the slot under the pointer, which moves on modulo the capacity, and no lookup changes but those of the pair in that slot |
| `TlbEffects.InsertEvictsOne` | exercises/06_page_table/04_tlb_sim/src/lib.rs:111-139 | insertion never makes a pair cached twice, and in a cache without duplicates exactly the pair under the pointer goes |
| `TlbEffects.FirstMatchIsFirst` | exercises/06_page_table/04_tlb_sim/src/lib.rs:239-240 | the page-table search finds the mapping of the pair that was added first, and nothing only if there is none |
| `TlbEffects.TranslateEffect` | exercises/06_page_table/04_tlb_sim/src/lib.rs:232-251 | in any MMU with a slot: a hit counts and changes nothing else, a fault counts a miss and changes nothing else, and a miss on a mapped page caches its first mapping with page number, flags and current address space |
| `TlbTheorems.TranslateAnswers` | exercises/06_page_table/04_tlb_sim/src/lib.rs:232-251 | in any coherent state the answer is exactly the first page-table match, and coherence and absence of duplicates are kept |
| `TlbTheorems.CacheIsTransparent` | exercises/06_page_table/04_tlb_sim/src/lib.rs:204-252 | for every interleaving of mappings, address-space switches, translations and flushes, all answers equal those of an MMU without a cache, and no pair is ever cached twice |
| `TlbEffects.CacheIsCoherent` | exercises/06_page_table/04_tlb_sim/src/lib.rs:204-252 | after every run, every cached pair has the page number and the flags of its first mapping |
| `TlbTheorems.FlushesAreNotNeeded` | exercises/06_page_table/04_tlb_sim/src/lib.rs:141-173 | dropping every flush from a run, and changing the capacity, changes no answer |
| `TlbMisses.MissesAreRefillsAndFaults` | exercises/06_page_table/04_tlb_sim/src/lib.rs:90-103 | over any run the miss counter grows by the refills plus the page faults, and hits plus misses by the number of translations |
| `TlbMisses.WorkingSetMissesOnce` | exercises/06_page_table/04_tlb_sim/src/lib.rs:111-139 | from any coherent state, a flush-free run touching at most `capacity` distinct mapped pairs refills each at most once, which bounds its misses |
| `TlbMisses.ThrashingNeverHits` | exercises/06_page_table/04_tlb_sim/src/lib.rs:111-139 | going round `capacity + 1` distinct mapped pairs, none cached at the start, never hits, for every capacity and every length |
| `GreenThreads.Scheduler.constructor` | exercises/04_context_switch/02_green_threads/src/lib.rs:119-131 | a new scheduler has the main thread alone, running |
| `GreenThreads.Scheduler.Spawn` | exercises/04_context_switch/02_green_threads/src/lib.rs:139-154 | appends a ready thread whose context enters the wrapper on its own stack, with the entry stored |
| `GreenThreads.Scheduler.SwitchContext` | exercises/04_context_switch/02_green_threads/src/lib.rs:77-111 | all callee-saved registers go to the old context, and are then loaded from the new one; no other context changes |
| `GreenThreads.Scheduler.NextReady` | exercises/04_context_switch/02_green_threads/src/lib.rs:183-190 | the modular search finds the first ready thread after the current one, or comes back to it |
| `GreenThreads.Scheduler.ScheduleNext` | exercises/04_context_switch/02_green_threads/src/lib.rs:182-215 | states, pending entry, current index and registers change as the specification switch says, and not at all when nobody else is ready |
| `GreenThreads.Scheduler.ThreadFinished` | exercises/04_context_switch/02_green_threads/src/lib.rs:239-247 | marks the current thread finished and schedules |
| `GreenThreads.Scheduler.RunSegment` | exercises/04_context_switch/02_green_threads/src/lib.rs:63-70 | user code runs from one switch to the next: yield, or return into thread_finished |
| `GreenThreads.Scheduler.Step` | exercises/04_context_switch/02_green_threads/src/lib.rs:63-70 | where control goes is decided by the loaded registers alone, including the fall-through that must not happen |
| `GreenThreads.Scheduler.Run` | exercises/04_context_switch/02_green_threads/src/lib.rs:161-177 | run() terminates, has executed exactly the round-robin rounds of all threads, and leaves the scheduler ready for more threads |
| `GreenTheorems.StackTopIsHighest` | exercises/04_context_switch/02_green_threads/src/lib.rs:140-142 | the initial stack pointer is the highest multiple of 16 that is at most 131072 bytes above the start of the buffer |
| `GreenTheorems.SpawnAddsThread` | exercises/04_context_switch/02_green_threads/src/lib.rs:139-154 | spawn adds one thread behind the others, ready, with its entry, the wrapper as return address, that stack pointer and twelve zero registers, and changes nothing else |
| `GreenSwitch.ScheduleNextSwitches` | exercises/04_context_switch/02_green_threads/src/lib.rs:182-215 | in any state: if no other thread is ready nothing changes but the return address; otherwise the nearest ready thread after the current one, counting round, takes over with its registers, entry and state, and no third thread is touched |
| `GreenSwitch.FinishedForGood` | exercises/04_context_switch/02_green_threads/src/lib.rs:239-247 | thread_finished leaves the thread Finished and hands over to the nearest ready thread |
| `GreenSwitch.RunsThrough` | exercises/04_context_switch/02_green_threads/src/lib.rs:229-236 | with no scheduler a yield does nothing: the function runs all its segments in a row, each finding the registers the one before left |
| `GreenProofs.SegmentLeaves` | exercises/04_context_switch/02_green_threads/src/lib.rs:63-70 | a resumed thread finds the registers it left, its own entry is taken from the cell once, and it leaves through yield or finish |
| `GreenProofs.StepFromThread` | exercises/04_context_switch/02_green_threads/src/lib.rs:182-215 | from a thread's turn the machine goes to the next thread that has a segment in this round, or to main for the next round |
| `GreenProofs.StepFromMain` | exercises/04_context_switch/02_green_threads/src/lib.rs:165-173 | run() starts another round as long as some thread has a segment left, and otherwise returns with everything executed |
| `GreenTheorems.AlwaysSafe` | exercises/04_context_switch/02_green_threads/src/lib.rs:182-247 | at every moment exactly the current thread is Running, the pending cell is full only for a thread about to start and then holds its own entry, and thread_finished never falls through |
| `GreenTheorems.RunIsRoundRobin` | exercises/04_context_switch/02_green_threads/src/lib.rs:161-215 | for any number of threads with any finite numbers of yields, the run ends and its log is the nested loop over rounds and threads |
| `GreenTheorems.RunsEverySegmentOnce` | exercises/04_context_switch/02_green_threads/src/lib.rs:161-215 | the executed segments are all segments of all threads, each exactly once, ordered by segment number and then spawn order, each with the saved registers restored and the pending cell empty |
| `FreeList.FreeListAllocator.constructor` | exercises/02_no_std_dev/03_free_list_allocator/src/lib.rs:72-82 | a new allocator has an empty list and the bump pointer at the heap start |
| `FreeList.FreeListAllocator.Alloc` | exercises/02_no_std_dev/03_free_list_allocator/src/lib.rs:106-157 | for every layout the traversal of the list in memory is first fit on the abstract list, with the bump region as fallback; only headers of free chunks are written; and the allocator stays valid if and only if a free chunk suits or the pointer can be aligned without overflow (or the request is larger than the heap's end) |
| `FreeList.FreeListAllocator.Take` | exercises/02_no_std_dev/03_free_list_allocator/src/lib.rs:122-133 | unlinking in memory, at the head or through the predecessor's header, removes exactly that chunk |
| `FreeList.FreeListAllocator.Dealloc` | exercises/02_no_std_dev/03_free_list_allocator/src/lib.rs:159-179 | the freed chunk becomes the head and its two header words are all that changes; null is ignored |
| `FreeList.FreeListAllocator.ClientWrite` | exercises/02_no_std_dev/03_free_list_allocator/src/lib.rs:42-46 | a client may store any word anywhere in a live block without changing the list |
| `FreeList.Unlink` | exercises/02_no_std_dev/03_free_list_allocator/src/lib.rs:124-132 | bypassing a chunk leaves a correct list of the others |
| `FreeList.HeaderWrite` | exercises/02_no_std_dev/03_free_list_allocator/src/lib.rs:171-178 | writing a header into a chunk apart from the list puts it in front of an intact list |
| `FreeList.FollowVisitsList` | exercises/02_no_std_dev/03_free_list_allocator/src/lib.rs:118-136 | following the links visits the chunks in order and meets null after the last one and not before |
| `FreeListModel.AllocKeepsInvIff` | exercises/02_no_std_dev/03_free_list_allocator/src/lib.rs:106-157 | allocation keeps all free and live chunks 8-aligned, inside the used heap and pairwise disjoint if and only if a free chunk suits, the align-up sum does not overflow, or the request is larger than the heap's end |
| `FreeListModel.OverflowBreaks` | exercises/02_no_std_dev/03_free_list_allocator/src/lib.rs:142-146 | in every other case the client is handed address 0 although the heap has no room, and the invariant is lost |
| `FreeListRuns.AllowedIff` | exercises/02_no_std_dev/03_free_list_allocator/src/lib.rs:106-157 | the same condition in plain numbers |
| `FreeListRuns.AllocReuses` | exercises/02_no_std_dev/03_free_list_allocator/src/lib.rs:118-133 | if some free chunk has an address that is a multiple of max(align, 8) and at least max(size, 16) bytes, the first such chunk in the list is the answer; it alone leaves the list, and the bump pointer stays |
| `FreeListRuns.AllocBumps` | exercises/02_no_std_dev/03_free_list_allocator/src/lib.rs:138-157 | otherwise the answer is the first multiple of max(align, 8) from the bump pointer with max(size, 16) bytes before the heap's end, and the pointer moves to the end of those bytes; or null, with nothing changed, if there is none |
| `FreeListRuns.FreedIsReusedFirst` | exercises/02_no_std_dev/03_free_list_allocator/src/lib.rs:118-179 | a freed chunk is what the next request it can serve gets |
| `FreeListModel.DeallocKeepsInv` | exercises/02_no_std_dev/03_free_list_allocator/src/lib.rs:159-179 | freeing keeps the same invariant |
| `FreeListRuns.ChunksAreDisjoint` | exercises/02_no_std_dev/03_free_list_allocator/src/lib.rs:106-179 | in every run of a disciplined client all free and live chunks together are disjoint, 8-aligned, large enough for a header and inside `[heap_start, bump_next)` |
| `FreeListRuns.AllocMeetsRequest` | exercises/02_no_std_dev/03_free_list_allocator/src/lib.rs:107-109 | the returned chunk has the alignment and at least the size the client asked for |
| `FreeListRuns.NullIffNoRoom` | exercises/02_no_std_dev/03_free_list_allocator/src/lib.rs:118-146 | null is returned iff no free chunk has the alignment max(align, 8) and the size max(size, 16), and no such place is left up to the heap's end |
| `FreeListRuns.EveryByteAccountedFor` | exercises/02_no_std_dev/03_free_list_allocator/src/lib.rs:106-179 | over every run `bump_next - heap_start` is the free bytes plus the live bytes plus the alignment padding and reuse surplus lost so far |
| `FreeListRuns.FreshBlocksArePeak` | exercises/02_no_std_dev/03_free_list_allocator/src/lib.rs:118-157 | if every request has one layout, the bump region is used exactly as often as the peak number of simultaneously live blocks |
| `FreeListRuns.ReuseIsLifo` | exercises/02_no_std_dev/03_free_list_allocator/src/lib.rs:118-179 | freeing p1 .. pk and then allocating k times returns pk .. p1 and restores the free list |
| `Alignment.AlignUpIff` | exercises/02_no_std_dev/02_bump_allocator/src/lib.rs:81-81 | `(addr + align - 1) & !(align - 1)` is the first multiple of align at or after addr if and only if the sum does not overflow; otherwise it is the null address |
| `Alignment.AlignUpWraps` | exercises/02_no_std_dev/02_bump_allocator/src/lib.rs:81-81 | a failing input: the last address of the address space aligned to 2 gives 0 |
| `HeapRoom.FitIffRoom` | exercises/02_no_std_dev/02_bump_allocator/src/lib.rs:81-85 | where the sum does not overflow, the request is refused iff no aligned place up to the heap's end is large enough, and otherwise gets the first aligned place |
| `HeapRoom.OverflowFits` | exercises/02_no_std_dev/02_bump_allocator/src/lib.rs:81-85 | where it overflows there is no aligned place, yet the request is given the null address unless it is larger than the heap's end |
| `Bump.BumpAllocator.constructor` | exercises/02_no_std_dev/02_bump_allocator/src/lib.rs:50-56 | the pointer starts at the heap start |
| `Bump.BumpAllocator.Reset` | exercises/02_no_std_dev/02_bump_allocator/src/lib.rs:59-61 | the pointer goes back to the heap start and calls in flight keep what they have read |
| `Bump.BumpAllocator.Invoke` | exercises/02_no_std_dev/02_bump_allocator/src/lib.rs:65-65 | a new call starts with its layout and touches nothing shared |
| `Bump.BumpAllocator.Load` | exercises/02_no_std_dev/02_bump_allocator/src/lib.rs:77-77 | a call reads the shared pointer once before its loop |
| `Bump.BumpAllocator.CompareExchangeWeak` | exercises/02_no_std_dev/02_bump_allocator/src/lib.rs:86-86 | exchanges only on equality, may fail spuriously, and reports the value found |
| `Bump.BumpAllocator.Attempt` | exercises/02_no_std_dev/02_bump_allocator/src/lib.rs:78-90 | one loop iteration: null if the block does not fit, success, or a retry with the value found |
| `BumpTheorems.StepKeepsHistoryIff` | exercises/02_no_std_dev/02_bump_allocator/src/lib.rs:59-90 | whatever calls are in flight, a step keeps the history of successes, refusals and resets one that the sequential heap allows, if and only if it is not a succeeding exchange after an overflowing alignment |
| `BumpTheorems.ModestRunsAreAllowed` | exercises/02_no_std_dev/02_bump_allocator/src/lib.rs:81-81 | if no requested alignment overflows from the heap's end, every run meets that condition |
| `BumpTheorems.BlocksAreDisjoint` | exercises/02_no_std_dev/02_bump_allocator/src/lib.rs:59-91 | whatever the interleaving, the spurious failures and the resets, every block ever taken is aligned, in the heap and not null, and two blocks are disjoint unless a reset comes between their exchanges |
| `BumpTheorems.RunIsSequential` | exercises/02_no_std_dev/02_bump_allocator/src/lib.rs:59-91 | linearizability of every run, refusals and resets included: the same requests made one whole call at a time, in the order of the history, give the same blocks, refusals and pointer, and these are what the heap's specification allows |
| `BumpTheorems.HistoryIsWhatCallsReturn` | exercises/02_no_std_dev/02_bump_allocator/src/lib.rs:65-91 | in every run the history holds each call's result exactly once and nothing else of it; a call still running is in it iff the pointer it has read leaves it no place |
| `BumpTheorems.RealTimeOrder` | exercises/02_no_std_dev/02_bump_allocator/src/lib.rs:65-91 | the history only grows at its end; at any moment every call that has returned is in it and every call that begins later comes after what is in it |
| `BumpResets.JustifiedIffHarmless` | exercises/02_no_std_dev/02_bump_allocator/src/lib.rs:59-85 | in every run each null answer is right from the read that decides it until it is given, if and only if no reset comes while a call is bound to be refused that would fit the empty heap |
| `BumpResets.NullIffQuietResets` | exercises/02_no_std_dev/02_bump_allocator/src/lib.rs:59-85 | null answers are right in all runs if and only if resets come only while no call stands between reading the pointer and returning, or the heap has no byte |
| `BumpResets.NullMeansNoRoom` | exercises/02_no_std_dev/02_bump_allocator/src/lib.rs:82-85 | with such resets a null result, though decided on a stale pointer, stays right until the next reset: no aligned place in the heap is large enough |
| `BumpResets.ResetRefuses` | exercises/02_no_std_dev/02_bump_allocator/src/lib.rs:59-61 | a failing run on every heap with a byte: a call that had read the full heap's pointer is refused after a reset although the heap is empty |
| `BumpTheorems.RetriesAreBounded` | exercises/02_no_std_dev/02_bump_allocator/src/lib.rs:86-89 | in every run no call retries more often than successes and resets moved the pointer, and the successes are at most the bytes of the heap times one more than the resets |
| `BumpProgress.CallAlone` | exercises/02_no_std_dev/02_bump_allocator/src/lib.rs:65-91 | a call that runs alone ends in one attempt: null, with nothing moved, iff no aligned place up to the heap's end is large enough, and otherwise the first such place, with the pointer moved to its end |
| `BumpProgress.AttemptDecides` | exercises/02_no_std_dev/02_bump_allocator/src/lib.rs:86-89 | an exchange that does not fail spuriously ends the call unless the pointer has moved since it was read, and then reads it anew |
| `BumpProgress.SpuriousRetries` | exercises/02_no_std_dev/02_bump_allocator/src/lib.rs:86-89 | a spurious failure moves nothing and sends the call back with the pointer as it is |
| `BumpProgress.AttemptsAreBounded` | exercises/02_no_std_dev/02_bump_allocator/src/lib.rs:65-91 | lock freedom: in every run a call makes at most one attempt more than successes and resets moved the pointer, not counting spurious failures |
| `MemPrimitives.Memcpy` | exercises/02_no_std_dev/01_mem_primitives/src/lib.rs:27-34 | the ascending loop leaves exactly the state the specification copy describes, overlap or not, and returns dst |
| `MemPrimitives.CopyForwardBytes` | exercises/02_no_std_dev/01_mem_primitives/src/lib.rs:30-32 | byte by byte: outside the destination nothing changes, inside it is the source or, on upward overlap, a repetition |
| `MemPrimitives.MemcpyMovesIff` | exercises/02_no_std_dev/01_mem_primitives/src/lib.rs:27-34 | memcpy moves correctly if and only if dst is not strictly inside the source range, or the source repeats with period dst - src |
| `MemPrimitives.MemcpySmears` | exercises/02_no_std_dev/01_mem_primitives/src/lib.rs:27-34 | a failing input: copying 2 bytes of 1 2 3 from offset 0 to 1 gives 1 1 1 instead of 1 1 2 |
| `MemPrimitives.Memset` | exercises/02_no_std_dev/01_mem_primitives/src/lib.rs:43-48 | exactly the n bytes at dst become c |
| `MemPrimitives.Memmove` | exercises/02_no_std_dev/01_mem_primitives/src/lib.rs:57-72 | for all offsets and lengths the destination holds the old source and every other byte is unchanged |
| `MemPrimitives.Strlen` | exercises/02_no_std_dev/01_mem_primitives/src/lib.rs:79-85 | the result is the length of the C string at s: no null before it and one at it |
| `MemPrimitives.Strcmp` | exercises/02_no_std_dev/01_mem_primitives/src/lib.rs:97-108 | the result is the difference of the first bytes in which the two C strings differ |
| `MemPrimitives.CompareSign` | exercises/02_no_std_dev/01_mem_primitives/src/lib.rs:87-96 | negative iff lexicographically less, positive iff greater, zero iff equal; swapping the arguments negates; at most 255 in size |
| `MemPrimitives.CompareIsDifference` | exercises/02_no_std_dev/01_mem_primitives/src/lib.rs:97-108 | the value is the difference of the bytes, or of a byte and the final null, at the first place where the strings differ, and 0 if there is none |
| `MemPrimitives.CompareTransitive` | exercises/02_no_std_dev/01_mem_primitives/src/lib.rs:87-96 | the comparison is transitive, hence a total order on strings |
| `RwLock.RwLock.constructor` | exercises/03_os_concurrency/05_rwlock/src/lib.rs:50-55 | the word starts at 0 with no threads |
| `RwLock.RwLock.ReadStep` | exercises/03_os_concurrency/05_rwlock/src/lib.rs:64-84 | each atomic access of read() is the corresponding protocol step |
| `RwLock.RwLock.Announce` | exercises/03_os_concurrency/05_rwlock/src/lib.rs:93-95 | write() first sets the waiting bit and keeps the rest of the word |
| `RwLock.RwLock.WriteStep` | exercises/03_os_concurrency/05_rwlock/src/lib.rs:96-122 | each atomic access of the loop of write(), with both compare-exchanges, is the corresponding protocol step |
| `RwLock.RwLock.DropReadGuard` | exercises/03_os_concurrency/05_rwlock/src/lib.rs:142-146 | dropping a read guard is the protocol's decrement of the count |
| `RwLock.RwLock.DropWriteGuard` | exercises/03_os_concurrency/05_rwlock/src/lib.rs:173-177 | dropping a write guard clears both flags, also the flag of a writer that still waits |
| `RwLockModel.Fields` | exercises/03_os_concurrency/05_rwlock/src/lib.rs:33-38 | every mask expression of the lock, as a test or update of the three fields count, holding, waiting |
| `RwLockProofs.StepHasEffect` | exercises/03_os_concurrency/05_rwlock/src/lib.rs:64-122 | every step has one of six effects on the fields; no decrement or increment carries into the flags |
| `RwLockProofs.StepKeepsInv` | exercises/03_os_concurrency/05_rwlock/src/lib.rs:64-177 | the word is the encoding of the live guards in every reachable state |
| `RwLockTheorems.Safety` | exercises/03_os_concurrency/05_rwlock/src/lib.rs:64-177 | in every reachable state the low 30 bits count the read guards, holding is set iff exactly one write guard is live, the kinds exclude each other, and waiting implies a thread inside write() |
| `RwLockTheorems.ReadersLeaveFlags` | exercises/03_os_concurrency/05_rwlock/src/lib.rs:76-82 | a reader entering or leaving changes the count by exactly one and neither flag |
| `RwLockProgress.FreeLockIsTaken` | exercises/03_os_concurrency/05_rwlock/src/lib.rs:64-122 | in every interleaving a free lock is taken by somebody before a thread in the write loop has made 5 steps of its own, and before a thread in read() has made 3 unless a writer waits |
| `RwLockProgress.NoDeadlock` | exercises/03_os_concurrency/05_rwlock/src/lib.rs:64-122 | in every interleaving: when a thread in read() or write() makes 3 steps and after that one of the writers then waiting, if any, makes 5, somebody has taken the lock |
| `RwLockSharing.ReadersShare` | exercises/03_os_concurrency/05_rwlock/src/lib.rs:64-84 | with no writer holding or waiting and fewer than 2^30 - 1 readers inside, whatever their number, a thread in read() has a guard by its third own step in every interleaving, unless another thread changes the word in between |
| `RwLockSharing.ReaderJoins` | exercises/03_os_concurrency/05_rwlock/src/lib.rs:64-84 | running alone it has the guard within three steps |
| `RwLockSharing.ReaderCapacityIff` | exercises/03_os_concurrency/05_rwlock/src/lib.rs:64-84 | n read guards can be live at once if and only if n is at most 2^30 - 1 |
| `RwLockSharing.CallsEndByAcquiring` | exercises/03_os_concurrency/05_rwlock/src/lib.rs:64-177 | read() and write() end by acquiring their own kind of guard and in no other way, and guards end by being dropped |
| `RwLockSharing.BlockedWaits` | exercises/03_os_concurrency/05_rwlock/src/lib.rs:66-100 | the load of read() sends a thread round again exactly while a writer holds or waits or the count is full, the load of write() exactly while a guard is live |
| `RwLockTheorems.WaitingStep` | exercises/03_os_concurrency/05_rwlock/src/lib.rs:66-71 | while waiting is set no reader enters, and the flag is cleared if and only if a writer acquires or releases |
| `RwLockTheorems.ReadersOnlyLeave` | exercises/03_os_concurrency/05_rwlock/src/lib.rs:66-71 | from an announcement until the next write acquisition or release the set of readers only shrinks |
| `RwLockTheorems.OneAtATimeIff` | exercises/03_os_concurrency/05_rwlock/src/lib.rs:14-15 | for every n: in all schedules with at most n threads waiting to write or writing at any moment, no new reader enters between a writer's announcement and its turn, if and only if n is at most 1 |
| `RwLockTheorems.PriorityIff` | exercises/03_os_concurrency/05_rwlock/src/lib.rs:14-15 | for every set of threads that may call write(): in all schedules no new reader enters between a writer's announcement and its turn, if and only if the set has at most one thread |
| `RwLockTheorems.ReaderOvertakes` | exercises/03_os_concurrency/05_rwlock/src/lib.rs:173-177 | with any two writers and any third thread: the first writer's release clears the second's flag, and the third gets in as a reader while the second waits |

## Left out

- Tlb.TlbCache.Insert: requires a slot; with capacity 0 the source panics.
- Sv39Stray.MapPageMeetsIff: flag bits from bit 10 up leak into the page number of a leaf (`LeafFacts`) and are outside the statement; so are leaves without R, W and X, which unmap.
- Weak memory orderings: the lock and the bump allocator are proved for sequentially consistent interleavings.
- Concurrent use of the free list.
- Green threads: spawning during `run`, raw stack contents, and a user function that runs forever.
- Direct external `tlb.insert` calls; the floating-point `hit_rate`; overflow of the 64-bit statistics counters.
- What an allocator does after handing out address 0 for a request whose alignment overflowed: runs end before such a step.
- `map_superpage` without any of R, W, X, which writes a pointer to a frame that need not be a node.
- Null, dangling and one-past-the-end-of-address-space pointers in the memory primitives, and separate allocations: all regions are parts of one buffer.
- The guards' access to the protected data in the read-write lock.
- The other exercises: thread spawning, mutexes, channels, processes, tokio tasks, system-call wrappers, the file-descriptor table, single-level page tables and flag helpers, the plain spin locks, the two-context coroutine, and the command-line runner.
