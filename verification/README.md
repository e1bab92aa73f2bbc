# Verification of the RISC-V emulator

A Dafny model of the parts of the emulator and its bare-metal runtime whose behaviour spans many steps: the memory
hierarchy, address translation, the coherence directory, the interrupt controller, the boot protocol, traps, and
formatted output. `dafny verify dfyconfig.toml` checks all of it.

## The memory hierarchy

`MemoryHierarchy` models DDR memory as an array of bytes and a cache as an object whose lines, recency lists and
counters are updated in place. A cache is stacked on whatever serves word and block requests: DDR memory or another
cache. Every level stands for a *view*, a flat memory of words, and each operation is specified by what it does to that
view; the two-level theorem is an instance of one for any number of levels (`Hierarchy.RunHierarchy`). `CacheModel` and
`Lru` hold the reasoning about lines and about recency, `CacheAddress` the address arithmetic, `CacheStats` the
counters, `LoadStore` the byte and halfword accesses of a core on top of its data cache.

Atomics, and stores to the page table (0x20000-0x20FFF) and the synchronisation variables (0x82008-0x8201F), write
below the cache and drop the line without writing it back. On a cache such an operation is right for every contents of
the line exactly when the block is absent or clean (`Hierarchy.ExactIff`). Which blocks are dirty is a function of the
run (`Hierarchy.DirtyAfter`, `Hierarchy.DirtyIff`): those stored to in the cache and neither evicted nor dropped nor
written back since. A run is admissible when its atomics and bypassing stores are for other blocks
(`Hierarchy.Admissible`). Block 0x82000-0x8203F holds both kinds of addresses, and `Hierarchy.StoreLost` is a run of two
stores in which the first is lost.

## The protocols around it

`Mmu` compares a TLB with the page-table walk it replaces. `Coherence` shows that the state of each copy of a line is
a function of the line's history. `Plic` shows that the bitmaps stand for sets, that a claim is optimal, that
interrupts are conserved, and exactly when two targets can come to hold the same source. `Boot` shows that no core but
core 0 executes before the release signal. `Trap` shows what an exception and its return keep. `Vsnprintf` shows that
the truncating formatter writes a prefix of an untruncated rendering.

## Where the code departs from what it promises

- A refused request that is both a write and an instruction fetch is reported as an instruction fault if the page is in
  the TLB and as a store fault otherwise (`Mmu.AnswerIff` says exactly when, `Mmu.MisreportedFault` is a run). No caller
  in the program sets both flags (Cache.cpp:515-531, Core.cpp:636-1102), so this departs from the interface only.
- Setting the page-table base does not flush the TLB (`Mmu.NewBaseIff`, `Mmu.StaleTranslation`).
- `flush_range` writes nothing back when start + size reaches 2^32 (`Hierarchy.FlushWrapped`, `Hierarchy.FlushMissed`).
  That is what it was asked to do only if no block starts in the range (`MemoryHierarchy.RangeExactIff`,
  `MemoryHierarchy.FlushedExactIff`). Nothing in the program calls `flush_range`, so this departs from the interface only.
- An unaligned store to the synchronisation variables leaves a cache showing another word than it will read back
  (`Hierarchy.UnalignedLost`).
- With blocks larger than a page, an ordinary store after the page table leaves a line of the page table dirty
  (`Hierarchy.PageBlocksIff`, `Hierarchy.PageTableDirtied`).
- A source raised while it is held can be claimed by a second target (`Plic.ExclusionIff`, `Plic.NextClaimExclusiveIff`,
  `Plic.ClaimedTwice`).
- Trap entry sets MPIE but never clears it, so MRET can turn interrupts on that were off (`Trap.TrapRoundTrip`).
- A delegated trap writes the previous privilege to a bit that the write mask drops
  (`Trap.DelegatedForgetsPrivilege`), so what is noted is right for traps from user mode only (`Trap.NotedPrivilegeIff`).
- With more than 8192 cores the mirror of the core states overwrites the release signal (`Boot.SignalKeptIff`).
- The booted flag of core 0 is never set: flags, core fields and monitor states agree for the other cores only
  (`Boot.Consistent`).
- `run` looks for the release signal before it sees that all cores have finished, and `debug_run` does not. They end
  alike from every machine that has a core (`Boot.DebugIsRun`); without any, a signal loaded with the program tells them
  apart (`Boot.NoCores`).
- A comment promises `%X` without a width eight digits, filled with zeros; the code writes eight only for numbers from
  0x10000000 on (`Vsnprintf.EightDigitsIff`). Only hexadecimal conversions heed a width (`Vsnprintf.WidthHeededIff`).
- After `%l`, anything but `u`, `x` and `X` is skipped silently (`Vsnprintf.LongDroppedIff`).

## Conventions

Data words are 32-bit vectors, addresses and counters natural numbers; wherever 32-bit wrap-around of an address or a
sum can be observed it is written out. The inline copies of one passage in a source file (the lookup of `read`,
`write`, `read_word` and `write_word`; the digit loops of the formatter; the invalidation loop of the directory) are one
method here.

## Model

| member | source | states |
|---|---|---|
| `Words.JoinOfBytes` | emulator/src/memory/DDR.cpp:13-55 | a word is the little-endian join of its four bytes |
| `Words.BytesOfJoin` | emulator/src/memory/DDR.cpp:13-55 | the bytes of a joined word are the bytes it was joined from |
| `Words.LoadStored` | emulator/src/memory/DDR.cpp:13-55 | a word stored as bytes is read back, and no word apart from it changes |
| `LoadStore.BytesOfWords` | emulator/src/memory/DDR.cpp:13-55 | reading all words of a byte memory and taking their bytes gives the bytes back |
| `LoadStore.WordsOfBytes` | emulator/src/memory/DDR.cpp:13-55 | reading the words of the bytes of a word memory gives the words back |
| `Bits.TestIsMask` | emulator/src/interrupt/PLIC.cpp:346-385 | testing a bit by shifting it down is testing it under its mask, for all 32 bits |
| `Bits.AssignedBit` | emulator/src/interrupt/PLIC.cpp:333-375 | setting or clearing a bit of a word changes that bit and no other |
| `Lru.MoveToFrontKeepsPermutation` | emulator/src/memory/Cache.cpp:420-459 | moving a way to the front keeps the list a permutation of the ways |
| `Lru.HitTouches` | emulator/src/memory/Cache.cpp:454-458 | a hit makes its tag the most recent of the set and keeps the order of the others |
| `Lru.MissTouches` | emulator/src/memory/Cache.cpp:307-418 | filling the first empty way, or else the back one, does the same for an absent tag and drops the least recent of a full set |
| `Lru.BackIsLast` | emulator/src/memory/Cache.cpp:390-413 | the way at the back of a full set's list holds the least recent tag |
| `Lru.EmptyingRemoves` | emulator/src/memory/Cache.cpp:695-708 | invalidating a line takes its tag out of the recency order and leaves the others in place |
| `Lru.HoldsMostRecent` | emulator/src/memory/Cache.cpp:307-459 | after any access history an n-way set holds the first n distinct tags of the history read backwards, in that order |
| `Lru.RecentPosition` | emulator/src/memory/Cache.cpp:307-459 | the position of a tag in the recency order is the number of distinct other tags accessed since |
| `Lru.ResidentIff` | emulator/src/memory/Cache.cpp:307-459 | a tag is resident iff it has been accessed and fewer than n distinct other tags have been since |
| `CacheAddress.CalculateParameters` | emulator/src/memory/Cache.cpp:212-234 | every accepted configuration gives a usable geometry of whole-word blocks |
| `CacheAddress.GeometryOf` | emulator/src/memory/Cache.cpp:212-234 | any number of sets of any number of ways of 2^k bytes is accepted, and its geometry has that many sets, ways and words; the index reaches more than half of the sets, and all if they are a power of two |
| `CacheAddress.AcceptedOnly` | emulator/src/memory/Cache.cpp:212-234 | there are no other accepted configurations |
| `WordArithmetic.ShiftRightValue` | emulator/include/memory/Cache.h:313-314 | shifting a word right by k bits divides its value by the k-th power of 2 |
| `WordArithmetic.MaskValue` | emulator/include/memory/Cache.h:314-315 | masking the lowest k bits is the remainder by that power |
| `WordArithmetic.JoinValue` | emulator/src/memory/Cache.cpp:498 | joining words without a common bit adds their values |
| `WordArithmetic.PlusValue` | emulator/src/memory/Cache.cpp:968 | adding two words adds their values modulo 2^32 |
| `WordArithmetic.BitsCombined` | emulator/src/memory/Cache.cpp:1089-1176 | bit k of an and, or, exclusive or of two words is that of the two bits |
| `WordArithmetic.ValueOfJoin` | emulator/src/memory/DDR.cpp:13-34 | the value of a word of four bytes weighs them 1, 2^8, 2^16 and 2^24 |
| `WordArithmetic.ByteValues` | emulator/src/memory/DDR.cpp:36-55 | the bytes of a word are the digits of its value to base 256, lowest first |
| `CacheAddress.AddressParts` | emulator/include/memory/Cache.h:313-316 | for every accepted configuration and 32-bit address, the shifts and masks by the bit counts yield the set, tag and word of the address, and tag and set, shifted back and joined, yield its block address |
| `CacheAddress.PlainParts` | emulator/include/memory/Cache.h:313-316 | block, set, tag and word of an address are its quotients and remainders by block size and number of sets |
| `CacheAddress.BlockMask` | emulator/include/memory/Cache.h:315-316 | block size less one is the mask of the offset bits |
| `CacheModel.BlockRebuilt` | emulator/src/memory/Cache.cpp:498 | tag and set of a block give the block back |
| `CacheModel.BlockSpan` | emulator/include/memory/Cache.h:313-316 | the words of a block are the consecutive words from its first |
| `CacheModel.Filling` | emulator/src/memory/Cache.cpp:307-490 | evicting a line, writing it back if dirty, and filling the way with a block leaves the flat memory unchanged |
| `CacheModel.FillingEvicts` | emulator/src/memory/Cache.cpp:366-413 | a miss makes exactly the block of the victim leave; it counts as a write-back iff that is dirty |
| `CacheModel.Evicting` | emulator/src/memory/Cache.cpp:366-413 | eviction with write-back leaves the flat memory unchanged |
| `CacheModel.WritingBack` | emulator/src/memory/Cache.cpp:492-503 | writing a line back leaves the flat memory unchanged and its block clean |
| `CacheModel.Storing` | emulator/src/memory/Cache.cpp:659-663 | storing into a line changes exactly that word of the flat memory |
| `CacheModel.Dropping` | emulator/src/memory/Cache.cpp:695-708 | dropping a line without writing it back exposes what lies below in its block, and nothing else |
| `CacheModel.BypassExactIff` | emulator/src/memory/Cache.cpp:612-646 | whatever the line holds, a store around the cache does what a flat memory would, iff the block is absent or clean (or has no other word in memory) |
| `CacheModel.AtomicExactIff` | emulator/src/memory/Cache.cpp:958-1053 | whatever the line holds, an atomic reads the current word, iff the block is absent or clean |
| `CacheModel.ExposingClean` | emulator/src/memory/Cache.cpp:966-971 | if the block is absent or clean, dropping its line loses nothing |
| `CacheStats.RecordConserves` | emulator/include/memory/Cache.h:67-82 | every booked access keeps the timing laws |
| `CacheStats.TimingConservation` | emulator/include/memory/Cache.h:67-82 | after any run: hits + misses = accesses, penalty = misses x penalty, time = hits x latency + misses x (latency + penalty); the per-core accesses sum to the total iff every core id was valid |
| `CacheStats.CoresAccountForAll` | emulator/include/memory/Cache.h:67-82 | with valid core ids every per-core counter sums to its total, and hit time + miss time = access time |
| `CacheStats.CountersShowRun` | emulator/include/memory/Cache.h:67-82 | after any run each core's hits, misses, times and penalty are those of its own accesses in the run, and the totals those of all |
| `MemoryHierarchy.AlignedStore` | emulator/src/memory/DDR.cpp:36-55 | an aligned store of bytes is a store of one word |
| `MemoryHierarchy.AlignedStoreIff` | emulator/src/memory/DDR.cpp:36-55 | in every memory of a size, a store of bytes is the store of the word of its address, iff it is aligned or beyond the last word |
| `MemoryHierarchy.DdrMemory.ReadWord` | emulator/src/memory/DDR.cpp:13-34 | the little-endian word of the bytes at any address, 0 out of range |
| `MemoryHierarchy.DdrMemory.WriteWord` | emulator/src/memory/DDR.cpp:36-55 | exactly the four bytes change; out of range, none |
| `MemoryHierarchy.DdrMemory.ReadBlock` | emulator/src/memory/DDR.cpp:57-77 | the words of the bytes from any address on, 0 where they are out of range |
| `MemoryHierarchy.DdrMemory.WriteBlock` | emulator/src/memory/DDR.cpp:79-98 | the bytes from any address on are replaced, as far as each word of them lies in memory |
| `MemoryHierarchy.Memory.ReadWord` | emulator/include/memory/Cache.h:192-199 | every cache level reads the word of its view that the address lies in, DDR memory the bytes at the address; the view is kept |
| `MemoryHierarchy.Memory.WriteWord` | emulator/include/memory/Cache.h:192-199 | every cache level changes one word of its view, DDR memory four bytes |
| `MemoryHierarchy.Memory.ReadBlock` | emulator/include/memory/Cache.h:192-199 | the same for consecutive words |
| `MemoryHierarchy.Memory.WriteBlock` | emulator/include/memory/Cache.h:192-199 | the same for consecutive words |
| `MemoryHierarchy.Cache.constructor` | emulator/src/memory/Cache.cpp:10-66 | a new cache stands for the memory below it, holds nothing, and its lists are permutations |
| `MemoryHierarchy.Cache.FindEntry` | emulator/src/memory/Cache.cpp:236-305 | set and tag of the address, and the one way that holds its block, if any |
| `MemoryHierarchy.Cache.UpdateLru` | emulator/src/memory/Cache.cpp:420-459 | the way is moved to the front of its set's list |
| `MemoryHierarchy.Cache.WriteBackBlock` | emulator/src/memory/Cache.cpp:492-503 | the line's block, rebuilt from tag and set, is written below |
| `MemoryHierarchy.Cache.EvictLruEntry` | emulator/src/memory/Cache.cpp:366-418 | the way at the back is freed and taken off the list, after its block has gone below if it is dirty |
| `MemoryHierarchy.Cache.AllocateEntry` | emulator/src/memory/Cache.cpp:307-364 | the first invalid way, or the evicted one, is given to the tag; the final assertion is unreachable |
| `MemoryHierarchy.Cache.LoadBlock` | emulator/src/memory/Cache.cpp:461-490 | the line gets the block of the address from below |
| `MemoryHierarchy.Cache.FillLine` | emulator/src/memory/Cache.cpp:566-583 | a miss ends with the block resident, the view unchanged, and only dirty blocks changed below |
| `MemoryHierarchy.Cache.Access` | emulator/src/memory/Cache.cpp:529-606 | the shared lookup: hit iff resident, view kept, the access booked, the block most recent; exactly an evicted dirty block is clean afterwards, and counted |
| `MemoryHierarchy.Cache.Read` | emulator/src/memory/Cache.cpp:529-606 | returns the view's word; hit iff resident; view kept, access booked, block most recent |
| `MemoryHierarchy.Cache.StoreBack` | emulator/src/memory/Cache.cpp:659-663 | one word of the view changes, its block becomes dirty and all others stay as they are |
| `MemoryHierarchy.Cache.StoreThrough` | emulator/src/memory/Cache.cpp:891-898 | one word of the view changes, and no block gets dirtier or cleaner; over DDR memory also what an unaligned store does to line and bytes |
| `MemoryHierarchy.Cache.Write` | emulator/src/memory/Cache.cpp:608-693 | an ordinary store changes one word of the view and leaves its block dirty, and evicts as a lookup does; a bypassing one exposes the block below, changes the word there and drops the line |
| `MemoryHierarchy.WholeWords` | emulator/src/memory/Cache.cpp:614-624 | the synchronisation variables are the words from 0x82008 to before 0x82020, the page table is the page 0x20 |
| `MemoryHierarchy.Cache.StoreBypassing` | emulator/src/memory/Cache.cpp:620-646 | the word goes below, and the line, overwritten and invalidated, is gone |
| `MemoryHierarchy.Cache.Invalidate` | emulator/src/memory/Cache.cpp:695-708 | the line is gone unwritten: its block reads as below, all else as before; the set structure stays valid |
| `MemoryHierarchy.Cache.Atomic` | emulator/src/memory/Cache.cpp:958-1176 | add, swap and the fetch-and operations: return the word below, write the result there, drop the line, count a miss |
| `MemoryHierarchy.Cache.CompareAndSwap` | emulator/src/memory/Cache.cpp:1021-1053 | writes below iff the word there is the expected one, drops the line either way |
| `MemoryHierarchy.Cache.FlushLine` | emulator/src/memory/Cache.cpp:758-764 | the line is clean and its block is below what the view shows |
| `MemoryHierarchy.Cache.Flush` | emulator/src/memory/Cache.cpp:730-745 | the same for the line of an address; no other block changes below |
| `MemoryHierarchy.Cache.FlushRange` | emulator/src/memory/Cache.cpp:747-769 | view kept; below, exactly the blocks that start in the range are what the view shows; exactly they are clean now |
| `MemoryHierarchy.StartsWhen` | emulator/src/memory/Cache.cpp:754-758 | the blocks of a range are those whose number times the block size is at least the start and below the end |
| `MemoryHierarchy.FlushedWhen` | emulator/src/memory/Cache.cpp:754-764 | which words of memory a flush of a range replaces: those whose block begins, at a multiple of the block size, in the range |
| `MemoryHierarchy.RangeExactIff` | emulator/src/memory/Cache.cpp:747-759 | for the blocks of the address space, the wrapped end bounds the range as the true end would, iff start + size < 2^32 or start lies after the last block's first address |
| `MemoryHierarchy.FlushedExactIff` | emulator/src/memory/Cache.cpp:747-769 | whatever caches and memory hold, flushing to the wrapped end writes below what flushing to the true end would, iff start + size < 2^32 or start lies after the base of the last block of the memory |
| `MemoryHierarchy.Cache.ReadWord` | emulator/src/memory/Cache.cpp:813-864 | as read, booked to core 0 |
| `MemoryHierarchy.Cache.WriteWord` | emulator/src/memory/Cache.cpp:866-941 | one word of the view changes; write-through leaves the line no dirtier |
| `MemoryHierarchy.Cache.ReadBlock` | emulator/src/memory/Cache.cpp:943-948 | the view's words from the address on |
| `MemoryHierarchy.Cache.WriteBlock` | emulator/src/memory/Cache.cpp:950-955 | the view's words from the address on are replaced |
| `Hierarchy.LastStoreWins` | emulator/src/memory/Cache.cpp:529-693 | a flat memory keeps in each word what was stored there last |
| `Hierarchy.DirtyIff` | emulator/src/memory/Cache.cpp:366-1176 | after any run from an empty cache a block is dirty iff it was stored to in the cache and has since been neither evicted nor dropped nor written back on request |
| `Hierarchy.ExactIff` | emulator/src/memory/Cache.cpp:612-1053 | on a cache: a bypassing store and an atomic are exact for every contents of the line iff the block is absent or clean |
| `Hierarchy.PlainRunAdmissible` | emulator/src/memory/Cache.cpp:529-941 | a run without atomics and stores to 0x82008-0x8201F or 0x20000-0x20FFF, and of aligned addresses, is admissible from any state |
| `Hierarchy.RecencyIsHistory` | emulator/src/memory/Cache.cpp:307-459 | from empty, without dropped lines, every set's recency order is that of its access history |
| `Hierarchy.HitRule` | emulator/src/memory/Cache.cpp:366-459 | in such a run an address hits iff its block was accessed before and fewer than associativity other blocks of its set since |
| `Hierarchy.PerformStore` | emulator/src/memory/Cache.cpp:608-693 | a store changes exactly its word of the view; one that bypasses the cache, if its block is not dirty |
| `Hierarchy.StoredWhere` | emulator/src/memory/Cache.cpp:608-693 | an aligned store to a new cache of any configuration over zeroed memory is booked a hit, is below and is absent from the cache iff it is to 0x82008-0x8201F or 0x20000-0x20FFF; otherwise it is in the cache and below is still 0 |
| `Hierarchy.SwappedAfterStore` | emulator/src/memory/Cache.cpp:608-1019 | an atomic swap after it returns what was stored, for exactly those addresses |
| `Hierarchy.WordStoredWhere` | emulator/src/memory/Cache.cpp:866-941 | a word request leaves its line in the cache, and reaches what is below iff it is to 0x82008-0x8201F |
| `Hierarchy.PerformWriteWord` | emulator/src/memory/Cache.cpp:866-941 | a word request from above changes exactly its word of the view, written through or not |
| `Hierarchy.PerformAccess` | emulator/src/memory/Cache.cpp:529-941 | loads, stores and word requests act on the view as on a flat memory; hits are those of LRU |
| `Hierarchy.PerformAtomic` | emulator/src/memory/Cache.cpp:958-1176 | on a block that is not dirty: returns the view's old word and changes exactly it: to the sum or the difference modulo 2^32, to the operand, or bit by bit to the and, or, exclusive or |
| `Hierarchy.AmoComputes` | emulator/src/memory/Cache.cpp:958-1176 | what each of the six operations makes of the old word and the operand, in numbers and bits |
| `Hierarchy.PerformCompareSwap` | emulator/src/memory/Cache.cpp:1021-1053 | on a block that is not dirty: returns the view's old word, changes it iff it is the expected one |
| `Hierarchy.Perform` | emulator/src/memory/Cache.cpp:529-1176 | each operation acts on the view as on a flat memory, on recency and on the dirty blocks as their history says, and is booked as hit or miss and as write-back |
| `Hierarchy.Replay` | emulator/src/memory/Cache.cpp:529-1176 | over a whole run: outputs, hits, final view, dirty blocks, write-backs and counters follow from the operations alone |
| `Hierarchy.Wire` | emulator/src/system/Simulator.cpp:64-74 | any number of accepted levels on zeroed DDR memory stands for a zeroed flat memory |
| `Hierarchy.RunHierarchy` | emulator/src/system/Simulator.cpp:64-74 | the refinement theorem: for any stack of caches and any run whose atomics and bypassing stores are for blocks that are not dirty by its history, each load and atomic returns the last value stored, hits are those of LRU, write-backs those of the history, counters obey the timing laws |
| `Hierarchy.StoreLost` | emulator/src/memory/Cache.cpp:612-646 | otherwise a store can be lost: one to 0x82000 is undone by a store to 0x82008 of the same block |
| `Hierarchy.FlushAsked` | emulator/src/memory/Cache.cpp:747-769 | a range that does not wrap, or starts after the last block: exactly the blocks that start in it, by its true end, are written below, and if it does not wrap exactly they become clean |
| `Hierarchy.FlushWrapped` | emulator/src/memory/Cache.cpp:747-769 | a range that runs past the last address: nothing is written below, and the same blocks are dirty |
| `Hierarchy.FlushMissed` | emulator/src/memory/Cache.cpp:747-769 | a concrete run in which a dirty line of the range is left behind |
| `Hierarchy.UnalignedLost` | emulator/src/memory/Cache.cpp:891-898 | a concrete run of a cache over DDR memory: an unaligned write-through store shows one word until its line is evicted, and another afterwards |
| `Hierarchy.PageTableBlock` | emulator/src/memory/Cache.cpp:618-624 | with blocks of at most a page, the block of a page-table address lies in the page table |
| `Hierarchy.PageTableStaysClean` | emulator/src/memory/Cache.cpp:616-646 | with blocks of at most a page, no run of loads and stores leaves a page-table line dirty |
| `Hierarchy.PageBlocksIff` | emulator/src/memory/Cache.cpp:618-624 | for accepted configurations, the block of every page-table address lies in the page table iff blocks are at most a page |
| `Hierarchy.PageTableDirtied` | emulator/src/memory/Cache.cpp:616-663 | with larger blocks, a store to 0x21000 leaves the line of 0x20000 dirty |
| `LoadStore.AlignedIff` | emulator/src/core/Core.cpp:737-751 | the core uses the address it is given iff that is naturally aligned |
| `LoadStore.LastByteWins` | emulator/src/core/Core.cpp:869-993 | after a run each byte is what the last store covering it put there, or as it was |
| `LoadStore.LoadAfterStore` | emulator/src/core/Core.cpp:615-993 | a load of what was just stored gets the stored bytes, extended; a word comes back whole |
| `LoadStore.LoadedValue` | emulator/src/core/Core.cpp:615-795 | what each of the five loads returns from byte memory as a number: lb and lh are extended from 0x80 and 0x8000, lbu and lhu are the plain bytes, a word weighs four bytes |
| `LoadStore.StoredValue` | emulator/src/core/Core.cpp:869-993 | what each byte of memory is after sb, sh or sw: a digit of the stored value to base 256, or as before |
| `LoadStore.SignExtends` | emulator/src/core/Core.cpp:670-672 | sign extension keeps the two's complement value |
| `LoadStore.MergedBytes` | emulator/src/core/Core.cpp:939-992 | read-modify-write replaces exactly the store's own bytes of the word |
| `LoadStore.WordStored` | emulator/src/core/Core.cpp:933-993 | writing the merged word stores exactly the instruction's bytes in byte memory |
| `LoadStore.WordLoaded` | emulator/src/core/Core.cpp:666-795 | what a load extracts from the word is what it would read from byte memory |
| `LoadStore.Execute` | emulator/src/core/Core.cpp:615-993 | each cached load or store acts on the cache's view as on little-endian byte memory |
| `LoadStore.RunInstructions` | emulator/src/core/Core.cpp:615-993 | so does every interleaving of them, given that no store bypasses the cache in a block that is dirty by the history |
| `LoadStore.RunProgram` | emulator/src/core/Core.cpp:615-993 | and on a freshly wired hierarchy of any caches |
| `Mmu.EntryRoundTrip` | emulator/src/memory/MMU.cpp:124-136 | frame and flags can be read back from a page-table word |
| `Mmu.PagingOff` | emulator/src/memory/MMU.cpp:201-203 | with base 0 every request, with any TLB contents, is answered by its own address |
| `Mmu.ParsedBits` | emulator/src/memory/MMU.cpp:124-168 | each field of an entry is one bit of its word, the frame the value without the lowest ten bits; a leaf is present and readable, writable or executable |
| `Mmu.WalkedWords` | emulator/src/memory/MMU.cpp:97-173 | for all tables: which word the walk ends at, in numbers: the direct leaf for a page of the first 4 MB, else that of the table the root entry points to, else none |
| `Mmu.RefusedAbsent` | emulator/src/memory/MMU.cpp:204-251 | an absent page is refused by a fault of the kind of the request: instruction, store, load |
| `Mmu.AnsweredPresent` | emulator/src/memory/MMU.cpp:204-260 | a page whose word is present goes to the frame in that word, except for a store if bit 2 is clear |
| `Mmu.MappedPage` | emulator/src/memory/MMU.cpp:97-173 | a table that maps a page to a frame makes accesses to the page go to the frame; the single-level shortcut is the only exception |
| `Mmu.PagesMove` | emulator/include/memory/MMU.h:194-198 | translation keeps the page offset and moves whole pages, or faults on whole pages |
| `Mmu.CachedIff` | emulator/src/memory/MMU.cpp:213-251 | an entry that mirrors the walk answers like it, except instruction writes to read-only pages |
| `Mmu.AnswerIff` | emulator/src/memory/MMU.cpp:190-260 | a sound TLB answers like no TLB, iff the request is not an instruction write that hits a read-only page |
| `Mmu.Mmu.FindTlbEntry` | emulator/src/memory/MMU.cpp:31-50 | the first valid entry of the page, made most recent; hit or miss counted |
| `Mmu.Mmu.AllocateTlbEntry` | emulator/src/memory/MMU.cpp:52-83 | the first invalid entry, else the least recent one, is given to the page and made most recent; none if the TLB is disabled |
| `Mmu.Mmu.UpdateTlbLru` | emulator/src/memory/MMU.cpp:85-95 | the entry is moved to the front, if the TLB is enabled |
| `Mmu.Mmu.ReadPageTableEntry` | emulator/src/memory/MMU.cpp:97-173 | the two-level walk with its single-level shortcut |
| `Mmu.Mmu.LoadTlbEntry` | emulator/src/memory/MMU.cpp:175-188 | any entry that is present goes to the first invalid or least recent slot, made most recent; the walk's own keeps the TLB sound, an absent page keeps it valid and is touched |
| `Mmu.Mmu.TranslateAddress` | emulator/src/memory/MMU.cpp:190-260 | answers from the TLB if it has the page, else from the walk; keeps soundness; the recency order and the counters follow |
| `Mmu.Mmu.FlushTlb` | emulator/src/memory/MMU.cpp:262-276 | an empty, sound TLB and zeroed counters, whatever was there |
| `Mmu.Replay` | emulator/src/memory/MMU.cpp:190-260 | from a flush on, every run answers as expected from its history alone |
| `Mmu.RunRequests` | emulator/src/memory/MMU.cpp:9-260 | TLB transparency for a new MMU of any page size and number of entries, over every request sequence: the answers are the walk's but for the one kind of request, hits are those of LRU, hits + misses = requests, faults are counted |
| `Mmu.ExpectedFaults` | emulator/src/memory/MMU.cpp:213-250 | the TLB never turns a fault into a translation or the reverse |
| `Mmu.MisreportedFault` | emulator/src/memory/MMU.cpp:204-251 | a concrete run in which the same request is an instruction fault from the TLB and a store fault from the walk |
| `Mmu.NewBaseIff` | emulator/include/memory/MMU.h:150 | after a new base without a flush, a request is answered by the new table iff paging is off, or the TLB does not answer it, or the two tables' entries agree on frame, presence and permission |
| `Mmu.StaleTranslation` | emulator/include/memory/MMU.h:150 | a concrete run in which it is wrong |
| `Coherence.CacheCoherence.HandleRead` | emulator/src/memory/Coherence.cpp:11-60 | the directory and the counters after a read; returns the reader's new state |
| `Coherence.CacheCoherence.HandleWrite` | emulator/src/memory/Coherence.cpp:62-116 | the same after a write; the writer is left Modified |
| `Coherence.CacheCoherence.DropOthers` | emulator/src/memory/Coherence.cpp:83-105 | all other copies are dropped, and each is counted |
| `Coherence.CacheCoherence.InvalidateOtherCores` | emulator/src/memory/Coherence.cpp:118-129 | the same, if the line is known |
| `Coherence.CacheCoherence.BroadcastUpdate` | emulator/src/memory/Coherence.cpp:131-138 | the same, and the broadcast is counted |
| `Coherence.StateFromHistory` | emulator/src/memory/Coherence.cpp:11-138 | over every history of any cores: Modified iff some own write is followed by own events only; a copy is held iff some own access is followed only by own events and others' reads |
| `Coherence.ReadWriteHistory` | emulator/src/memory/Coherence.cpp:11-116 | for reads and writes alone: the last writer owns until another core reads; the last writer and the readers since hold copies |
| `Coherence.SingleWriter` | emulator/src/memory/Coherence.cpp:62-116 | a Modified copy is the only copy |
| `Coherence.StepConserves` | emulator/src/memory/Coherence.cpp:11-138 | each event changes copies + invalidations by as much as misses |
| `Coherence.Replaced` | emulator/src/memory/Coherence.cpp:11-138 | changing one line changes the number of copies by that line's alone |
| `Coherence.RunEvents` | emulator/src/memory/Coherence.cpp:11-138 | over every run: returned states and final directory follow from the history; hits are the accesses of cores that by the history held a copy, all others misses; copies + invalidations = misses |
| `Plic.UpdatedMembers` | emulator/src/interrupt/PLIC.cpp:333-385 | updating a bit of a bitmap adds or removes that source of the set it stands for |
| `Plic.BestIsOptimal` | emulator/src/interrupt/PLIC.cpp:314-331 | no candidate is missed, none has a higher priority, none of equal priority a lower number |
| `Plic.NoWinnerIff` | emulator/src/interrupt/PLIC.cpp:314-331 | 0 iff no enabled pending source exceeds the threshold |
| `Plic.ClaimAgain` | emulator/src/interrupt/PLIC.cpp:239-242 | until completed, a repeated claim returns the same source and changes nothing |
| `Plic.ClaimMeans` | emulator/src/interrupt/PLIC.cpp:232-331 | a claim of a free target returns a pending enabled source above the threshold, of highest priority and the lowest such, which is then held and not pending; or 0 if there is none |
| `Plic.CompleteMeans` | emulator/src/interrupt/PLIC.cpp:255-267 | completing frees the target iff it holds that source |
| `Plic.LastPriority` | emulator/src/interrupt/PLIC.cpp:172-182 | in every run a source has the priority it was last given, modulo 8 |
| `Plic.LastThreshold` | emulator/src/interrupt/PLIC.cpp:211-221 | a target has the threshold it was last given, modulo 8 |
| `Plic.LastEnable` | emulator/src/interrupt/PLIC.cpp:193-201 | a source is enabled for a target iff that was the last setting |
| `Plic.LastPending` | emulator/src/interrupt/PLIC.cpp:138-146 | a source is pending iff it was last raised, not cleared, and not claimed since |
| `Plic.Plic.constructor` | emulator/src/interrupt/PLIC.cpp:6-40 | the defaults for out-of-range sizes; nothing pending, enabled or claimed |
| `Plic.Plic.SetPending` | emulator/src/interrupt/PLIC.cpp:138-146 | adds or removes the source; an invalid one changes nothing |
| `Plic.Plic.IsPending` | emulator/src/interrupt/PLIC.cpp:148-154 | whether the source is in the pending set |
| `Plic.Plic.SetPriority` | emulator/src/interrupt/PLIC.cpp:172-182 | the low three bits become the priority |
| `Plic.Plic.SetEnable` | emulator/src/interrupt/PLIC.cpp:193-201 | adds or removes the source for that target |
| `Plic.Plic.SetThreshold` | emulator/src/interrupt/PLIC.cpp:211-221 | the low three bits become the threshold |
| `Plic.Plic.FindHighestPriorityPending` | emulator/src/interrupt/PLIC.cpp:314-331 | the loop finds the winner |
| `Plic.Plic.HasPendingInterrupts` | emulator/src/interrupt/PLIC.cpp:269-284 | true iff there is a candidate for the target |
| `Plic.Plic.Claim` | emulator/src/interrupt/PLIC.cpp:232-253 | the claimed source if there is one, else the winner, which is then held and no longer pending |
| `Plic.Plic.Complete` | emulator/src/interrupt/PLIC.cpp:255-267 | gives up the claim iff it is of that source |
| `Plic.Plic.Reset` | emulator/src/interrupt/PLIC.cpp:286-304 | the initial state |
| `Plic.Conservation` | emulator/src/interrupt/PLIC.cpp:138-267 | over every run and for each source: raises = claims + clears + pending, and claims = releases + held |
| `Plic.Exclusion` | emulator/src/interrupt/PLIC.cpp:232-267 | if no source is raised while held, no two targets ever hold the same source |
| `Plic.ExclusionIff` | emulator/src/interrupt/PLIC.cpp:138-267 | over every run: no held source is ever pending, iff no event of the run raises a source while it is held |
| `Plic.NextClaimExclusiveIff` | emulator/src/interrupt/PLIC.cpp:172-253 | in an exclusive state with a free target: no held source is pending, iff no setting of enables, priorities and thresholds followed by a claim makes two targets hold one source |
| `Plic.ClaimedTwice` | emulator/src/interrupt/PLIC.cpp:232-253 | a concrete run in which two targets hold one source |
| `Plic.RunEvents` | emulator/src/interrupt/PLIC.cpp:6-304 | every run of a new controller of any requested size: claims return what the sets say, and the bitmaps end as the sets |
| `Boot.CodesRoundTrip` | emulator/src/system/MultiCoreMonitor.cpp:305-323 | decoding inverts encoding; encoding inverts decoding iff the value is one of the four codes |
| `Boot.MirrorWord` | emulator/src/system/MultiCoreMonitor.cpp:291-303 | each word of the mirror holds its core's code |
| `Boot.MirrorReads` | emulator/src/system/MultiCoreMonitor.cpp:291-323 | each state can be read back from the mirror |
| `Boot.SignalKeptIff` | emulator/src/system/MultiCoreMonitor.cpp:149-166 | the mirror leaves the release signal in memory iff there are at most 8192 cores |
| `Boot.SignalBytes` | emulator/src/system/MultiCoreMonitor.cpp:82-98 | the signal is the bytes EF BE AD DE at 0x98000 |
| `Boot.MirrorBytes` | emulator/src/system/MultiCoreMonitor.cpp:291-303 | each byte of memory after mirroring: codes from 0x90000 on, one word each; nothing else changes |
| `Boot.InitialBytes` | emulator/src/system/MultiCoreMonitor.cpp:6-39 | each byte of a new machine's memory: code 2 for core 0, 1 for the others, the phase flag at 0x98004 |
| `Boot.LoadedBytes` | emulator/src/system/Simulator.cpp:281-400 | before the first cycle each byte of memory is that of the loaded program, or else of the new machine |
| `Boot.ExecutingCodes` | emulator/src/system/MultiCoreMonitor.cpp:213-229 | a core may execute iff its code is 2, or it is core 0 and its code is 255 |
| `Boot.MultiCoreMonitor.constructor` | emulator/src/system/MultiCoreMonitor.cpp:6-39 | core 0 running, all others halted, nothing detected |
| `Boot.MultiCoreMonitor.CheckReleaseSignal` | emulator/src/system/MultiCoreMonitor.cpp:82-98 | true iff memory reaches that far and holds the magic word; a detection is remembered |
| `Boot.MultiCoreMonitor.HandleReleaseSignal` | emulator/src/system/MultiCoreMonitor.cpp:100-168 | acts once after a detection: halted cores but core 0 run, the cycle is noted, the states are mirrored if they fit |
| `Boot.MultiCoreMonitor.WriteStateToMemory` | emulator/src/system/MultiCoreMonitor.cpp:272-289 | states and phase flag are written, or nothing if they do not fit |
| `Boot.Simulator.constructor` | emulator/src/system/Simulator.cpp:23-112 | the initial machine, with states announced in memory |
| `Boot.Simulator.LoadProgram` | emulator/src/system/Simulator.cpp:281-400 | the bytes of the program are in memory, and nothing else has changed |
| `Boot.Simulator.ExecuteCoreStep` | emulator/src/system/Simulator.cpp:488-540 | the step of one core: skipped when finished or unreleased, otherwise booted, executed if the monitor allows |
| `Boot.Simulator.ReleaseAllCores` | emulator/src/system/Simulator.cpp:1179-1203 | flags and booted of all cores but core 0 are set |
| `Boot.Simulator.Check` | emulator/src/system/Simulator.cpp:600-632 | release and monitor act in the first cycle that sees the signal |
| `Boot.Simulator.Run` | emulator/src/system/Simulator.cpp:543-670 | the cycle loop does what the state machine says |
| `Boot.Simulator.DebugRun` | emulator/src/system/Simulator.cpp:1326-1366 | so does the debug loop |
| `Boot.AlwaysConsistent` | emulator/src/system/Simulator.cpp:488-632 | in every cycle of every run booted flags, core flags and monitor states agree on whether the release has happened |
| `Boot.ReleasedIff` | emulator/src/system/Simulator.cpp:598-632 | the release happens once, in the first cycle that sees the signal |
| `Boot.FinishedIff` | emulator/src/system/Simulator.cpp:515-535 | a core has finished iff in some earlier cycle it was free to step (core 0 always, another one after a seen signal) and its instruction was a jump to itself |
| `Boot.ExecutesIff` | emulator/src/system/Simulator.cpp:488-535 | a core executes iff it is core 0 or the signal was seen in an earlier cycle, and it has not jumped to itself yet |
| `Boot.StepBytes` | emulator/src/system/Simulator.cpp:488-540 | a step changes exactly the bytes that the instruction of an executing core writes |
| `Boot.CycleBytes` | emulator/src/system/Simulator.cpp:598-632 | after the steps of a cycle memory changes only in the first cycle that sees the signal, where every core's word in the mirror becomes 2 |
| `Boot.MirrorAfterRelease` | emulator/src/system/MultiCoreMonitor.cpp:147-153 | at the end of the cycle of the release every core reads as running in memory |
| `Boot.RunReaches` | emulator/src/system/Simulator.cpp:574-670 | a run goes on until its cycles are over or, at the end of a cycle, all cores have jumped to themselves, whichever is first |
| `Boot.SignalHandled` | emulator/src/system/Simulator.cpp:598-632 | from the first cycle on, and without a program from the start, a signal in memory has been seen and acted upon |
| `Boot.ReachedHandled` | emulator/src/system/Simulator.cpp:543-632 | in every reached machine with a core, flags, fields and states agree, and some core has not finished or the signal has been acted upon |
| `Boot.DebugIsRun` | emulator/src/system/Simulator.cpp:1326-1366 | from every machine that any sequence of runs and debugging sessions of any program reaches: debugging ends like running, but for the noted cycle, iff there is a core, or no cycles, or no signal left to act upon; in as many cycles iff some core has not finished |
| `Boot.FinishedAtEntryIff` | emulator/src/system/Simulator.cpp:1326-1339 | on any machine with all cores finished they agree iff the signal is absent or already handled |
| `Boot.BootAndRun` | emulator/src/system/Simulator.cpp:543-670 | for every program and number of cores: all secondaries released iff the signal was seen, and since its first cycle; the run takes all its cycles unless every core has looped, and ends with the first cycle in which that is so |
| `Boot.BootAndDebug` | emulator/src/system/Simulator.cpp:1326-1366 | the same for debugging, over as many cycles; no release cycle is noted |
| `Boot.NoCores` | emulator/src/system/Simulator.cpp:574-632 | a concrete machine without cores, on which running sees the loaded signal and debugging does not |
| `Vsnprintf.DivMod10` | software/init_code/vprintf.c:5-32 | exact quotient and remainder, by subtraction only |
| `Vsnprintf.NumberRoundTrip` | software/init_code/vprintf.c:83-100 | the digits read back as the number, and only 0 starts with a zero |
| `Vsnprintf.ScratchSuffices` | software/init_code/vprintf.c:84-93 | at most 10 decimal or 8 hexadecimal digits: the 20 bytes of scratch are never exceeded |
| `Vsnprintf.Reverse` | software/init_code/vprintf.c:94-99 | reverses the scratch buffer in place |
| `Vsnprintf.DecimalText` | software/init_code/vprintf.c:153-180 | sign and digits, in order, in the scratch buffer |
| `Vsnprintf.HexText` | software/init_code/vprintf.c:216-232 | hexadecimal digits, in order, in the scratch buffer |
| `Vsnprintf.PutAll` | software/init_code/vprintf.c:141-143 | appends a text as far as there is room |
| `Vsnprintf.PutHex` | software/init_code/vprintf.c:234-255 | appends a hexadecimal conversion with its zero padding |
| `Vsnprintf.HexPiece` | software/init_code/vprintf.c:234-255 | a hexadecimal conversion is as wide as asked for or needed and reads as the number; without a width it has no leading zero |
| `Vsnprintf.EightDigitsIff` | software/init_code/vprintf.c:211-256 | without a width there are eight digits iff the number is at least 0x10000000; zero has one |
| `Vsnprintf.WidthHeededIff` | software/init_code/vprintf.c:68-273 | a width changes the text of a conversion iff that is hexadecimal and has fewer digits |
| `Vsnprintf.LongForm` | software/init_code/vprintf.c:79-138 | what a long form renders as, and when it is well-formed |
| `Vsnprintf.LongDroppedIff` | software/init_code/vprintf.c:79-138 | a long form is dropped silently, whatever follows and whatever the arguments, iff it is none of u, x and X |
| `Vsnprintf.WidthRead` | software/init_code/vprintf.c:63-76 | a decimal number after the percent sign, with or without a leading zero, is the width, whatever follows |
| `Vsnprintf.DecimalPrinted` | software/init_code/vprintf.c:83-180 | %u, %lu and %d print the decimal digits, with a sign for negative numbers |
| `Vsnprintf.HexPrinted` | software/init_code/vprintf.c:105-256 | %x, %X and %lx print the hexadecimal digits, filled with zeros up to any width given |
| `Vsnprintf.TextPrinted` | software/init_code/vprintf.c:186-271 | %s and %c print their argument, any other character prints itself |
| `Vsnprintf.Convert` | software/init_code/vprintf.c:77-271 | each conversion appends its piece, fetches its argument and moves past its specifier |
| `Vsnprintf.Vsnprintf` | software/init_code/vprintf.c:51-281 | for every size >= 1 and well-formed format: the first min(size - 1, length) characters of the rendering, then NUL, the rest of the buffer untouched, that count returned |
| `Vsnprintf.Printf` | software/init_code/vprintf.c:35-48 | sends the first 1023 characters at most |
| `Vsnprintf.EscapedText` | software/init_code/vprintf.c:54-61 | any text renders as itself once its percent signs are doubled |
| `Vsnprintf.RenderConcat` | software/init_code/vprintf.c:51-273 | a format in two parts renders as its parts do, with the arguments left |
| `Trap.ReadWrite` | emulator/src/core/Core.cpp:1763-1980 | for all registers: a write is read back from a writable register as far as its mask lets it, resets the counters it controls, carries over between machine and supervisor status, and is seen nowhere else |
| `Trap.MergedParts` | emulator/src/core/Core.cpp:1861-1870 | a masked write takes the bits of the mask from the value and leaves all others |
| `Trap.ReadAgain` | emulator/src/core/Core.cpp:1763-1854 | a read changes what later reads return for the time register only, which it moves on |
| `Trap.PrivilegeSaved` | emulator/src/core/Core.cpp:2419-2427 | the privilege noted on entry is the one MRET restores |
| `Trap.InterruptBits` | emulator/src/core/Core.cpp:1502-1512 | after entry interrupts are off; after the round trip they are on iff MIE or MPIE was set |
| `Trap.TrapEntry` | emulator/src/core/Core.cpp:2409-2456 | what a trap to machine mode notes, where it goes, and that no other register changes |
| `Trap.TrapRoundTrip` | emulator/src/core/Core.cpp:2354-2454 | from every state, trap and MRET restore pc and privilege and change only MIE, MPIE and MPP; MIE is restored iff it was set or MPIE clear |
| `Trap.InterruptsTurnedOn` | emulator/src/core/Core.cpp:2420-2423 | a concrete status for which MIE is not restored |
| `Trap.DelegatedEntry` | emulator/src/core/Core.cpp:2361-2408 | the same for a delegated trap |
| `Trap.DelegatedForgetsPrivilege` | emulator/src/core/Core.cpp:2376-2379 | delegated traps from user and from supervisor mode leave the same state |
| `Trap.NotedPrivilegeIff` | emulator/src/core/Core.cpp:2376-2379 | after a delegated trap the supervisor status shows the privilege it was taken from iff that is user mode |
| `Trap.TargetValue` | emulator/src/core/Core.cpp:2388-2454 | a trap goes to the vector's base, the multiple of 4, and in mode 1, by its two low bits, to four times the cause beyond it |
| `Trap.SstatusBits` | emulator/src/core/Core.cpp:1771-1791 | which machine status bits each bit of the supervisor status shows |
| `Trap.EnteredBits` | emulator/src/core/Core.cpp:2418-2427 | each status bit after a trap: MIE clear, MPIE the old MIE or MPIE, MPP the old privilege, all others as before |
| `Trap.DelegatedBits` | emulator/src/core/Core.cpp:2372-2388 | each status bit after a delegated trap |
| `Trap.ReturnedBits` | emulator/src/core/Core.cpp:1489-1524 | each status bit after MRET |
| `Trap.LaterValue` | emulator/src/core/Core.cpp:1830-1834 | reading the time adds 50 plus five times the core number, modulo 2^32 |
| `Trap.TrapByNumber` | emulator/src/core/Core.cpp:2409-2456 | after a trap, what is read from each register by its number |
| `Trap.DelegatedByNumber` | emulator/src/core/Core.cpp:2361-2408 | after a delegated trap, the same |
| `Trap.WriteByNumber` | emulator/src/core/Core.cpp:1763-1980 | what each register, by its number, reads after a write of any other, by its number |
| `Trap.Core.Read` | emulator/src/core/Core.cpp:1763-1854 | what a read returns, and the registers after it |
| `Trap.Core.Write` | emulator/src/core/Core.cpp:1856-1980 | the register file and the counters after a write |
| `Trap.Core.TakeException` | emulator/src/core/Core.cpp:2354-2458 | the state after a trap |
| `Trap.Core.Mret` | emulator/src/core/Core.cpp:1489-1524 | the state after a return |

## Left out

- Addresses of the memory hierarchy are physical: the MMU inside the caches is taken as absent.
- CacheAddress.CalculateParameters: leaves out a block size of 2 bytes, which the assertions accept. Such a block holds no whole word, and the first access would read past its line.
- MemoryHierarchy.Cache.constructor: the same.
- MemoryHierarchy.Cache.Write: leaves out unaligned stores to 0x82008-0x8201F, and unaligned stores to the page table if DDR memory lies directly below. They reach DDR memory as four bytes of two words while the cache takes them as one word, so that what a line shows and what is below come apart (`MemoryHierarchy.AlignedStoreIff`, `Hierarchy.UnalignedLost`). `sb` and `sh` never make such a store (`LoadStore.WordAddress`), an unaligned `sw` can.
- MemoryHierarchy.Cache.StoreBypassing: the same.
- MemoryHierarchy.Cache.StoreThrough: leaves out unaligned stores to 0x82008-0x8201F if another cache lies below; over DDR memory they are specified on the line and the bytes.
- MemoryHierarchy.Cache.Atomic: leaves out unaligned addresses, all of them if DDR memory lies directly below, otherwise those in 0x82008-0x8201F, for the same reason.
- MemoryHierarchy.Cache.CompareAndSwap: as Atomic.
- MemoryHierarchy.Cache.WriteWord: leaves out unaligned requests to 0x82008-0x8201F, for the same reason; the caches themselves only make aligned ones.
- MemoryHierarchy.Cache.WriteBlock: as WriteWord.
- MemoryHierarchy.Memory.WriteWord: as WriteWord of a cache; an unaligned write to DDR memory is specified on its bytes.
- MemoryHierarchy.Memory.WriteBlock: as WriteWord of a cache; an unaligned write to DDR memory is specified on its bytes.
- Hierarchy.RunHierarchy: takes the unaligned requests named above out of the runs, and so do Replay, PageTableStaysClean and the members for single operations (`Hierarchy.Lands`).
- LoadStore.RunProgram: takes the unaligned `sw` named above out of the programs, and so do Execute and RunInstructions.
- The refinement theorem speaks of one core. The program does not keep the first-level caches of several cores coherent (the directory is never consulted by a load or store), so no such theorem holds.
- The fallbacks of a cache without a memory below it, `invalidate_all`, copying and printing a cache.
- The lines and recency lists of a cache are fields holding sequences that the methods reassign; aliasing of entry pointers is not captured.
- DDR latency, its callbacks and its own atomic operations; reads and writes of DDR are merely counted.
- Counters are unbounded, the source's have 64 bits. The per-core write-back counter is never updated by the program.
- Loads and stores of a core on device and uncached regions, the page faults they may take, and the profilers they feed.
- Page-table words do not change during a run of the MMU. Per-core TLB counters, superpages, and the permission checks that the program does not make.
- The memory-mapped registers of the interrupt controller, which only decode addresses to the operations modelled, and `claim_interrupt`, which is not part of the claim protocol. Locks: each call is one step.
- In the boot protocol instructions are arbitrary writes to memory; interrupts, waiting for them, timers, debugger stops and exceptions of the host are not modelled. The state setters and the halting of all cores are never called by the program.
- The parsing of a program file; loading puts arbitrary bytes into memory.
- Formats that end in a width or in `%l`, widths beyond an int, INT_MIN for `%d` and a buffer of size 0, all of which are undefined or unbounded in C. Exception causes of 32 and more, for which the shift of the delegation register is undefined.
- What the performance counters count, the effect of a write to satp on the MMU, supervisor return, LR/SC and all other instructions. The other cores' writes to the shared counters.
- The disassembler, debugger, loggers, profilers, UART, ELF loading, command line, AI extensions and the TVM runtime: they format text, connect the parts or compute with floating-point kernels, and none of the properties here depends on them.
