# JOS-vmx: a verified model of the kernel's core

A Dafny model of the parts of JOS-vmx (a small x86 teaching kernel in C) whose correctness
does not show from reading one function: physical pages with two-level page tables and 16-bit
reference counts, the boot-time construction of the kernel's address space, the intrusive
lists underneath, the search in the debug records, the boot image and its loader, formatted
output and number parsing, and the console. `dafny verify dfyconfig.toml` checks all of it.

## How the model is built

The code works by changing memory, and so do the methods here. Each is proved against a
function on values, and the results about whole runs are lemmas about those functions.

| files | what they model |
|---|---|
| `Bits`, `Mmu`, `Options` | words, shifts and masks, addresses and page table entries |
| `Queue` | `inc/queue.h`: element links and list heads in arrays, `le_prev` as the name of a slot |
| `PageState`, `PageInvariant`, `AddressSpace`, `PageRuns` | the `page_` functions of `kern/pmap.c` as transitions on a state, their invariant, what they do to the address space, and runs at their limits |
| `Memory`, `Pmap`, `PageCheck` | the same functions in place, on an array of words, `pp_ref`, and the free list; the kernel's own test |
| `BootState`, `Boot`, `KernelInit` | `boot_alloc`, the boot mappings and their check, `page_init`, and the order in which `i386_init` calls them |
| `Stabs`, `DebugInfo` | `kern/kdebug.c` |
| `BootDisk`, `Loader` | `boot/mkbootdisk.c` and `boot/main.c` |
| `Numbers`, `Format`, `Printf` | `printnum`, `vprintfmt`, `vsnprintf` and `strtol` |
| `Crt`, `ConsoleInput` | the display and the input ring of `kern/console.c` |

Choices that hold throughout:

- A word is an integer below 2^32. Masks, shifts and ors are written as division, remainder and
  sum; the lemmas of `Mmu` show that these are the bit operations of the macros. `pp_ref`
  wraps at 2^16.
- A `struct Page *` is a page number, a `pte_t *` is a table and an index in it. Physical memory is
  a two-dimensional array, 1024 words a page. The `pages` array is kept as two arrays, the counts
  and the links.
- The `Inv` of `PageState` says: every directory entry is empty or points to a table of its own; all
  non-empty entries are present; the free pages are distinct, not used by the boot code and have count 0;
  and `pp_ref` of every page is the number of directory and table entries that point to it, for the
  directory entries below ULIM (those above were made at boot and are not counted).
- Arguments that come from outside (disk contents, device input, `end`, `bootstack`, the size and the
  contents of memory) are parameters.

## Where the code and its comments differ

The model follows the code.

- `page_lookup` never tests the entry it finds (kern/pmap.c:611). With a page table and an empty entry it
  answers page 0, so `page_remove`, which promises to do nothing there (lines 614-615), takes a
  reference from page 0. `PageInvariant.RemoveKeepsInv` states exactly when the invariant survives,
  `AddressSpace.RemoveAfterWalkTakesPageZero` is a run that breaks it, and `PageRuns.AnyRunDamages` says what
  is left of it in every run with such calls: all but the count of page 0, which is minus their number. The
  65536th frees page 0.
- `page_insert` tests `*pte && PTE_P` (line 579), which is "not zero". Under the invariant that is
  "present".
- `pp_ref` is a `uint16_t` (inc/memlayout.h:177). `PageInvariant.InsertKeepsInv` says exactly when an
  insertion overflows it; the code does not test this, and `PageRuns.CountOverflows` is a run that gets there.
- `boot_alloc` does not panic, and `nextfree` stays unaligned until the next call (kern/pmap.c:250-252).
- `boot_pgdir_walk` does not clear a new table (lines 293-297). All entries of the tables behind KERNBASE are
  written, but the page table of the stack keeps what its page had: the range below the stack, which the
  comment at lines 134-136 leaves unmapped, is so exactly when those words have no present bit
  (`BootState.GuardedIffNotPresent`). Nothing else depends on the contents of memory.
- `page_init` also keeps base memory off the free list, as `PADDR(KERNBASE)` is 0 (line 431).
- The comment of `stab_binsearch` says that left > right means "not contained in any matching stab"
  (kern/kdebug.c:32-34). `Stabs.EmptyAnswer` shows that left > right means that there is no record of the
  kind at all; when all of them are above the address, none contains it, but the bracket is not empty
  (`Stabs.AboveIsNotEmpty`).
- `stab_binsearch` steps the address by one on an exact match. When a record has the next address, the answer
  can be the wrong record (`Stabs.StepsTooFar`) or the right one (`Stabs.StepsInTime`): that depends on whether
  bisection has dropped that record when it meets the address. `Stabs.SearchBrackets` states the exact
  condition, for every address, the last ones before the wrap included.
- When all functions of a file are above the address, `debuginfo_eip` takes the record of the file for the
  function, and when all lines are above it, the first record for the line: the searches answer brackets that are
  not empty (`DebugInfo.SearchesFind`).
- A precision of 0 cannot be written: the 0 is read as the flag (`Format.ZeroPrecisionPrinted`). With `-`, numbers
  are padded with minus signs in front of their digits (`Format.UnsignedPrinted`).
- `debuginfo_eip` takes lfile == 0 for "no file" (line 143). If the first record is a source file above the
  address, the search answers -1, which is not caught (`DebugInfo.NegativeFile`); if it is the last file at or
  below the address, the file is reported as missing (`DebugInfo.FirstFileIsMissed`).
- Installing a page table changes the translation of one more address, the one in the window at VPT that
  shows the new table: `AddressSpace.InsertTranslates` has it as a case.

## Model

| member | source | states |
|---|---|---|
| Mmu.PageMacros | inc/mmu.h:30-39 | `PGNUM`, `PGOFF` and `PTX`, written with shifts and masks, are the quotient and remainders that the model uses, for every address |
| Mmu.DirectoryMacro | inc/mmu.h:33 | the same for `PDX` |
| Mmu.AddressFields | inc/mmu.h:25-27 | an address is put together from its two indices and its offset |
| Mmu.EntryMacros | inc/mmu.h:73 | `PTE_ADDR` yields the address of the page of an entry, and masking with `PTE_P` yields its present bit |
| Mmu.EntryIsOr | kern/pmap.c:582 | or-ing the address of a page, `PTE_P` and permissions gives the entry with that page and exactly those flags |
| Mmu.SamePage | inc/mmu.h:19-39 | two addresses are on one page if and only if their two indices agree |
| Queue.PrevHoldsElement | inc/queue.h:121-128 | in every list, the slot that an element's `le_prev` names holds that element |
| Queue.RepresentsUnique | inc/queue.h:109-133 | links and heads stand for at most one family of sequences |
| Queue.InsertionRepresents | inc/queue.h:177-206 | the link changes of an insertion at any position of any list give the family with the element there, and all other lists unchanged |
| Queue.RemovalRepresents | inc/queue.h:212-217 | the same for taking out any position |
| Queue.OtherListUntouched | inc/queue.h:172-217 | a change to the links of one list leaves every other list as it was |
| Queue.ListMemory.Init | inc/queue.h:168-170 | the head's list is empty, the others are as before, and no link changes |
| Queue.ListMemory.InsertHead | inc/queue.h:201-206 | the list has the element in front; links of elements elsewhere do not change |
| Queue.ListMemory.InsertAfter | inc/queue.h:177-183 | the list has the element behind the given one, without the head being known |
| Queue.ListMemory.InsertBefore | inc/queue.h:190-195 | the list has the element before the given one, through `le_prev` alone, even at the head |
| Queue.ListMemory.Remove | inc/queue.h:212-217 | the list lacks the element, through `le_prev` alone; the element's own links stay dangling |
| Queue.ListMemory.ClearLink | kern/pmap.c:479 | clearing the links of an element that is in no list changes no list |
| PageInvariant.AllocKeepsInv | kern/pmap.c:470-482 | allocation keeps the invariant, fails if and only if nothing is free, and hands out a page that nothing points to and that is free no longer |
| PageInvariant.FreeKeepsInv | kern/pmap.c:484-494 | freeing keeps the invariant if and only if the page exists, is not the boot code's, is not free already and has count 0 |
| PageInvariant.WalkKeepsInv | kern/pmap.c:521-542 | a walk keeps the invariant, whether it installs a table, finds one or fails |
| PageInvariant.InstallCount | kern/pmap.c:531-537 | installing a table adds one reference, to the page that became the table, and changes no other count |
| PageInvariant.CountAfterWrite | kern/pmap.c:582 | writing one table entry changes the references of each page by what the old and the new entry say |
| PageInvariant.WriteEffect | kern/pmap.c:575-584 | increment, remove, write: the three outcomes for counts and free list, whether the entry was empty, had the same page, or had another one |
| PageInvariant.WriteKeepsInv | kern/pmap.c:575-584 | with the table there, the invariant is kept if and only if the 16-bit count does not overflow |
| PageInvariant.InsertKeepsInv | kern/pmap.c:563-585 | `page_insert` keeps the invariant if and only if it fails, or the page is mapped there already, or its count is below 65535 |
| PageInvariant.InsertFails | kern/pmap.c:557-573 | it fails if and only if it needs a table and no page is free, and then changes nothing |
| PageInvariant.RemoveEffect | kern/pmap.c:627-649 | removing a mapping takes one reference from its page and frees it exactly when that was the last one |
| PageInvariant.RemoveEmptyBreaksCount | kern/pmap.c:611-640 | with a table and an empty entry, the count of page 0 goes down although nothing pointed to it less |
| PageInvariant.RemoveKeepsInv | kern/pmap.c:614-649 | `page_remove` keeps the invariant if and only if the address has no page table or a non-empty entry |
| PageInvariant.WalkKeepsContents | kern/pmap.c:521-542 | pages that are in use and no tables keep their contents, whether or not the walk installs a table |
| PageInvariant.InsertKeepsContents | kern/pmap.c:563-585 | so they do over an insertion, successful or not |
| PageInvariant.RemoveKeepsContents | kern/pmap.c:627-649 | and over a removal, for all pages that are no tables |
| AddressSpace.WalkTranslates | kern/pmap.c:521-542 | a walk changes no translation, except that a table it installs shows up in the window |
| AddressSpace.InsertTranslates | kern/pmap.c:544-585 | after a success the page of `va` maps to exactly `pp` with permissions `perm` and `PTE_P`, and every other address translates as before, permissions too, but for the window |
| AddressSpace.RemoveTranslates | kern/pmap.c:614-649 | the page of `va` is unmapped and every other address translates as before, even when page 0 loses a reference |
| AddressSpace.ReinsertKeepsCounts | kern/pmap.c:554-555 | inserting a page where it is already changes the permissions only: no count, no free page, no other word, even at count 65535 |
| AddressSpace.RemoveUndoesInsert | kern/pmap.c:563-649 | inserting at an unmapped address and removing there restores memory and counts, and frees the page if nothing else referenced it |
| AddressSpace.RemoveAfterWalkTakesPageZero | kern/pmap.c:594-649 | a creating walk followed by `page_remove` of that unmapped address breaks the invariant by taking a reference from page 0 |
| AddressSpace.WindowShowsEntries | inc/memlayout.h:137-145 | for every `va` with a page table, the address of `vpt[PGNUM(va)]` translates to the table of `va`, at the byte of its entry |
| AddressSpace.WindowShowsDirectory | kern/entry.S:77-80 | `vpd`, at VPT + (VPT >> 10), translates to the page directory |
| AddressSpace.StepKeepsInv | kern/pmap.c:470-649 | each call that respects what its callers must respect keeps the invariant |
| AddressSpace.RunKeepsInv | kern/pmap.c:470-649 | in every state of every run of such calls, each `pp_ref` is the number of stored pointers, and no free page is pointed to |
| AddressSpace.StepTranslates | kern/pmap.c:470-649 | what one call does to the translation of any one user page |
| AddressSpace.StepRefinesMap | kern/pmap.c:470-649 | each call does to the user address space what an update or a deletion does to a map from pages to mappings |
| AddressSpace.RunRefinesMap | kern/pmap.c:470-649 | after every run the address space is the map that the same calls compute |
| PageRuns.FilledIs | kern/pmap.c:563-585 | inserting one page at n < 65536 addresses in a row gives it count n and keeps the invariant, from any state with 64 free pages and 64 empty directory entries |
| PageRuns.CountOverflows | kern/pmap.c:575-576 | each of 65535 such calls is one that callers may make; one more succeeds, sets the count to 0 with 65536 references stored, and breaks the invariant |
| PageRuns.RoomAfterAlloc | kern/pmap.c:470-482 | a page that was just allocated can be that page |
| PageRuns.StepCommutes | kern/pmap.c:470-649 | calls that respect what callers must respect neither see nor change the count of page 0 |
| PageRuns.WrongRemoveEffect | kern/pmap.c:611-648 | `page_remove` with a page table and an empty entry takes one from the count of page 0, modulo 65536, frees page 0 when that gives 0, and changes nothing else |
| PageRuns.AnyRunDamages | kern/pmap.c:470-649 | after every run with k < 65536 such calls among others, the invariant holds but for the count of page 0, which is -k modulo 65536 |
| PageRuns.AnyRunFreesPageZero | kern/pmap.c:498-503 | the 65536th puts page 0 on the free list, and the next allocation hands it out |
| Memory.CheckVa2Pa | kern/pmap.c:332-344 | the walk in software answers the translation of the address, or all ones if it has none |
| Pmap.Pmap.PageAlloc | kern/pmap.c:470-482 | in place, the transition `Alloc` with its result code; links outside the free list are not touched |
| Pmap.Pmap.PageFree | kern/pmap.c:490-494 | in place, the page goes to the front of the free list |
| Pmap.Pmap.PageDecref | kern/pmap.c:498-503 | in place, the count goes down, across the wrap too, and the page is freed at 0 |
| Pmap.Pmap.PgdirWalk | kern/pmap.c:521-542 | in place, the transition `Walk`: table found, not wanted, not to be had, or installed and cleared |
| Pmap.Pmap.PageLookup | kern/pmap.c:594-612 | in place, nothing changes; the answer is the page in the entry, tested or not, and where the entry is |
| Pmap.Pmap.PageRemove | kern/pmap.c:627-649 | in place, the transition `Remove`, for every state in which the page it picks exists and is not free |
| Pmap.Pmap.ReplaceEntry | kern/pmap.c:575-584 | in place, the order increment, remove, write |
| Pmap.Pmap.PageInsert | kern/pmap.c:563-585 | in place, the transition `Insert` with its result code |
| Pmap.Pmap.CheckVa2Pa | kern/pmap.c:332-344 | the software walk from the kernel's directory |
| Pmap.EntryReplaceable | kern/pmap.c:570-580 | from a good state, what `page_insert` needs of the entry it found: the page in it exists and is not free |
| PageCheck.TakePages | kern/pmap.c:668-683 | the first six assertions hold; the rest of the free list is detached with its links intact |
| PageCheck.InstallStep | kern/pmap.c:691-697 | the freed page becomes the page table |
| PageCheck.InsertFirst | kern/pmap.c:691-697 | the insertion at 0 takes that table and counts 1 for both pages |
| PageCheck.InsertSecond | kern/pmap.c:699-702 | the insertion at PGSIZE needs no table |
| PageCheck.InsertAgain | kern/pmap.c:707-714 | inserting it again changes nothing |
| PageCheck.InsertOver | kern/pmap.c:719-727 | replacing it frees the displaced page |
| PageCheck.RemoveFirst | kern/pmap.c:732-737 | the removal at 0 leaves the other mapping of the page |
| PageCheck.RemoveSecond | kern/pmap.c:739-744 | the removal at PGSIZE frees the page |
| PageCheck.CheckNothingMapped | kern/pmap.c:685-689 | these assertions hold and nothing changes |
| PageCheck.CheckFirstInsert | kern/pmap.c:691-697 | these assertions hold and this state is reached; no link outside the three pages changes |
| PageCheck.CheckSecondInsert | kern/pmap.c:699-705 | these assertions hold and this state is reached |
| PageCheck.CheckInsertAgain | kern/pmap.c:707-717 | these assertions hold and the state is the same |
| PageCheck.CheckReplacement | kern/pmap.c:719-730 | these assertions hold and this state is reached |
| PageCheck.CheckFirstRemove | kern/pmap.c:732-737 | these assertions hold and this state is reached |
| PageCheck.CheckSecondRemove | kern/pmap.c:739-750 | these assertions hold and this state is reached |
| PageCheck.TakeTableBack | kern/pmap.c:752-756 | clearing the entry and the count by hand restores directory and counts |
| PageCheck.RestoreFreeList | kern/pmap.c:758-759 | the stolen list is the free list again: its first `le_prev` named the head all the time |
| PageCheck.GiveBack | kern/pmap.c:758-764 | the free list is the old one with its first three pages in the opposite order |
| PageCheck.GivenBackKeepsInv | kern/pmap.c:752-764 | that last state satisfies the invariant |
| PageCheck.PageCheck | kern/pmap.c:661-767 | from every good state with three free pages and directory entries 0 and 1 empty, every assertion holds; all counts, the directory and all memory but the page of the table are as before |
| BootState.ChunksAreDisjoint | kern/pmap.c:220-255 | in every sequence of calls of `boot_alloc` all chunks start on pages, do not overlap, and asking for nothing twice answers the same |
| BootState.WalkKeepsBootInv | kern/pmap.c:276-303 | a boot-time walk keeps the tables distinct and inside allocated memory; a new table shows what its page had before, and its directory entry has the permissions in `create` |
| BootState.BootMapStep | kern/pmap.c:318-323 | one round maps one page and takes a page for a table if and only if there was none; every other page maps as before, or as a new table's memory has it |
| BootState.SegmentStep | kern/pmap.c:312-324 | a segment of any length grows by one page, everything else unchanged but for what new tables show; new directory entries have the segment's permissions and old ones stay as they are |
| BootState.AllMissing | kern/pmap.c:277-324 | a segment in unused directory entries takes exactly one page for each of them |
| BootState.KernelSegments | kern/pmap.c:131-153 | the two segments give the kernel's address space, whatever was in memory: stack, all of physical memory, nothing else outside the window but below the stack what its table's page had; all 66 directory entries are present and writable |
| BootState.GuardedIffNotPresent | kern/pmap.c:130-136 | the range below the stack is unmapped if and only if the first 1016 words of that page had no present bit |
| BootState.LowMemoryMapped | kern/pmap.c:182-184 | with the directory entry of KERNBASE at 0 as well, the first 4 MB are those of physical memory, and no other translation changes |
| BootState.KernelIsChecked | kern/pmap.c:131-169 | that address space is one that `boot_mem_check` accepts, guarded or not |
| Boot.BootMemory.BootAlloc | kern/pmap.c:229-255 | the chunk starts where the last one ended, rounded up to a page |
| Boot.BootMemory.BootPgdirWalk | kern/pmap.c:276-303 | in place, for `create` 0 nothing changes and the answer is the existing table's entry or nothing; otherwise the transition `BootWalk` |
| Boot.BootMemory.BootMapPage | kern/pmap.c:318-323 | in place, one round of the loop |
| Boot.BootMemory.BootMapSegment | kern/pmap.c:306-324 | the directory entries that it makes have `perm` and `PTE_P` too; the pages that the size reaches into are mapped, in order, with permissions `perm` and `PTE_P`, for sizes that are no multiple of a page too; the memory used is exactly the missing tables |
| Boot.BootMemory.BootDirectory | kern/pmap.c:120-128 | an empty directory that points to itself at VPT |
| Boot.BootMemory.MapStack | kern/pmap.c:131-143 | the 8 pages below KSTACKTOP are the boot stack; one page is used |
| Boot.BootMemory.MapKernel | kern/pmap.c:120-153 | the kernel's address space, with 66 pages used for directory and tables |
| Boot.BootMemory.BootMemInit | kern/pmap.c:120-169 | the whole of it, for every `npages` and `end` that fit and every contents of memory; `boot_mem_check` passes; which page is the first unused one |
| Boot.BootMemory.MapAddressZero | kern/pmap.c:184-214 | between the two writes the first 4 MB are mapped like those at KERNBASE; afterwards memory is as it was |
| Boot.BootMemory.BootMemCheck | kern/pmap.c:353-384 | the check passes if and only if physical memory, stack and directory entries are as they should be |
| Boot.BootMemory.CheckPhysicalMemory | kern/pmap.c:358-360 | the loop, whose address wraps to 0 at its end, passes if and only if every page from KERNBASE on is mapped to its offset |
| Boot.BootMemory.CheckStack | kern/pmap.c:362-364 | passes if and only if the stack range is mapped to `bootstack` |
| Boot.BootMemory.CheckDirectory | kern/pmap.c:367-381 | passes if and only if the entries in use are those of VPT, the stack and the kernel |
| KernelInit.FreePagesExact | kern/pmap.c:416-438 | the free list has exactly the pages that are not 0, not between 640 KB and 1 MB and not used by the boot code, in descending order |
| KernelInit.PageInit | kern/pmap.c:396-439 | in place, that list, and every count 0; the calls of `boot_alloc(0)` do not move anything |
| KernelInit.InitialInv | kern/pmap.c:386-439 | the boot tables with that free list satisfy the invariant, so no boot page is ever handed out |
| KernelInit.InitMemory | kern/init.c:27-29 | from any contents of memory, `boot_mem_init` and `page_init` establish the invariant and the kernel's address space, with the free list in closed form |
| KernelInit.InitAndCheck | kern/init.c:27-30 | and `page_check` passes on it when three pages are left; the free list that results |
| Stabs.HalveDescends | kern/kdebug.c:56-82 | every round shortens the interval, or keeps it and moves the address off an exact match at its first record: the search ends on every table, sorted or not |
| Stabs.EarliestWithKind | kern/kdebug.c:59-61 | the backward scan finds the last record of the kind in [l, m], or l - 1 |
| Stabs.FindRightmost | kern/kdebug.c:84-93 | the code behind the loop |
| Stabs.StabBinsearch | kern/kdebug.c:50-94 | the method in place ends on every table, stays inside it, and computes `BinSearch`, to which the next rows apply |
| Stabs.HalveNarrows | kern/kdebug.c:56-82 | the invariant of the search: what is right of the interval is above the address, what is left of it is summed up by `*region_left` |
| Stabs.SearchBrackets | kern/kdebug.c:17-49 | for records in order of the kind and every address, the answer is right (left the last record at or below the address, right just before the next one; its form if the kind is absent or all above) if and only if, where bisection first meets the address, no record from there to the end of the interval has the next one, or the wrap brings the search back to the right record |
| Stabs.SeparatedLandsRight | kern/kdebug.c:69-81 | it is right if the address is no value of the kind, or the next address exists and is none |
| Stabs.LoopToMeeting | kern/kdebug.c:56-82 | until the first exact match the search is plain bisection, and its state at the match is known |
| Stabs.LoopBeyond | kern/kdebug.c:56-93 | once it has stepped onto a record above the address, it never answers one at or below |
| Stabs.LoopWrapped | kern/kdebug.c:75-81 | after a step from the last address to 0 it ends just before the record where that happened |
| Stabs.StepLandsWrong | kern/kdebug.c:75-93 | with the next address among the records that are left, the answer is right only by that wrap |
| Stabs.EmptyAnswer | kern/kdebug.c:32-34 | in every table, in order or not, left > right if and only if there is no record of the kind |
| Stabs.AboveIsNotEmpty | kern/kdebug.c:32-34 | a table of one record above the address gives (-1, -1) |
| Stabs.ContainedAnswer | kern/kdebug.c:30-34 | when a caller can tell that some record is at or below the address |
| Stabs.StepsTooFar | kern/kdebug.c:75-81 | with two records at `a` and `a + 1` the search for `a` answers the second one |
| Stabs.StepsInTime | kern/kdebug.c:75-81 | with a third record behind them it answers right |
| DebugInfo.FileFound | kern/kdebug.c:139-144 | the first search answers the last file at or below the address, or 0 if and only if no file but perhaps the first record is at or below |
| DebugInfo.NegativeFile | kern/kdebug.c:139-144 | it answers a negative index if and only if the first record is a file above the address |
| DebugInfo.FirstFileIsMissed | kern/kdebug.c:143-144 | the code gives up although there is a file at or below the address if and only if that file is the first record |
| DebugInfo.LevelFound | kern/kdebug.c:146-168 | what the search of one level finds in the interval of the level above |
| DebugInfo.FunctionAtOrBelow | kern/kdebug.c:152-158 | the subtraction of the function's address does not underflow |
| DebugInfo.LevelsInBounds | kern/kdebug.c:139-189 | all indices stay in the table, with a function or without |
| DebugInfo.LevelsNest | kern/kdebug.c:134-189 | with a file, a function and a line record at or below the address at each level: 0 < lfile < lfun < lline <= rline <= rfun <= rfile, and each is the last such record of its level |
| DebugInfo.SearchesFind | kern/kdebug.c:139-182 | the three searches in terms of the records alone: the file; the function at or below the address, or the file's own record if all functions are above, or none; the line at or below, or the first record if all lines are above, or none |
| DebugInfo.LevelsAnswer | kern/kdebug.c:146-209 | the answer that follows from the records: with no function in the file its lines are searched for the address itself, with one the lines of the function for the difference; the code is -1 if and only if there is no line there |
| DebugInfo.NoFileAnswers | kern/kdebug.c:142-144 | with no file at or below the address but perhaps the first record, -1 and an untouched answer |
| DebugInfo.SearchLevels | kern/kdebug.c:139-182 | the three nested searches in place |
| DebugInfo.DescribeFunction | kern/kdebug.c:152-170 | name, address and the length of the name up to its colon |
| DebugInfo.DescribeLine | kern/kdebug.c:184-209 | line, file name and number of arguments |
| DebugInfo.FindFile | kern/kdebug.c:191-201 | the last record at or before the line that names a file, or none in this file |
| DebugInfo.FileNameInsideFile | kern/kdebug.c:191-201 | that search ends at an included file or at the file's own record and does not leave the file |
| DebugInfo.CountParameters | kern/kdebug.c:204-209 | the number of parameter records in a row behind the function |
| DebugInfo.StrFind | lib/string.c:95-104 | the first such character, or the end of the string |
| DebugInfo.DebuginfoEip | kern/kdebug.c:104-212 | the result code and everything the answer says, also when it gives up half way: in terms of the indices found, and in terms of the records (`Answers`) |
| BootDisk.CopyFile | boot/mkbootdisk.c:96-108 | the file, filled up to whole sectors, although it is copied in pieces of 1000 bytes |
| BootDisk.FillTo | boot/mkbootdisk.c:89-92 | zeros up to the sector, and the count of sectors agrees with the output |
| BootDisk.MakeBootDisk | boot/mkbootdisk.c:42-118 | the image of the arguments, or none if and only if the boot sector is too large or an argument skips backwards |
| BootDisk.LaidExtends | boot/mkbootdisk.c:75-115 | nothing written is changed by later arguments; the image is whole sectors, at least 1024 |
| BootDisk.ImageStarts | boot/mkbootdisk.c:57-108 | the boot sector with its signature, then the first file byte by byte from sector 1 |
| BootDisk.LaidPlaces | boot/mkbootdisk.c:75-115 | the same as the next row, for the arguments from any sector on |
| BootDisk.ImagePlaces | boot/mkbootdisk.c:57-117 | for every boot sector and all further arguments: there is an image if and only if the boot sector has at most 510 bytes and no argument skips backwards; it ends where the arguments end, but has at least 1024 sectors; every file starts at its sector, and all other bytes are zero |
| BootDisk.KernelImage | kern/Makefrag:95-97 | the call that builds the kernel's image, with a sector to skip to behind the kernel |
| Loader.ReadSect | boot/main.c:105-123 | one sector of the image comes to memory |
| Loader.ReadSectors | boot/main.c:85-90 | memory from the sector of the segment's start to the end of its last sector is what the image has there |
| Loader.ReadSeg | boot/main.c:68-95 | for every address: cleared, or read from the image, or as before |
| Loader.ReadHeader | boot/main.c:53-56 | the program header in memory is that of the kernel file |
| Loader.HeaderIsStored | inc/elf.h:24-33 | a program header that is stored in the ELF format is read as the segment it describes |
| Loader.ElfIsStored | inc/elf.h:6-22 | so are the magic number, the place and the number of the program headers |
| Loader.SegmentMasks | boot/main.c:75-80 | the masks of `readseg` are the remainder modulo 2^24 and the rounding down to a sector |
| Loader.BootMain | boot/main.c:40-56 | accepts exactly files with the magic number, and then memory is that of all segments in order, though the headers are read from memory between the segments |
| Loader.LoadsItself | boot/main.c:68-95 | a segment at the same place in its sector in memory and in the file is loaded byte by byte, with zeros behind it |
| Loader.SparedStaysLoaded | boot/main.c:55-56 | a later segment whose whole sectors miss it does not damage it |
| Loader.SegmentsLoaded | boot/main.c:52-56 | after any number of segments, each of which spares the earlier ones, all are loaded |
| Loader.SegmentOnDisk | boot/main.c:82-90 | the last, partly used sector of a segment is on the disk, because the writer filled it up |
| Loader.BootableImage | boot/mkbootdisk.c:57-116 | what the writer wrote has the headers, the bytes and the sectors that the loader needs |
| Loader.AllLoaded | boot/main.c:52-56 | every segment of a bootable kernel is in memory when the loop ends |
| Loader.BuildAndBoot | boot/main.c:40-95 | loading inverts building: for every bootable kernel, boot sector, further arguments and memory contents, memory has every segment's bytes and its zeros; it fails only when there is no image |
| Numbers.NumberLength | lib/printfmt.c:36-51 | the printed length is the larger of width and number of digits |
| Numbers.NumberText | lib/printfmt.c:40-50 | pad characters in front, then the digits |
| Numbers.DigitCodes | lib/printfmt.c:50 | the digits are "0123456789abcdef" |
| Numbers.AccumulateDigits | lib/string.c:204-220 | the digit loop, with the wrap of a 32-bit `long` |
| Numbers.Strtol | lib/string.c:180-225 | value and end of the number for every text and base |
| Numbers.DigitsAccumulate | lib/string.c:204-220 | reading the digits that `printnum` prints gives the number, wrapped to a `long` wherever the sum on the way overflowed |
| Numbers.ParseOfPrint | lib/printfmt.c:36-51 | for every number, width and blank or zero padding, `strtol` in base 8, 10 or 16 reads all of what `printnum` printed, and gives the number back if and only if it is below 2^31 |
| Numbers.ParseOfNegative | lib/printfmt.c:192-199 | a negative number is recovered if and only if it is at least -2^31 and no blank falls behind the sign |
| Numbers.ParseOfForm | lib/string.c:186-224 | blanks and tabs, a sign or none, the prefix that belongs to the base or base 0, and digits in lower or upper case are read as the number they say, up to the first character that is no digit of the base |
| Format.UnrecognizedIsText | lib/printfmt.c:236-241 | an escape that is not recognised is printed as its own text, flags included |
| Format.PlainTextPrinted | lib/printfmt.c:93-97 | text without percent signs is printed as it is |
| Format.PrintedEscape | lib/printfmt.c:99-242 | an escape prints its conversion and goes on behind it, or its percent sign and goes on behind that, with fewer percent signs left either way |
| Format.ErrorFormat | lib/printfmt.c:169-170 | printing with "error %d" gives that word and the number |
| Format.StringFormat | lib/printfmt.c:172 | printing with "%s" gives the string |
| Format.ParseOfSigned | lib/printfmt.c:192-199 | what `%d` prints, for `long long` too, is read back as the number if and only if it fits 32 bits, and is not negative or has no blank behind its sign |
| Format.FlagsRead | lib/printfmt.c:99-157 | a pad character, a width, a precision, `#` and any number of `l`, each there or not, are read as what they say, wherever they stand in a format |
| Format.UnsignedPrinted | lib/printfmt.c:201-229 | `%u`, `%o` and `%x` print the argument modulo 2^32, with `ll` modulo 2^64, in base 10, 8 and 16 |
| Format.UnsignedReadBack | lib/printfmt.c:201-229 | `strtol` in that base gives it back as a `long` from the whole text, which is as long as the width asks for and has the pad character in front |
| Format.SignedPrinted | lib/printfmt.c:191-199 | `%d` prints the sign in front of the padded magnitude |
| Format.PointerPrinted | lib/printfmt.c:214-221 | `%p` prints "0x" and the argument in base 16 |
| Format.CharPrinted | lib/printfmt.c:159-162 | `%c` prints its argument and nothing else, whatever the flags |
| Format.PercentPrinted | lib/printfmt.c:231-234 | `%%` prints one percent sign and takes no argument |
| Format.StringPrinted | lib/printfmt.c:175-189 | `%s` prints the string cut to the precision, each character shown as `#` says, in a field of the width, on the right or with `-` on the left; "(null)" for a null pointer |
| Format.ErrorPrinted | lib/printfmt.c:164-173 | `%e` prints the text of the code, of either sign, and "error" with the number for codes without one |
| Format.StarWidthPrinted | lib/printfmt.c:136-152 | `*` takes the width from an argument of its own |
| Format.StarPrecisionPrinted | lib/printfmt.c:136-152 | and behind a dot the precision |
| Format.ZeroPrecisionPrinted | lib/printfmt.c:113-143 | in `%.0s` the 0 is the flag: the whole string is printed |
| Printf.SprintBuf.Put | lib/printfmt.c:262-268 | the buffer holds the start of the stream up to its limit, and every character is counted |
| Printf.NumberSplit | lib/printfmt.c:40-50 | a padded number is the number without its last digit in a narrower field, and that digit |
| Printf.PrintNum | lib/printfmt.c:36-51 | puts the padded number |
| Printf.PrintString | lib/printfmt.c:175-189 | puts the cut, shown and padded string |
| Printf.PutShown | lib/printfmt.c:182-186 | puts no more than the precision allows |
| Printf.ReadNumber | lib/printfmt.c:128-133 | the number in the format and the place behind it |
| Printf.ReadFlags | lib/printfmt.c:105-157 | the flags up to the conversion character, without passing the end of the format |
| Printf.PrintError | lib/printfmt.c:164-173 | puts the error's text, or "error" and its number |
| Printf.PrintSigned | lib/printfmt.c:191-199 | puts the sign before the padded number |
| Printf.PrintConversion | lib/printfmt.c:159-234 | puts what the conversion prints |
| Printf.BackToPercent | lib/printfmt.c:237-241 | the backward loop stops behind the percent sign of this escape |
| Printf.VPrintFmt | lib/printfmt.c:83-244 | ends on every format, never reads past its NUL although it moves backwards, and puts exactly `Printed` |
| Printf.VSNPrintf | lib/printfmt.c:270-285 | for every format, arguments and n >= 1: the answer is the length L of the full output; the buffer has its first min(n-1, L) characters and a NUL and is untouched behind; otherwise an error and nothing written |
| Crt.MemCpy | lib/string.c:121-133 | the forward copy is right when source and destination overlap and the destination comes first |
| Crt.FollowsByOneRow | kern/console.c:179-187 | one scroll per call is enough |
| Crt.PutStaysInWindow | kern/console.c:147-187 | every character keeps the cursor on the screen and changes nothing that has scrolled away |
| Crt.NewlineMoves | kern/console.c:161-166 | a newline moves to the only start of a row in (pos, pos + 80], changes no cell, and scrolls exactly when that is below the screen |
| Crt.ReturnMoves | kern/console.c:164-166 | a carriage return moves to the only start of a row in (pos - 80, pos] and changes nothing else |
| Crt.BackspaceErases | kern/console.c:155-160 | a backspace blanks exactly the cell before the cursor, with its own attribute, and moves there; at the top of the screen it does nothing |
| Crt.TabBlanks | kern/console.c:167-173 | a tab writes exactly five blanks |
| Crt.CharacterWritten | kern/console.c:150-176 | any other character is written with its attribute, white on black if it has none, and nothing else changes |
| Crt.LinesAreLogged | kern/console.c:147-187 | a text of any number of lines of any length: every line stands from the start of a row on, below the one before, no other cell changes, and the window ends with the row of the cursor if that is further down |
| Crt.HistoryIsKept | kern/console.c:147-187 | so does every output |
| Crt.TextIsLogged | kern/console.c:174-176 | text without control characters stands in the log character by character with its attribute, and nothing else changes |
| Crt.WindowFollowsText | kern/console.c:179-187 | the number of scrolls is what puts the cursor's row at the bottom, and not more |
| Crt.Display.Scroll | kern/console.c:179-187 | the screen is the window one row further down the log, blank in its last row |
| Crt.Display.Backspace | kern/console.c:155-160 | the cell before the cursor is a space, unless the cursor is at the top of the screen |
| Crt.Display.StartRow | kern/console.c:161-166 | the cursor is at the start of a row |
| Crt.Display.Tab | kern/console.c:167-173 | five spaces |
| Crt.Display.PutC | kern/console.c:147-187 | the screen is the window of the log with the character put |
| Crt.Display.PutString | kern/console.c:147-187 | for every output the screen is the 25 rows of the log from the number of scrolls on |
| ConsoleInput.ConsoleBuffer.Push | kern/console.c:384-386 | the ring holds the queue with the character, or is empty if that was the 512th unread one |
| ConsoleInput.ConsoleBuffer.ConsIntr | kern/console.c:376-388 | all non-zero characters are accepted in order |
| ConsoleInput.ConsoleBuffer.Pop | kern/console.c:402-409 | the oldest unread character, or 0 |
| ConsoleInput.ConsoleBuffer.ConsGetc | kern/console.c:390-410 | both devices are polled, then the oldest unread character is answered |
| ConsoleInput.GetcIsRun | kern/console.c:390-410 | a call of `cons_getc` is the end of a run of arrivals and a read, and delivers the same character |
| ConsoleInput.AcceptedIsArrived | kern/console.c:381-384 | what is accepted over a run is the non-zero characters that came in, in order |
| ConsoleInput.RunExplained | kern/console.c:366-410 | over every interleaving the delivered stream is the accepted one minus blocks of exactly 512 characters in a row |
| ConsoleInput.LossesCounted | kern/console.c:366-410 | every overflow loses 512 characters and nothing else does; the stream is first in, first out if and only if 512 unread are never reached |

## Left out

- DebugInfo.DebuginfoEip: addresses below ULIM, for which the code panics; tables whose records are not in order, or for which a search lands wrong by `Stabs.SearchBrackets`; and tables whose first record is a source file above the address, for which the code reads in front of the table (`DebugInfo.NegativeFile`). The record behind the table must not be a parameter record, as nothing else ends the loop at lines 207-209.
- Pmap.Pmap.PageInsert: addresses from ULIM on, and pages that the boot code owns, which have no valid count (inc/memlayout.h:172-175).
- Pmap.Pmap.PgdirWalk: other page directories than `kern_pgdir`; the kernel has only this one.
- Pmap.Pmap.PageAlloc: the bytes of a `struct Page` in boot memory; the array is two arrays of its own.
- Boot.BootMemory.BootMemInit: memory detection through the clock chip, control registers, segment registers, and the clearing of the `struct Page` array, which is the model's own zero array.
- Boot.BootMemory.BootAlloc: chunks that end beyond 2^32, where `nextfree` would wrap.
- Boot.BootMemory.BootPgdirWalk: the directory entry of VPT, in which the boot code maps nothing.
- Boot.BootMemory.BootMapSegment: segments that reach into that entry, and addresses that are not at the start of a page, whose low bits the code would or into the entries.
- Loader.ReadSeg: segments whose end wraps around 32 bits or is outside memory, or whose sectors are not on the disk.
- Loader.BootMain: kernels with a segment over the page that the headers are read into, which would change the headers still to come; the jump to the entry point, and what happens after a wrong magic number.
- Loader.ReadSect: disk ports and waiting.
- BootDisk.MakeBootDisk: how an argument is recognised as a sector number, and files that cannot be opened.
- Numbers.Strtol: bases above 36, and the case without `endptr`.
- Format.FlagsRead: flags in another order than pad, width, precision, `#`, `l`, or repeated, are only described one by one, by `Format.Flag`.
- Format.PrintedEscape: C leaves missing arguments and those of a wrong type undefined; here they are 0 or "(null)". Widths, precisions and the count of characters are not bounded by 32 bits.
- Printf.PrintError: the most negative error number, whose negation overflows; the two nested formats are printed directly, and `Format.ErrorFormat` and `Format.StringFormat` show that this is what they print.
- Crt.MemCpy: copies cells instead of bytes, and only towards lower addresses.
- Crt.Display.PutC: the cursor registers of the display, and negative character values.
- ConsoleInput.ConsoleBuffer.ConsGetc: the serial line and the keyboard controller; what they deliver is a parameter.
- TLB invalidation has no effect in the model, as memory is always walked.
- `PADDR`, `KADDR`, `pa2page` and `page2kva` are additions and range tests; the ranges are preconditions or consequences of the invariant.
- `LIST_FOREACH`, the rest of `lib/string.c` and `snprintf` would only add easy members.
- `hvm/`, `kern/trap.c`, `kern/monitor.c`, `lib/readline.c` and the `cprintf` of `kern/printf.c` are not modelled.
