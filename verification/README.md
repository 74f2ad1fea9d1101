# vmrun: a verified model of the shadow MMU, memory slots, ASIDs and VMCB state

vmrun is a kernel module that runs guests with AMD-V. This project models its hardest parts in Dafny 4.11 and proves
what they are for, over every state and every run. `dafny verify dfyconfig.toml` checks all of it.

| file | what it models |
|---|---|
| `ShadowMmu.dfy` | the shadow MMU: a class whose fields are the C fields, one map per field, and whose methods are the functions that run under the MMU lock |
| `ShadowState.dfy`, `UnsyncPaths.dfy` | the graph of shadow pages, unsync marks, paths, and the sixteen-entry page vector |
| `Protection.dfy`, `Accounts.dfy` | which entries may be writable, reverse maps, and the track, large-page and indirect-page counters |
| `MmuBit.dfy` | when the MMU-writable bit is clear on the entries of a shadowed frame, and a run that leaves it set |
| `ActiveList.dfy`, `Zapping.dfy`, `Lifecycle.dfy`, `Syncing.dfy` | the active list, what zapping takes away, creating, linking, freeing and syncing pages |
| `DirectMaps.dfy` | mapping a frame through direct pages, and the hardware walk that then finds it |
| `SpteBits.dfy`, `SpteProtocol.dfy` | one shadow entry as a word, changed by hardware walker, fast page fault and lock holder at once, with a TLB |
| `Notifier.dfy` | page faults racing with MMU notifier invalidations |
| `RmapChain.dfy` | the tagged linked list of three-slot descriptors behind a reverse map |
| `MemSlots.dfy`, `MemRegions.dfy` | the sorted slot array with its index, and creating, moving, re-flagging and deleting regions |
| `SlotRmapWalk.dfy`, `SlotRanges.dfy` | range walks over the reverse maps of slots, and what they do to the entries of the shadow MMU |
| `MmioGen.dfy` | MMIO entries and the generations that make stale ones recognisable |
| `Vcpus.dfy`, `Asids.dfy` | the VMCB setters and clean bits, ASIDs, and a TLB tagged with them, on many processors |
| `Quadrants.dfy`, `PteWrites.dfy` | guest writes to page tables: which shadow entries they must drop, and what they do to the shadow MMU |
| `Division.dfy`, `Sequences.dfy`, `Options.dfy`, `Constants.dfy` | one fact about quotients; a sequence without one element; a value or nothing; the page size |

## What is proved

**Shadow pages.** `Sound` is kept by every operation of `ShadowMmu`. It says, all at once: the page graph and its
parent pointers agree, levels fall by one along links, W is set only with both software bits, and an entry of a direct
page maps or leads to what its place in the page stands for; `unsync_children` is the number of set bits and every link to
a page that is unsync, or has unsync children, has its bit set; the reverse maps list exactly the leaf entries; the
active list holds each page once, `n_used_mmu_pages` is its length, generations do not rise from head to tail among
valid pages, and an invalid page stays on it only while a root holds it; every counter equals the number of pages it
counts; and no entry of any size that covers a guest frame with a valid, current, indirect, in-sync shadow page has W
set, or both software bits that would let a fast fault set it; and only entries that were pointed at a read-only page
have the MMU-writable bit without the host-writable one. The walks and loops built on this (`UnsyncWalk`,
`SyncChildren`, `ZapUnsyncChildren`, `ZapObsolete`, the shrinkers) are proved to terminate and to do what they are for.
Write protection of a frame is exact: every entry that maps it, at any page size, gets its protected value, no other
entry changes, and a flush is reported if and only if one did.
On top of it, `DirectMap` is proved to leave the hardware walk of the frame at the wanted page and the walks of other
frames as they were, a range zap or an address-range invalidation to remove exactly the entries, of any size, for the
frames of the range, and a guest write to a page table to leave no stale entry on any page that still shadows it.

**One entry, three parties.** Every interleaving of hardware walks, fast page faults and locked updates keeps the
evidence of accesses and writes, makes the plain store as good as an exchange where it is used, and never leaves a
writable translation cached without a software bit or a signalled flush.

**Data structures.** The descriptor chain refines a multiset and is walked in order; the slot array stays sorted with an
exact inverse index; a range walk hands out every head of its range once and nothing else.

**Numbers that must not repeat.** MMIO generations, ASIDs and VMCB clean bits, over whole runs.

## Where the code does not do what it is meant to

The first five are stated as a condition that holds if and only if the code is right, each with an input or a run on
which it is not. The last one is a fact that the model keeps.

- `pte_list_add` does not return the number of earlier entries when the last descriptor is full, or when an earlier one
  has a free slot (`CountExact`, `CountShort`).
- The zap on MMIO generation wrap-around never happens in address space 0: generations start at `i * 2 - 150`, so those
  of address space 0 are 2 modulo 4 and never round. The comment on generations has the two spaces the other way round
  (`RoundsExactly`, `StaleIsZapped`, `StaleAccepted`). The zap concerns all pages of the VM, so installations in address
  space 1 may still remove the entry. In address space 1 the zap comes after the generation is visible, so there is one
  moment in which an entry exactly 2^18 installations old, made after an installation that rounded, is accepted
  (`StaleBeforeZap`).
- A four-byte write of a guest with eight-byte entries that starts in the last three bytes of an entry is widened to the
  first of the two entries it touches, and the second keeps its shadow entry (`WriteIsHandled`, `StraddleMissed`).
- A saturated track counter is not incremented but is decremented (`TrackRoundTrip`, `TrackFull`); counting stays right
  if and only if the counter has room (`BalancedAdd`).
- Write protection for shadowing is documented to clear the MMU-writable bit. `spte_write_protect` returns early for an
  entry that has the bit with neither W nor the host-writable bit, as `vmrun_set_pte_rmapp` leaves it, and the bit stays
  (`MmuBitClearExactly`, `ProtectedBitExactly`, `BitSurvives`). That is the only way: in a run in which no entry was
  pointed at a read-only page the bit is clear (`BitOnlyIfChanged`, `ClearWithoutChange`). A fast fault needs both
  software bits, so the entry still cannot become writable; `Sound` says that not both are set.
- `vcpu->cpu` is never assigned after its initialisation, so every load makes the ASID out of date and clears all clean
  bits; the model keeps this.

## Model

| member | source | states |
|---|---|---|
| `ShadowMmus.ShadowMmu.constructor` | kernel/vmrun.c:2395-2447 | A VM without shadow pages, all its counters at zero and the large-page counts at what slot creation put there, satisfies the invariant. |
| `Protection.SetGuarded` | kernel/mmu.c:2579-2672 | A leaf entry may be set without breaking the protection of shadowed frames if it is not writable or covers no guest frame with a valid, current, indirect, in-sync shadow page. |
| `Protection.WriteProtected` | kernel/mmu.c:1265-1280 | The entry left by write protection has W clear and with pt_protect cannot be made writable behind the lock; the MMU-writable bit survives pt_protect if and only if it was set with neither W nor the host-writable bit; an entry with W only where both software bits are set changes if and only if a flush is needed. |
| `Protection.ProtectStep` | kernel/mmu.c:1451-1464 | Protecting the reverse-map chain of one page size after those below it protects exactly the entries of that size that map the frame. |
| `Protection.FlushIsChange` | kernel/mmu.c:535-568 | Over a whole chain, a flush is asked for if and only if some entry changed. |
| `Protection.MmuBitClearExactly` | kernel/mmu.c:1265-1280 | Write protection for shadowing leaves the MMU-writable bit clear on every entry that maps the frame if and only if none of them had it set with neither W nor the host-writable bit. |
| `Protection.ProtectedBitExactly` | kernel/mmu.h:104-140 | For a frame that is mapped writable nowhere, as every frame with an in-sync shadow page, the bit is clear on all its entries under the same condition. |
| `MmuBit.BitOnlyIfChanged` | kernel/mmu.h:104-140 | In every state of every run: while an in-sync page shadows a frame, an entry that maps it has the MMU-writable bit only if vmrun_set_pte_rmapp pointed that entry at a read-only page. |
| `MmuBit.ClearWithoutChange` | kernel/mmu.h:104-140 | So in a run without such a change no entry that maps the frame has the bit. |
| `MmuBit.MapWritable` | kernel/mmu.c:2674-2736 | From an empty VM a frame is mapped writable. |
| `MmuBit.BitSurvives` | kernel/mmu.c:1265-1280 | When its host page is then exchanged for a read-only one and a page table in the frame is shadowed, the invariant holds, the new page is in sync, and the entry still has the MMU-writable bit. |
| `Protection.KeptInRmap` | kernel/mmu.c:2690-2727 | An overwritten entry that is kept as already in the reverse map is still found there if and only if its new frame lies in the same block. |
| `Lifecycle.CoversNone` | kernel/mmu.c:2549-2569 | Where neither the large-page count nor mmu_need_write_protect objects, a writable mapping covers no frame that must stay protected, huge mappings included. |
| `Lifecycle.CreateGuarded` | kernel/mmu.c:2226-2243 | A new indirect page may join once its guest frame is mapped writable nowhere. |
| `Lifecycle.SyncGuarded` | kernel/mmu.c:1948-1954 | A page may lose its unsync flag once its guest frame is mapped writable nowhere. |
| `ShadowMmus.ShadowMmu.SpteWriteProtect` | kernel/mmu.c:1265-1280 | The exact new entry, nothing becomes writable, and a flush is reported if and only if the entry could be made writable behind the lock and no longer can. |
| `ShadowMmus.ShadowMmu.RmapWriteProtect` | kernel/mmu.c:1282-1294 | Exactly the entries of the chain are write-protected, to the exact new values, and a flush is reported if and only if one of them changed. |
| `ShadowMmus.ShadowMmu.GfnWriteProtect` | kernel/mmu.c:1451-1464 | Every entry of any page size that maps the frame gets its exact protected value and no other entry changes; the frame is then mapped writable nowhere; a flush is reported if and only if an entry changed. |
| `ShadowMmus.ShadowMmu.ProtectGfn` | kernel/mmu.c:1466-1472 | The same, exactly, keeping the whole invariant. |
| `ShadowMmus.ShadowMmu.DirtyLogProtect` | kernel/mmu.c:1372-1386 | Clears W but not the software bit on every entry of the chain and touches no other, reports a flush if and only if an entry changed, and keeps the invariant. |
| `ShadowMmus.ShadowMmu.FastFault` | kernel/mmu.c:2981-3014 | Setting W where both software bits allow it keeps the invariant: a protected frame never becomes writable. |
| `ShadowMmus.ShadowMmu.ChangePte` | kernel/mmu.c:1497-1539 | Pointing an entry at another, read-only page leaves it not writable, records it among the changed ones and keeps the invariant. |
| `ShadowMmus.ShadowMmu.NeedWriteProtect` | kernel/mmu.c:2549-2569 | Says yes if and only if the frame is tracked, or unsyncing is not allowed and the frame is shadowed; if it says no, exactly the pages shadowing the frame become unsync. |
| `ShadowMmus.ShadowMmu.UnsyncPage` | kernel/mmu.c:2540-2547 | Marks one more page unsync and keeps the invariant, marks of all its ancestors included. |
| `ShadowMmus.ShadowMmu.SetSpte` | kernel/mmu.c:2579-2672 | The exact entry stored, when it is refused for its size, exactly when it is made read-only, and that no protected frame becomes writable. |
| `ShadowMmus.ShadowMmu.MmuSetSpte` | kernel/mmu.c:2674-2736 | Replacing any entry (link, leaf, MMIO or nothing) by a leaf or MMIO entry keeps the whole invariant; gives the exact new table of entries in every case (no slot, size refused, chain recycled, set), and exactly when write access is withheld. |
| `ShadowMmus.ShadowMmu.Vacate` | kernel/mmu.c:2685-2705 | A link or a mapping of another page is gone from the entry, from its chain and from nothing else; an entry that maps the page already stays. |
| `ShadowMmus.ShadowMmu.Record` | kernel/mmu.c:1127-1140 | The new leaf is in its chain and the whole invariant holds; with recycling exactly the chain, the new leaf included, is dropped. |
| `ShadowMmus.ShadowMmu.SetMmio` | kernel/mmu.c:286-297 | An entry that is not present becomes the MMIO entry of the frame. |
| `ShadowMmus.ShadowMmu.DropMapped` | kernel/mmu.c:1226-1230 | The entry is gone from its page and from its chain, and from nothing else. |
| `ShadowMmus.ShadowMmu.ZapRmap` | kernel/mmu.c:1474-1488 | Exactly the entries of the chain are gone, and the chain is empty. |
| `ShadowMmus.ShadowMmu.UnlinkEntry` | kernel/mmu.c:1794-1799 | A link about to be overwritten is removed on both sides. |
| `ShadowMmus.ShadowMmu.LinkShadowPage` | kernel/mmu.c:2307-2328 | The link is made, and if the child is unsync or has unsync children its bit is set in the parent and all marks above it hold. |
| `ShadowMmus.ShadowMmu.AccountShadowed` | kernel/mmu.c:868-885 | The counters go up by the weight of the page, and exactly the entries that map its frame are write-protected. |
| `ShadowMmus.ShadowMmu.AllocPage` | kernel/mmu.c:1801-1819 | The page is at the head of the active list, n_used has grown by one, and list order, graph and marks hold. |
| `ShadowMmus.ShadowMmu.CreatePage` | kernel/mmu.c:2226-2250 | The new page is in the table; for an indirect one exactly the entries that map its frame are write-protected, for a direct one nothing else changes; the whole invariant holds. |
| `ShadowMmus.ShadowMmu.FindPage` | kernel/mmu.c:2194-2222 | Finds a valid current page with the wanted frame and role unless there is none or one was refused by sync; knows whether a page of the frame is unsync. |
| `ShadowMmus.ShadowMmu.GetPage` | kernel/mmu.c:2167-2256 | The result is a valid, current page with exactly the wanted frame and role; a new one is made only if none matched or a matching one could not be synced; after making one above level 1 no page of the frame is unsync. |
| `ShadowMmus.ShadowMmu.MakePage` | kernel/mmu.c:2226-2256 | The new page has the wanted frame and role; above level 1 no page of its frame is unsync; for a direct page nothing else changes. |
| `ShadowMmus.ShadowMmu.HoldRoot` | kernel/mmu.c:3264-3267 | Taking a root keeps the invariant. |
| `ShadowMmus.ShadowMmu.FreeRoot` | kernel/mmu.c:3208-3220 | An invalid page is zapped and freed exactly when its last holder lets go. |
| `ShadowMmus.ShadowMmu.UnprotectPage` | kernel/mmu.c:2518-2537 | Afterwards no valid indirect page shadows the frame, and the result says whether there was one. |
| `DirectMaps.TranslateAlong` | kernel/mmu.c:2258-2305 | Along links taken by the index of the frame at every level, the hardware walk from the first page ends where the walk from the last one does. |
| `DirectMaps.WalkElsewhere` | kernel/mmu.c:2258-2305 | A change of entries that stand for the block of one frame leaves the hardware walk of every frame outside that block alone, through all levels. |
| `DirectMaps.ChainOnly` | kernel/mmu.c:1712-1724 | Recycling a chain changes, on direct pages, only entries that stand for that block. |
| `DirectMaps.ClearTheWay` | kernel/mmu.c:1233-1250 | Only a mapping or MMIO entry in the way is dropped; the path so far stays. |
| `DirectMaps.BaseOf` | kernel/mmu.c:2842-2845 | The frame given to the page below an entry is the first one that entry stands for. |
| `DirectMaps.LinkMissing` | kernel/mmu.c:2841-2850 | A missing page is found or made for exactly the right frames and linked; the path so far stays. |
| `DirectMaps.Descend` | kernel/mmu.c:2840-2851 | The walk goes one level down, to a page that maps the frame at its level. |
| `DirectMaps.Install` | kernel/mmu.c:2831-2838 | The walk ends in the entry that was set; in an older mapping of the same page, an MMIO entry or nothing if the size was refused; or in nothing if the chain was recycled; exactly when write access is withheld; on direct pages only entries for the block of the frame change. |
| `DirectMaps.DirectMap` | kernel/mmu.c:2819-2853 | Afterwards the hardware walk from the root ends in an entry that maps the frame to the page with the wanted access (read-only exactly if the frame is tracked), or in its MMIO entry; what it ends in when the size is refused or the chain recycled; the walks of all frames outside the entry at which the old walk left the links are unchanged; the shadow MMU invariant holds. |
| `Accounts.BalancedAdd` | kernel/mmu.c:868-885 | Accounting a new indirect page keeps every counter equal to the number of pages it counts if and only if the page is of level 1 or the track counter of its frame is not full. |
| `Accounts.BalancedRemove` | kernel/mmu.c:887-902 | Unaccounting a counted page as it turns invalid keeps them equal, so no counter goes negative. |
| `Accounts.BalancedSame` | kernel/mmu.c:2430-2431 | A page that is already invalid, or direct, weighs nothing. |
| `Accounts.AllowedBlockIsFree` | kernel/mmu.c:904-924 | A block whose disallow count is zero holds no counted page. |
| `Accounts.UntrackedIsLevelOne` | kernel/page_track.c:142-157 | A frame that is not tracked is shadowed at level 1 only. |
| `Accounts.HugeCoversNone` | kernel/mmu.c:845-866 | A writable huge mapping allowed by the counts covers no counted page. |
| `Accounts.TrackRoundTrip` | kernel/page_track.c:60-136 | Adding and removing one tracker restores the counter if and only if it was not full. |
| `Accounts.TrackFull` | kernel/page_track.c:60-136 | A full counter is left one short by one tracker more and one less. |
| `ShadowMmus.ShadowMmu.Unaccount` | kernel/mmu.c:2430-2431 | The counters balance for the state in which the page is invalid. |
| `ShadowState.StaleAbove` | kernel/mmu.c:1822-1844 | If the marks hold, every page on a path to an unsync page has unsync children. |
| `ShadowState.CleanBelow` | kernel/mmu.c:1941-1942 | A page without unsync children that is itself in sync has no unsync page below it. |
| `ShadowState.SetBit` | kernel/mmu.c:1832-1844 | Setting one bit closes that link; if it was the first bit of its page, exactly the links to that page are open instead. |
| `UnsyncPaths.ClearBit` | kernel/mmu.c:1889-1894 | Clearing a set bit whose entry leads to nothing unsync keeps all marks, and the count stays the number of bits. |
| `UnsyncPaths.ClearUp` | kernel/mmu.c:2103-2118 | Clearing the bit above a page that is no longer stale keeps the marks and the pending entries of the vector. |
| `UnsyncPaths.WalkAdd` | kernel/mmu.c:1912-1928 | Adding a child reached through a set bit keeps the vector a listing of paths; when the sixteenth entry is reached the walk has listed a leaf or cleared a bit. |
| `ShadowMmus.ShadowMmu.MarkUnsync` | kernel/mmu.c:1832-1844 | Despite its early returns, every link that was open is closed, all the way up through all parents; bits appear only where a link to a stale page justifies them. |
| `ShadowMmus.ShadowMmu.MarkParentsUnsync` | kernel/mmu.c:1822-1830 | The same for all parents of a page; terminates because the level rises. |
| `ShadowMmus.ShadowMmu.ClearUnsyncChildBit` | kernel/mmu.c:1889-1894 | The bit was set, the count stays the number of bits and not negative, and the marks hold. |
| `ShadowMmus.ShadowMmu.PagesAdd` | kernel/mmu.c:1873-1887 | Adds the page unless it is an unsync page already listed, and reports a full vector exactly at sixteen. |
| `ShadowMmus.ShadowMmu.WalkUnsync` | kernel/mmu.c:1896-1933 | Lists, with the path by which each was reached, the pages under the set bits; zero means the bitmap of the page is now empty; a negative result still leaves a usable vector. |
| `ShadowMmus.ShadowMmu.WalkChild` | kernel/mmu.c:1912-1928 | The same for one child that is unsync or has unsync children. |
| `ShadowMmus.ShadowMmu.UnsyncWalk` | kernel/mmu.c:1937-1946 | Zero means no unsync children are left; otherwise the vector lists pages with their paths, and either has a leaf or a bit was cleared; it never overflows. |
| `ShadowMmus.ShadowMmu.PagesFirst` | kernel/mmu.c:2079-2101 | Yields the first leaf with exactly the ancestor path the walk used. |
| `ShadowMmus.ShadowMmu.PagesNext` | kernel/mmu.c:2058-2077 | Yields the next leaf, skipping none, with exactly the ancestor path the walk used. |
| `ShadowMmus.ShadowMmu.ClearParents` | kernel/mmu.c:2103-2118 | Every bit it clears was set, at least one was cleared, the marks hold and the rest of the vector is still pending. |
| `ShadowMmus.ShadowMmu.SyncPage` | kernel/mmu.c:2023-2028 | The page is no longer unsync, or is zapped; no frame of another page loses its protection. |
| `ShadowMmus.ShadowMmu.SyncOrZap` | kernel/mmu.c:1980-1994 | The leaves of the page end up exactly as the guest entries ask, writable only where the host page is and nothing that tracks or shadows the frame objects, and no other entry changes; or the page is zapped when the callback refuses it. |
| `ShadowMmus.ShadowMmu.MarkSynced` | kernel/mmu.c:1948-1954 | The unsync flag goes, and the invariant holds if the frame is mapped writable nowhere. |
| `ShadowMmus.ShadowMmu.ProtectListed` | kernel/mmu.c:2133-2134 | The frame of every listed leaf is mapped writable nowhere, entries only lose write permission, and a flush is asked for if and only if an entry changed. |
| `ShadowMmus.ShadowMmu.SyncEntry` | kernel/mmu.c:2141-2144 | One leaf is synced, at least one bit is cleared, and the remaining leaves are still pending and protected. |
| `ShadowMmus.ShadowMmu.SyncListed` | kernel/mmu.c:2141-2144 | All listed leaves are synced and fewer bits are set than before the walk. |
| `ShadowMmus.ShadowMmu.SyncChildren` | kernel/mmu.c:2120-2153 | Terminates with no unsync page reachable from the root. |
| `ShadowMmus.ShadowMmu.SyncPages` | kernel/mmu.c:2031-2046 | Afterwards no valid page shadowing the frame is unsync. |
| `ShadowMmus.ShadowMmu.DropSpte` | kernel/mmu.c:2358-2361 | A leaf or MMIO entry is removed from its page and its chain. |
| `ShadowMmus.ShadowMmu.DropParentPte` | kernel/mmu.c:1794-1799 | A link is removed together with the parent pointer. |
| `ShadowMmus.ShadowMmu.ZapPte` | kernel/mmu.c:2352-2375 | The entry is gone with its chain or parent pointer; says whether it was present. |
| `ShadowMmus.ShadowMmu.UnlinkChildren` | kernel/mmu.c:2377-2384 | All entries of the page are gone and no others. |
| `ShadowMmus.ShadowMmu.UnlinkParents` | kernel/mmu.c:2386-2393 | All links to the page are gone and no others. |
| `ShadowMmus.ShadowMmu.Unlink` | kernel/mmu.c:2427-2428 | Both together: exactly what touches the page is gone. |
| `ShadowMmus.ShadowMmu.ZapSelf` | kernel/mmu.c:2427-2452 | Zapping one page takes exactly it. |
| `ShadowMmus.ShadowMmu.PrepareZap` | kernel/mmu.c:2419-2453 | Returns exactly the number of pages moved off the active list; they lose all entries, links and flags and nothing else changes; a held root is moved only once its count is zero. |
| `ShadowMmus.ShadowMmu.ZapUnsyncChildren` | kernel/mmu.c:2395-2417 | Terminates with no unsync children left and returns exactly the number of pages zapped. |
| `ShadowMmus.ShadowMmu.ZapEntry` | kernel/mmu.c:2410-2412 | One leaf is zapped, exactly one page leaves the list, and at least one bit is cleared. |
| `ShadowMmus.ShadowMmu.ZapListed` | kernel/mmu.c:2409-2413 | All listed leaves are zapped, as many pages as counted. |
| `ShadowMmus.ShadowMmu.CommitZap` | kernel/mmu.c:2455-2478 | Exactly the zapped pages are freed and the invariant holds. |
| `ActiveList.OrderedPush` | kernel/mmu.c:2441-2441 | Moving an invalid page to the head keeps the generation order. |
| `ActiveList.OrderedCreate` | kernel/mmu.c:1811-1817 | A page created with the current generation at the head keeps the order. |
| `ActiveList.OrderedInvalidate` | kernel/mmu.c:2451-2451 | Turning pages invalid keeps the order. |
| `ActiveList.AgedAfterZap` | kernel/mmu.c:2435-2441 | Zapping a page leaves every page that is not invalid before the same pages as it was. |
| `ActiveList.LastIsOldest` | kernel/mmu.c:2480-2491 | If zapping the last page only moves it to the head, no page left that is not invalid was behind it at the start, however many were zapped meanwhile. |
| `Zapping.TookShrinks` | kernel/mmu.c:5206-5211 | Zapping an active page leaves fewer active pages that are still valid, takes off the list no more pages than it reports and brings none onto it. |
| `ShadowMmus.ShadowMmu.ZapOldest` | kernel/mmu.c:2480-2491 | Reports success if and only if the number of pages in use fell; otherwise exactly the last page has moved to the head and is an invalid root; pages that are not invalid keep their order. |
| `ShadowMmus.ShadowMmu.ChangeMmuPages` | kernel/mmu.c:2497-2516 | Terminates with at most the wanted number of pages, or with an invalid root at the head that was older than every page left that is not invalid; those keep their order. |
| `ShadowMmus.ShadowMmu.MakePagesAvailable` | kernel/mmu.c:4764-4782 | Terminates; returns 0 if and only if a page is available, and short of the refill mark the list is empty or its head is an invalid root that was older than every page left that is not invalid. |
| `ShadowMmus.ShadowMmu.NoneLeft` | kernel/mmu.c:5185-5186 | Where the reverse walk stops at a page that is not obsolete, every page nearer the head that is obsolete is already invalid. |
| `ShadowMmus.ShadowMmu.ZapObsolete` | kernel/mmu.c:5171-5219 | Terminates, restarts included, with every obsolete page still listed an invalid root that is held. |
| `ShadowMmus.ShadowMmu.BumpGeneration` | kernel/mmu.c:5234-5234 | A new generation keeps the invariant. |
| `ShadowMmus.ShadowMmu.InvalidateZapAll` | kernel/mmu.c:5230-5249 | Afterwards only invalid, held roots are left on the list. |
| `SpteBits.AccessTrackRoundTrip` | kernel/mmu.c:622-666 | Marking for access tracking and restoring gives the entry back, but for its write permission, if and only if the two saved-bit positions were free. |
| `SpteBits.NotVolatileIsStable` | kernel/mmu.c:448-470 | If no bit is volatile, neither the hardware walker nor a fast fault changes the entry. |
| `SpteBits.WalkedKeeps` | kernel/mmu.c:472-485 | A hardware walk keeps frame and writability, records the access and loses no evidence. |
| `SpteBits.FastFixedKeeps` | kernel/mmu.c:2981-3014 | A fast fault keeps frame and software bits and loses no evidence. |
| `SpteBits.StaysPresent` | kernel/mmu.c:386-389 | If the MMIO pattern does not look at the bits that change in place, or has an address bit that no page has, changing such bits never turns a mapping into an MMIO entry. |
| `SpteProtocol.StepKeeps` | kernel/mmu.c:535-605 | Every step of walker, fast fault and lock holder keeps the invariant of the entry. |
| `SpteProtocol.RunInv` | kernel/mmu.c:535-605 | The invariant holds in every state of every interleaving. |
| `SpteProtocol.NoEvidenceLost` | kernel/mmu.c:576-605 | Under every interleaving, an access or write not yet collected shows in the entry or on the page frame. |
| `SpteProtocol.PlainStoreIsExchange` | kernel/mmu.c:448-470 | Whenever the lock holder takes the plain store nobody has changed the entry since it was loaded, so it returns what an exchange would. |
| `SpteProtocol.ProtectedNotCached` | kernel/mmu.h:104-140 | Once a software bit is clear, a writable translation is cached only if a flush has been signalled, also after a dirty-logging protection that deferred its flush. |
| `SpteProtocol.ProtectAsksForFlush` | kernel/mmu.h:104-140 | Protection for shadowing that starts while a writable translation may be cached and no flush is signalled is not skipped, and its update signals a flush, whatever walks and fast faults happen before it ends. |
| `Notifier.StepKeeps` | kernel/vmrun.c:2947-3027 | Every step of faults, invalidations and host changes keeps the invariant. |
| `Notifier.ChangeKeeps` | kernel/vmrun.c:2947-2965 | change_pte overtakes every lookup made before it, so none of them can be installed. |
| `Notifier.InstallKeeps` | kernel/mmu.c:3168-3185 | An install that is not retried meets no invalidation and uses a lookup that is still right. |
| `Notifier.RunInv` | kernel/vmrun.c:2947-3027 | It holds in every state of every interleaving. |
| `Notifier.NoStaleMapping` | kernel/mmu.c:3775-3792 | No entry maps a page the host no longer has at that address, or lies in a range being invalidated. |
| `Notifier.InstallIsFresh` | kernel/mmu.c:3168-3185 | An install that takes effect uses a lookup later than every finished invalidation of its address, with none going on. |
| `Notifier.CountIsActive` | kernel/vmrun.c:2968-3027 | mmu_notifier_count is the number of invalidations going on and never negative. |
| `RmapChain.RmapHead.Add` | kernel/mmu.c:1006-1038 | The chain holds one more entry and stays well formed; the result is the count of the descriptor walk. |
| `RmapChain.RmapHead.AddTagged` | kernel/mmu.c:1025-1036 | The same for a chain that already has descriptors. |
| `RmapChain.CountExact` | kernel/mmu.c:1003-1005 | The promised number of earlier entries is returned if and only if the last descriptor, and no other, has a free slot; otherwise less. |
| `RmapChain.CountShort` | kernel/mmu.c:1028-1031 | With one full descriptor 0 is returned for three entries. |
| `RmapChain.RmapHead.Promote` | kernel/mmu.c:1016-1022 | A second entry moves both into a descriptor, in order. |
| `RmapChain.RmapHead.FindRoom` | kernel/mmu.c:1026-1030 | The first descriptor with a free slot, or the last one, and three for every one passed. |
| `RmapChain.RmapHead.Fill` | kernel/mmu.c:1035-1037 | The first free slot takes the entry. |
| `RmapChain.RmapHead.Append` | kernel/mmu.c:1031-1034 | A new descriptor behind the last one takes the entry. |
| `RmapChain.RmapHead.Remove` | kernel/mmu.c:1063-1097 | Takes out exactly one occurrence; finds it if and only if it is there, else changes nothing. |
| `RmapChain.RmapHead.Locate` | kernel/mmu.c:1083-1093 | The slot that holds the entry, with the descriptor before it, if and only if there is one. |
| `RmapChain.RmapHead.RemoveEntry` | kernel/mmu.c:1040-1061 | One occurrence is taken out, no descriptor is left empty and the entries stay a gap-free prefix. |
| `RmapChain.MoveDown` | kernel/mmu.c:1047-1050 | The last entry of the descriptor takes the place of the removed one. |
| `RmapChain.RmapHead.Unlink` | kernel/mmu.c:1053-1060 | An empty descriptor is taken out of the chain; the head is untagged when it was the only one. |
| `RmapChain.RmapIterator.First` | kernel/mmu.c:1167-1187 | The first entry, or NULL if and only if the chain is empty. |
| `RmapChain.RmapIterator.Next` | kernel/mmu.c:1194-1220 | The entry after the one the iterator stands on; NULL only when all have been seen. |
| `RmapChain.ForEach` | kernel/mmu.c:1222-1224 | Visits the entries of the chain, each exactly once and in order. |
| `RmapChain.DropFirst` | kernel/mmu.c:1480-1485 | One round of the zap loop: the first entry is dropped and the chain gets shorter. |
| `RmapChain.ZapChain` | kernel/mmu.c:1474-1488 | Terminates with the chain empty, each entry having been dropped exactly once. |
| `MemSlots.MemSlotTable.constructor` | kernel/vmrun.c:2320-2340 | An empty table is well formed. |
| `MemSlots.MemSlotTable.Copy` | kernel/vmrun.c:2661-2666 | A separate copy with the same contents. |
| `MemSlots.MemSlotTable.IdToMemslot` | kernel/vmrun.c:2184-2195 | The slot found under an id has that id: the warning cannot fire. |
| `MemSlots.MemSlotTable.MarkInvalid` | kernel/vmrun.c:2668-2670 | The table published while a slot is moved or deleted differs from the old one in that flag only and is well formed. |
| `MemSlots.MemSlotTable.PushDown` | kernel/vmrun.c:2220-2227 | The hole moves behind every slot in use that does not lie lower; the other slots and the index stay right. |
| `MemSlots.MemSlotTable.PullUp` | kernel/vmrun.c:2238-2244 | The hole moves before every slot that does not lie higher; the other slots and the index stay right. |
| `MemSlots.MemSlotTable.Update` | kernel/vmrun.c:2203-2250 | The array stays sorted by descending base with the empty slots last, the index the exact inverse of the ids, used_slots the number in use; only the named id changes and the others keep their order; the final warning cannot fire. |
| `MemRegions.StaysDisjoint` | kernel/vmrun.c:2630-2641 | User slots stay pairwise disjoint when the changed one is empty, has not moved, or clashes with no other. |
| `MemRegions.AddressSpace.Overlaps` | kernel/vmrun.c:2633-2640 | The scan that stops at the first empty slot reports an overlap if and only if any slot of the table overlaps. |
| `MemRegions.AddressSpace.Install` | kernel/vmrun.c:2278-2313 | The table is published with a generation four above the old one. |
| `MemRegions.AddressSpace.Commit` | kernel/vmrun.c:2661-2704 | Only the named slot changes, the table stays well formed and disjoint, and the table being updated is never the published one. |
| `MemRegions.AddressSpace.SetRegion` | kernel/vmrun.c:2548-2718 | Exactly when each error is returned and that it changes nothing; on success the id names exactly the slot asked for, all others are as before, user slots stay disjoint, and the generation moved by one or two installations. |
| `SlotRmapWalk.IndexInArray` | kernel/vmrun.c:2388-2409 | Every frame of a slot has its place inside the array allocated for every level. |
| `SlotRmapWalk.Walker.constructor` | kernel/mmu.c:1568-1580 | The walk starts with all visits to come. |
| `SlotRmapWalk.Walker.InitLevel` | kernel/mmu.c:1558-1566 | All visits of the level and of the levels above it are to come. |
| `SlotRmapWalk.Walker.Next` | kernel/mmu.c:1587-1600 | Exactly the current visit is done; level and index rise lexicographically. |
| `SlotRmapWalk.MissesNothing` | kernel/mmu.c:1602-1607 | For every frame of the range and every level there is exactly one place in the walk where its head is handed out. |
| `SlotRmapWalk.NothingElse` | kernel/mmu.c:1587-1600 | Every head handed out lies inside its array, agrees with the running frame number and covers a frame of the range. |
| `SlotRmapWalk.HandleLevelRange` | kernel/mmu.c:4941-4969 | Visits exactly those heads in order and terminates; with lock_flush_tlb no flush is owed at any lock break or at the end, without it the result says exactly whether one is. |
| `SlotRmapWalk.GfnFrames` | kernel/mmu.c:5016-5021 | The frames of a slot inside the range. |
| `SlotRmapWalk.ZapGfnRange` | kernel/mmu.c:5006-5030 | Exactly the heads of the frames of the range are handled, at every level, in the slots of the table that are in use, and no head of any other slot. |
| `SlotRmapWalk.HvaInterval` | kernel/mmu.c:1634-1642 | The computed frame range is exactly the set of frames whose page meets the address range. |
| `SlotRmapWalk.HvaFrames` | kernel/mmu.c:1631-1642 | The same for the values the function computes. |
| `SlotRmapWalk.HandleHvaRange` | kernel/mmu.c:1609-1654 | Exactly the heads of the frames whose page meets the address range are handled, at every level, in the slots of the table that are in use, and no head of any other slot. |
| `SlotRanges.HandledIsUnmapped` | kernel/mmu.c:1609-1654 | If the reverse maps of all handled heads are empty, no entry of any size maps a frame of the range. |
| `SlotRanges.ZappedExactly` | kernel/mmu.c:1609-1654 | If exactly the chains of the handled heads were emptied, an entry is gone if and only if it mapped a wanted frame of a slot of the table. |
| `SlotRanges.ZapHeads` | kernel/mmu.c:1474-1495 | The reverse map of every head given is emptied and nothing else is dropped. |
| `SlotRanges.ZapFrames` | kernel/mmu.c:5006-5030 | Afterwards no entry of any size maps a frame of the range that a slot of the table holds, exactly the entries that did are gone, and the shadow MMU invariant holds. |
| `SlotRanges.UnmapAddresses` | kernel/mmu.c:1672-1675 | Afterwards no entry of any size maps a frame of a slot of the table whose page meets the address range, exactly the entries that did are gone, and the invariant holds. |
| `SlotRanges.RemoveWriteAccess` | kernel/mmu.c:5038-5068 | Only entries that map a frame of the slot change, and only in W; afterwards no entry maps such a frame with W set; a flush is called for if and only if an entry changed. |
| `MmioGen.RoundTrip` | kernel/mmu.c:251-314 | Frame, access and generation but for its bit 0 are read back from the entry, and it is recognised as an MMIO entry. |
| `MmioGen.AcceptedExactly` | kernel/mmu.c:327-336 | An entry is accepted if and only if no installation is under way, the address space is its own, and the number of installations since it was made is a multiple of 2^18: so never in the next 2^18 - 1. |
| `MmioGen.SameGeneration` | kernel/vmrun.c:2299-2304 | The two address spaces never share a generation, and one of them repeats only every 2^18 installations. |
| `MmioGen.GenAt` | kernel/vmrun.c:3177-3190 | The generation after n installations, with 64-bit wrap-around. |
| `MmioGen.RoundsExactly` | kernel/mmu.c:5256-5266 | The zap on wrap-around happens in address space 1 only, at every 2^18th installation. |
| `MmioGen.ZapsIn` | kernel/vmrun.c:2304-2310 | For moments a multiple of 2^18 installations apart, with the zap after the generation is visible, exactly when a zap lies between them. |
| `MmioGen.StaleIsZapped` | kernel/mmu.c:5256-5266 | Between making an entry and its generation coming round again its address space has zapped all pages if and only if it is number 1 and the entry is not looked at after the installation that makes its generation current and before the zap that this installation brings. |
| `MmioGen.StaleAccepted` | kernel/mmu.c:5256-5266 | In address space 0 an entry made at the start is accepted again after 2^18 installations without such a zap. |
| `MmioGen.StaleBeforeZap` | kernel/vmrun.c:2299-2310 | In address space 1 an entry made after installation 37 is accepted again after 2^18 more, before the zap, with no zap between. |
| `Vcpus.LoadsMemory` | kernel/vmrun.c:1055-1055 | With right clean bits the processor runs the guest with the VMCB that is in memory, every group of it. |
| `Vcpus.Vcpu.constructor` | kernel/vmrun.c:1418-1450 | A new virtual CPU has no clean group and no current ASID and starts at the reset vector. |
| `Vcpus.Vcpu.Reset` | kernel/vmrun.c:762-817 | Nothing is marked clean and the ASID is out of date; the guest starts at the reset vector 0xfffffff0 with the given segments, tables, control registers and intercepts. |
| `Vcpus.Vcpu.SetCrIntercept` | kernel/vmrun.c:470-474 | The new VMCB; clean groups stay right. |
| `Vcpus.Vcpu.ClrCrIntercept` | kernel/vmrun.c:476-480 | The new VMCB; clean groups stay right. |
| `Vcpus.Vcpu.UpdateCr0Intercept` | kernel/vmrun.c:487-504 | CR0 reads and writes are intercepted if and only if the guest value differs from the one the processor runs with. |
| `Vcpus.Vcpu.SetCr0` | kernel/vmrun.c:506-537 | The value the processor runs with, the long-mode bits in both copies of EFER, the intercepts; clean groups stay right. |
| `Vcpus.Vcpu.FlushTlb` | kernel/vmrun.c:539-545 | A flush is asked for in one of the two ways; clean groups stay right. |
| `Vcpus.Vcpu.SetCr4` | kernel/vmrun.c:547-569 | Refused exactly with VMXE; otherwise the new value, and a flush exactly when paging by NPT is on and PGE changed. |
| `Vcpus.Vcpu.SetEfer` | kernel/vmrun.c:1854-1862 | The value the processor runs with; clean groups stay right. |
| `Vcpus.Vcpu.SetSegment` | kernel/vmrun.c:669-697 | Exactly the named segment changes, CPL with SS; clean groups stay right. |
| `Vcpus.Vcpu.SetIdt` | kernel/vmrun.c:710-715 | The new table register; clean groups stay right. |
| `Vcpus.Vcpu.SetGdt` | kernel/vmrun.c:723-728 | The new table register; clean groups stay right. |
| `Vcpus.Vcpu.SetRflags` | kernel/vmrun.c:735-743 | The new value, with no clean bit to clear. |
| `Vcpus.Vcpu.Load` | kernel/vmrun.c:1289-1300 | Whatever the new processor has cached, nothing is marked clean and the ASID is out of date. |
| `Asids.CpuData.constructor` | kernel/vmrun.c:274-276 | The first entry on a processor will start a generation, whatever its TLB holds. |
| `Asids.NewAsid` | kernel/vmrun.c:919-931 | The pair of generation and ASID was never handed out before on this processor; nothing is cached under the ASID, or everything will be flushed; other holders keep theirs. |
| `Asids.AlwaysDirty` | kernel/vmrun.c:946-951 | What is written before every entry is never marked clean, so the clean groups stay right. |
| `Asids.Prepare` | kernel/vmrun.c:933-951 | The ASID is current and held by this virtual CPU, and a flush that was asked for is carried out by field or by a fresh ASID. |
| `Asids.Vmrun` | kernel/vmrun.c:953-1021 | The processor uses the VMCB in memory and only TLB entries of this virtual CPU. |
| `Asids.Finish` | kernel/vmrun.c:1030-1055 | All groups but the two always written are marked clean, rightly. |
| `Asids.Run` | kernel/vmrun.c:933-1056 | The guest runs with the registers set and every group as the setters left it, on TLB entries of its own only, on none if a flush was asked for, with an ASID from 1 to max_asid. |
| `Asids.Host.constructor` | kernel/vmrun.c:397-424 | The first state is valid. |
| `Asids.Host.Load` | kernel/vmrun.c:3386-3394 | Migration keeps the state of all processors and virtual CPUs valid. |
| `Asids.Host.Do` | kernel/vmrun.c:470-817 | So does every register, segment, table, intercept, flush and reset operation. |
| `Asids.Host.Enter` | kernel/vmrun.c:933-1056 | So does every guest entry, and no virtual CPU ever runs on entries of another. |
| `Asids.Host.DistinctAsids` | kernel/vmrun.c:919-931 | Two virtual CPUs whose ASIDs are current on one processor have different ones. |
| `Quadrants.WalkIsWritten` | kernel/mmu.c:4643-4672 | The shadow entry a walk uses is among those that any write inside the governing guest entry yields. |
| `Quadrants.OtherQuadrant` | kernel/mmu.c:4663-4667 | No page of another quadrant matches. |
| `Quadrants.WrittenIsWalked` | kernel/mmu.c:2188-2193 | Each entry yielded is used by an address that the guest entry governs. |
| `Quadrants.WrittenExactly` | kernel/mmu.c:4643-4672 | Both directions together, for guests with four- and eight-byte entries. |
| `Quadrants.OneEntry` | kernel/mmu.c:4619-4641 | A write that is not called misaligned, and does not straddle, lies in one guest entry. |
| `Quadrants.WriteIsHandled` | kernel/mmu.c:4562-4641 | No shadow entry standing for a written guest entry survives, if and only if the write does not straddle two eight-byte entries of a page that is not zapped anyway. |
| `Quadrants.StraddleMissed` | kernel/mmu.c:4573-4580 | A four-byte write at offset 6 leaves the entry for bytes 8 and 9 in place. |
| `PteWrites.DropWritten` | kernel/mmu.c:4732-4744 | Exactly the entries that the write yields are gone, with their chains and parent pointers, and a flush is asked for if and only if one of them was present. |
| `PteWrites.HandlePage` | kernel/mmu.c:4718-4745 | A page is zapped, or exactly its written entries are dropped, as alignment and the write count decide; the exact write count. |
| `PteWrites.NoneIndirect` | kernel/mmu.c:4694-4699 | When indirect_shadow_pages is zero no valid page shadows the written frame, so returning at once is right. |
| `PteWrites.AnsweredIsClean` | kernel/mmu.c:4718-4745 | Unless the write straddles two eight-byte entries, a page that has answered it holds no entry that stands for a written guest entry. |
| `PteWrites.PteWrite` | kernel/mmu.c:4674-4750 | Over the shadow MMU: every valid page that still shadows the written frame has answered the write, so nothing stale survives a write that does not straddle; only written entries, entries of zapped pages and links to them are gone; present entries go only with a flush or with the page they belonged or led to; the invariant holds. |

## Left out

- MmuSetSpte: on an indirect page, requires that an entry kept because its page frame is unchanged also keeps its guest frame block; the code does not check this, and `KeptInRmap` shows it is exactly what is needed. On a direct page the frame must be the one the entry stands for, as the BUG_ON in vmrun_mmu_page_set_gfn demands.
- SetSpte: has the same two requirements on the frame. It models the frame, W and the two software bits; the other permission bits, the speculative access-track form and the dirty log are not in the entry.
- GetPage: requires the track counter of the frame to be below its maximum; `BalancedAdd` shows that this is exactly where the counters stay right. The generation of a new page is set when it is made rather than at the end of the function.
- CreatePage: the same requirement on the track counter.
- SpteWriteProtect: accessed and dirty bits are not in the entry, so a flush for such a bit set meanwhile is not reported; `SpteProtocol` has them. The same holds for RmapWriteProtect.
- RmapWriteProtect: see SpteWriteProtect.
- DirtyLogProtect: one chain; the loop over the bits of the mask is not modelled.
- SetMmio: access and generation are not in the entry; `MmioGen` has them.
- SyncOrZap: what the guest's sync_page callback does is a parameter, because the template that defines it is not part of this model.
- SyncChildren: the break in which the lock is dropped between rounds is not taken; the same holds for ZapObsolete and its batches, and so for InvalidateZapAll.
- ZapObsolete: see SyncChildren.
- InvalidateZapAll: see SyncChildren.
- FreeRoot: one root at a time; the arrays of PAE roots are not modelled.
- ChangePte: one entry of the chain, not the loop that restarts after a drop.
- FastFault: the step on one entry; the lockless walk that finds it is not modelled.
- CommitZap: the several local lists of zapped pages and the list of zapped obsolete pages are one set.
- NoEvidenceLost: does not cover the untracked store of mmu_spte_age, or a write through a cached translation after the dirty bit was collected. It asks of the masks that the MMIO pattern does not look at bits that change in place, or has an address bit that no page has, as the reserved address bits in it are.
- SetSegment: takes the packed attribute word; the packing of its fields and reading it back are not modelled.
- Run: VMRUN is one step; register swapping, host state and interrupt windows are not modelled. Generations are unbounded integers, as the code assumes they do not wrap, and max_asid is at least 1.
- DirectMap: starts from one direct root that maps the frame; the arrays of PAE roots and the prefetch of neighbouring entries are not modelled.
- ZapFrames: the reverse maps of all slots are one table by block of frames, so two slots that share a block share its reverse map; one address space at a time. The same holds for UnmapAddresses and RemoveWriteAccess.
- UnmapAddresses: see ZapFrames.
- RemoveWriteAccess: see ZapFrames.
- ZapGfnRange: the slots of one address space, not the loop over both.
- HandleHvaRange: the slots of one address space, not the loop over both; hva_to_gfn_memslot is taken to be the linear map of the slot, since its definition is not part of this model.
- PteWrite: the new entries written ahead of a fault are not modelled; role bits and write counts are a map beside the pages.
- SetRegion: the dirty bitmap, the per-slot arrays and the private error path of slot creation are left to two success flags; the dirty-log and read-only flags are bits 0 and 1.
- Memory slots have no lookup by frame in the modelled files; role bits are one number, system-management mode roots and nested paging are not distinguished.
- Kernel allocators, RCU and SRCU, spinlocks and memory barriers are atomic steps and fresh objects; the remote TLB flush is an abstract step.
- VM and VCPU creation and destruction paths, ioctls, file descriptors, module initialisation and the user programs have no deep property.
- Reserved-bit tables and permission bitmaps would add only easy members.
- mmu_spte_age, the dirty-bit clearing and setting of whole slots, and wrprot_ad_disabled_spte are not modelled.
