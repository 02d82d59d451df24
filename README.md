# A verified model of the Nachos pager, file header and directory

This project models three sequential parts of a Nachos teaching operating
system (C++) and proves properties of them in Dafny:

- **The demand pager and TLB refill** of `machine/machine.cc`.
  - `Machine::PageLoad` turns a faulting virtual page into a resident
    frame. It takes a free frame from `memStatusMap`. When none is free,
    it evicts the valid page with the smallest `tValue` into a swap slot
    from `swapStatusMap` and invalidates the victim's TLB entry. It then
    fills the frame from swap or from the executable.
  - `TLBMissHandler` resolves the page and installs its mapping into the
    TLB. It uses a free slot, or else replaces a slot by LRU or FIFO.
  - `PageFaultHandler` only loads the page.
  - A page fault goes to `TLBMissHandler` when a TLB exists and to
    `PageFaultHandler` otherwise (`userprog/exception.cc:208-219`).
- **The two-level sector index** of a file header, in `filesys/filehdr.cc`
  and `filesys/filehdr.h`.
  - A header names five data sectors directly and up to five index
    sectors. Each index sector holds 32 data sector numbers.
  - `Allocate`, `Deallocate` and `ExtentAllocate` take or give back
    sectors in the free-sector bitmap.
  - `ByteToSector` maps a byte offset to its disk sector.
- **The directory table and path walking** of `filesys/directory.cc`.
  - `FindIndex` looks up a name in the table of entries, comparing the
    first `FileNameMaxLen` characters.
  - `Find` and `Add` split a `/`-separated path one component per level
    and descend into subdirectories.
  - `Remove` marks an entry unused.

Each imperative part has two layers:

- **Value-level functions** (`Paging`, `FileHeaderSpec`, `DirectorySpec`)
  with lemmas about them (`PagingProps` and `PagingInvariants`,
  `FileHeaderProps`, `DirectoryProps`).
- **Classes that update arrays in place** (`MachineModel.Machine`,
  `FileHeaders.FileHeader`, `Directories.Directory`). Each method is proved
  to leave exactly the state that the matching function computes, so the
  lemmas apply to the classes.

The collaborators are modelled abstractly:

- `BitMap` (`BitMaps`) is a `seq<bool>`.
- `SynchDisk` (`Disk`) is a map from sector to the sector numbers stored
  in an index sector.
- The executable is a byte sequence.
- The directories below the root are a map from header sector to table.

Four places where the code does not do what its comments intend are
modelled as written, and each is exhibited by a lemma:

- **`machine/machine.cc:331-332`** writes the replaced TLB entry's dirty
  bit into `pageTable[replacedTLB]`. That is the page whose number equals
  the TLB slot, not the page the entry mapped
  (`PagingInvariants.ReplacedDirtyBitGoesToSlotNumber`).
- **`filesys/filehdr.cc:118`** takes the last sector of a file whose length
  is a multiple of `SectorSize` to have a whole free sector. Growing such
  a file by up to a sector allocates nothing
  (`FileHeaderProps.ExtentAllocateAtSectorBoundary`).
- **`filesys/filehdr.cc:145`** stores a new index sector at
  `secondarySectors[restNumSectors]`. From the second index sector on,
  that slot is outside the table, so the new index sector is lost
  (`FileHeaderProps.ExtentSecondIndexSectorIsLost`).
- **`filesys/directory.cc:155`** makes `Find` return `FALSE` (0) for a
  missing intermediate directory. 0 is also a valid header sector
  (`DirectoryProps.MissingDirectoryLooksLikeSectorZero`).

## Model

| member | source | states |
|---|---|---|
| MachineModel.Machine.constructor | machine/machine.cc:54-92 | all registers and both memories are zero; every frame and swap slot is free; with a TLB, every TLB entry is invalid and the TLB strategy is LRU, otherwise there is no TLB; page replacement is FIFO; no page table, swap table or executable; offset, time stamp and counters are zero |
| MachineModel.Machine.ReadRegister | machine/machine.cc:221-225 | returns the register's value, for an index the ASSERT admits |
| MachineModel.Machine.WriteRegister | machine/machine.cc:227-232 | afterwards the register reads the new value and every other register reads what it did before |
| MachineModel.Machine.EarliestEntry | machine/machine.cc:348-357 | the scan loop ends with exactly the (earliest, index) pair that `Paging.Earliest` defines; the same loop serves the TLB scans of lines 286-307 |
| MachineModel.Machine.CopyPage | machine/machine.cc:363-364 | the destination holds the source page at the destination page and is otherwise unchanged |
| MachineModel.Machine.InvalidateTLBEntry | machine/machine.cc:372-380 | the TLB becomes `InvalidateFirst` of the old TLB: only the first valid entry for the victim is invalidated |
| MachineModel.Machine.ReadExecPage | machine/machine.cc:400-402 | the frame receives the executable's bytes from the given position; bytes past the file's end are left as they were |
| MachineModel.Machine.AcquireFrame | machine/machine.cc:345-383 | the new state and result are those of `Paging.AcquireFrame`: a free frame, or the victim's frame after eviction, or the failed ASSERT with nothing changed |
| MachineModel.Machine.EvictPage | machine/machine.cc:359-380 | the new state is `Paging.Evict` of the old one: the page is copied to the slot, the swap entry is recorded, the page entry is invalid and the first TLB entry for the page is invalid |
| MachineModel.Machine.CopyFromSwap | machine/machine.cc:386-397 | the new state is `Paging.SwapIn`: the slot's bytes are in the frame, dirty and read-only are carried over, the swap entry is invalid and the slot is cleared |
| MachineModel.Machine.LoadExecPage | machine/machine.cc:398-407 | the new state is `Paging.LoadFromExec`: the executable page is in the frame, dirty is false, and read-only holds iff the page lies in the read-only range |
| MachineModel.Machine.RecordMapping | machine/machine.cc:408-419 | the new state is `Paging.Record`: the page maps to the frame and is valid, and its tValue is stamped only under PT_FIFO |
| MachineModel.Machine.FillFrame | machine/machine.cc:385-421 | the new state and result are those of `Paging.Fill`: the page is filled from swap, or from the executable, or the call fails on a missing executable |
| MachineModel.Machine.PageLoad | machine/machine.cc:343-422 | the new state and result are those of `Paging.PageLoad` |
| MachineModel.Machine.TLBMissHandler | machine/machine.cc:234-334 | the new state and result are those of `Paging.TLBMiss` for the page of BadVAddrReg |
| MachineModel.Machine.InstallMapping | machine/machine.cc:263-333 | the new state and result are those of `Paging.Install`: the lowest invalid slot is used, or else the entry chosen by `Replace` |
| MachineModel.Machine.ReplaceEntry | machine/machine.cc:279-332 | the new state and result are those of `Paging.Replace` |
| MachineModel.Machine.PageFaultHandler | machine/machine.cc:336-341 | the new state and result are those of `Paging.PageFault` for the page of BadVAddrReg |
| MachineModel.HandlePageFault | userprog/exception.cc:208-219 | the new state and result are those of `Paging.Dispatch`: the TLB miss handler runs iff a TLB exists, and the page fault handler otherwise |
| Common.Unsigned | machine/machine.cc:237 | C's `(unsigned)` of a 32-bit int is the value itself when it is non-negative, and otherwise the value plus 2^32 |
| Common.CDiv | filesys/filehdr.cc:203 | C division truncates toward zero: q * d lies within d of n on the same side of zero, so the remainder n - q * d has the sign of n |
| Common.CMod | filesys/filehdr.cc:118 | C's `%`: `n == CDiv(n, d) * d + r`, and the remainder takes the sign of `n` |
| Common.DivRoundUp | filesys/filehdr.cc:44 | for n >= 0 the result is the least q with n <= q * s |
| Paging.Earliest | machine/machine.cc:348-357 | the index found is -1 or an eligible entry whose tValue is the value found; when the index is -1, the value found is 1 << 30 |
| Paging.Victim | machine/machine.cc:348-358 | the victim is -1 or a valid page |
| Paging.ReplacedSlot | machine/machine.cc:281-307 | the replaced slot is always a TLB index (0 when no entry is below 1 << 30) |
| Paging.AcquireFrame | machine/machine.cc:345-383 | an acquired frame is a frame index; the only failures are NoVictim and SwapFull; the sizes do not change |
| Paging.Fill | machine/machine.cc:385-421 | the result is the frame, or the missing-executable failure; the sizes do not change |
| Paging.FirstMatchFrom | machine/machine.cc:374-379 | the result is -1 or a valid entry at or after i mapping the page |
| Paging.FirstInvalidFrom | machine/machine.cc:264-277 | the result is -1 or an invalid entry at or after i |
| PagingProps.EarliestIsMinimal | machine/machine.cc:348-357 | the scan yields the smallest eligible tValue below 1 << 30 and the lowest index holding it, since ties keep the first; it yields -1 iff no eligible tValue is below 1 << 30 |
| PagingProps.VictimIsEarliestValid | machine/machine.cc:348-358 | the victim is -1 iff no valid page is below 1 << 30; otherwise it is a valid page with the smallest tValue and the lowest number on ties |
| PagingProps.FirstMatchFromIsLowest | machine/machine.cc:374-379 | -1 iff no valid entry maps the page; no valid entry for the page precedes the result |
| PagingProps.InvalidateFirstChangesOne | machine/machine.cc:372-380 | the invalidation clears the valid bit of the first valid entry for the page and changes no other entry |
| PagingProps.InvalidateFirstRemovesPage | machine/machine.cc:372-380 | in a consistent TLB, no valid entry maps the page after the invalidation, and every entry still valid is unchanged |
| PagingProps.FirstInvalidFromIsLowest | machine/machine.cc:264-277 | -1 iff every entry from i on is valid; every entry before the result is valid |
| PagingInvariants.EvictKeepsInv | machine/machine.cc:359-380 | eviction keeps the table invariant (frame and slot ownership, residency exclusivity, TLB consistency) and leaves the victim's frame free for reuse |
| PagingInvariants.EvictKeepsContents | machine/machine.cc:359-370 | eviction loses no page: every page keeps its contents and its dirty and read-only bits, the victim's now in swap |
| PagingInvariants.AcquireFrameKeepsInv | machine/machine.cc:345-383 | AcquireFrame keeps the invariant; the frame it returns is free; a failed ASSERT leaves the state unchanged |
| PagingInvariants.AcquireFrameKeepsContents | machine/machine.cc:345-383 | AcquireFrame changes no page's contents or bits |
| PagingInvariants.FillKeepsInv | machine/machine.cc:385-421 | filling a free frame for a non-resident page keeps the invariant |
| PagingInvariants.RecordKeepsInv | machine/machine.cc:408-419 | recording the mapping of a non-resident page to a free frame keeps the invariant |
| PagingInvariants.FillLoadsPage | machine/machine.cc:386-406 | a page in swap comes back with its bytes and bits; otherwise it gets the executable's bytes at vpn * PageSize + offsetVaddrToFile, dirty is false, and read-only holds iff readOnlyPageStart <= vpn < readOnlyPageEnd |
| PagingInvariants.FillKeepsContents | machine/machine.cc:385-421 | filling changes no other page's contents or bits |
| PagingInvariants.PageLoadKeepsInv | machine/machine.cc:343-422 | PageLoad of a non-resident page keeps the invariant, whether it succeeds or stops at an ASSERT |
| PagingInvariants.PageLoadMapsPage | machine/machine.cc:408-421 | after a successful PageLoad the page is valid, maps itself to the returned frame, and has tValue = timeStamp under PT_FIFO (unchanged otherwise) |
| PagingInvariants.PageLoadKeepsOthers | machine/machine.cc:343-422 | PageLoad changes no other page's contents or bits |
| PagingInvariants.PageLoadLoadsPage | machine/machine.cc:386-407 | the loaded page gets its swapped-out bytes and bits, or the executable's bytes, clean, with read-only from the range |
| PagingInvariants.PageLoadKeepsContents | machine/machine.cc:343-422 | both of the above together: PageLoad loses no page and loads the right bytes |
| PagingInvariants.PageLoadWithFreeFrame | machine/machine.cc:345-346 | with a free frame, PageLoad evicts nothing: it takes the lowest free frame, and it leaves swap space, the TLB and every other page's entries unchanged |
| PagingInvariants.PageLoadWhenMemoryFull | machine/machine.cc:346-383 | when memory is full, no victim or no swap slot stops PageLoad with the state unchanged; otherwise the victim (never the faulting page) goes to the lowest free slot as {victim, slot, valid, dirty, readOnly}, its entry is invalid, its frame is reused without touching memStatusMap, and only its first TLB entry is invalidated |
| PagingInvariants.SwapRoundTrip | machine/machine.cc:359-397 | a page evicted by one fault and loaded back by the next has exactly the bytes, dirty bit and read-only bit it had before |
| PagingInvariants.InstallPlacement | machine/machine.cc:263-332 | the mapping goes into the lowest invalid TLB slot with dirty and read-only from the page table; when every slot is valid, it goes into the slot with the smallest tValue (lowest index on ties, slot 0 when none is below 1 << 30), keeping that slot's bits; tValue is restamped only under TLB_FIFO; the slot's old dirty bit is written to pageTable[slot]; any other strategy stops with nothing changed |
| PagingInvariants.StampUseKeeps | machine/machine.cc:249-261 | stamping the use time under PT_LRU keeps the invariant, every page's contents and bits, and a TLB miss |
| PagingInvariants.PageLoadKeepsMissing | machine/machine.cc:372-380 | PageLoad only invalidates TLB entries, so a page missing from the TLB stays missing |
| PagingInvariants.ResolveMapsPage | machine/machine.cc:239-247 | a valid page is reused with nothing changed, and an invalid one is loaded; on success the page maps to the returned frame; the invariant and the miss are kept |
| PagingInvariants.InstallKeepsInv | machine/machine.cc:263-332 | installing a mapping that agrees with the page table, for a page the TLB misses, keeps the invariant |
| PagingInvariants.NewEntryKeepsConsistent | machine/machine.cc:328-330 | overwriting one TLB slot with a valid mapping that agrees with the page table, for a page no entry holds, keeps the TLB consistent |
| PagingInvariants.TLBMissKeepsInv | machine/machine.cc:234-334 | TLBMissHandler keeps the invariant on a miss |
| PagingInvariants.TLBMissInstalls | machine/machine.cc:234-334 | after a successful miss, the page is valid at the returned frame (its old frame when it was resident), and a valid TLB entry maps it there |
| PagingInvariants.InstallMaps | machine/machine.cc:263-332 | a successful install returns physPage and leaves a valid TLB entry for the page; only dirty bits of the page table change |
| PagingInvariants.InstallKeepsContents | machine/machine.cc:263-332 | an install moves no page's bytes and changes no read-only bit; the only dirty bit it may change is that of the page numbered like the replaced slot |
| PagingInvariants.ResolveKeepsContents | machine/machine.cc:239-247 | resolving a page leaves every other page's contents and bits alone, and leaves the state unchanged for a resident page |
| PagingInvariants.TLBMissKeepsContents | machine/machine.cc:234-334 | a TLB miss moves no page's bytes; the only other bit it may change is the dirty bit of the page numbered like the replaced slot |
| PagingInvariants.DispatchResolvesFault | userprog/exception.cc:208-219 | a fault keeps the invariant; on success the page is resident at the returned frame and, with a TLB, a valid TLB entry maps it |
| PagingInvariants.ReplacedDirtyBitGoesToSlotNumber | machine/machine.cc:331-332 | with a one-entry TLB holding dirty page 1, a miss on page 0 writes the dirty bit to pageTable[0], the slot number, and leaves page 1 clean |
| FileHeaders.FileHeader.Allocate | filesys/filehdr.cc:41-73 | the new header, bitmap and disk are those of `FileHeaderSpec.Allocate` |
| FileHeaders.FileHeader.FindInto | filesys/filehdr.cc:59-60 | `count` Finds in a row: the array receives their results in order, and the bitmap is what they leave |
| FileHeaders.FileHeader.AllocateIndexSectors | filesys/filehdr.cc:61-70 | each used index sector gets its Find result (the others are unchanged), the bitmap has had all the Finds, and the disk holds the index blocks |
| FileHeaders.FileHeader.AllocateIndexSector | filesys/filehdr.cc:62-70 | one index sector takes its Find result and has its block written to disk; returns the data sectors still to place |
| FileHeaders.FileHeader.FillEntries | filesys/filehdr.cc:64-67 | the inner loop fills min(rest, 32) entries with successive Finds and returns what is left |
| FileHeaders.FileHeader.Deallocate | filesys/filehdr.cc:82-114 | the result and bitmap are those of `FileHeaderSpec.Deallocate`, for every header of at most 165 sectors: false at the first failed ASSERT, with the bitmap as it stood then |
| FileHeaders.FileHeader.ClearSectors | filesys/filehdr.cc:84-96 | the sectors are tested and cleared in order (`ClearFrom`); false at the first one out of range or not marked, with the earlier ones cleared |
| FileHeaders.FileHeader.DeallocateIndexSectors | filesys/filehdr.cc:97-112 | the loop over the index sectors leaves the result and bitmap of `ClearIndexFrom` from index sector 0 |
| FileHeaders.FileHeader.DeallocateIndexSector | filesys/filehdr.cc:100-111 | one pass tests index sector i, clears the entries it lists and then the index sector itself; on success the rest of the loop is `ClearIndexFrom` from i + 1, on a failed ASSERT the loop's outcome is false with the bitmap as it stands; returns the data sectors left |
| FileHeaders.FileHeader.ClearEntries | filesys/filehdr.cc:104-109 | tests and clears the first min(rest, 32) listed sectors in order, stopping at the first failed ASSERT (`ClearFrom`) |
| FileHeaders.FileHeader.ClearOne | filesys/filehdr.cc:107-108 | succeeds iff the sector is in range and marked, and then clears exactly that bit; otherwise changes nothing |
| FileHeaders.FileHeader.ExtentAllocate | filesys/filehdr.cc:116-165 | the new header, bitmap and disk are those of `FileHeaderSpec.ExtentAllocate` |
| FileHeaders.FileHeader.ExtendSectors | filesys/filehdr.cc:126-163 | the loop leaves the state of `FileHeaderSpec.ExtendFrom`, which sets numSectors only when every pass succeeds |
| FileHeaders.FileHeader.ExtendSector | filesys/filehdr.cc:127-161 | one pass leaves the state of `FileHeaderSpec.ExtendSector` |
| FileHeaders.FileHeader.AddEntry | filesys/filehdr.cc:153-159 | a data sector is taken, entered in the buffer and written to the named index sector (`FileHeaderSpec.AddEntry`) |
| FileHeaders.FileHeader.ByteToSector | filesys/filehdr.cc:201-219 | returns `Lookup` of virtual sector offset / SectorSize: a direct entry, or entry (v-5) % 32 of index sector (v-5) / 32 |
| FileHeaders.FileHeader.FileLength | filesys/filehdr.cc:226-229 | returns numBytes |
| FileHeaders.ExtendSectorStarting | filesys/filehdr.cc:140-146 | a pass that starts an index sector takes it and stores it at secondary[v - 5] when that is in range, then runs AddEntry on a zeroed buffer |
| FileHeaders.ExtendSectorReading | filesys/filehdr.cc:147-152 | a pass inside an index sector runs AddEntry on that sector's contents read from disk |
| FileHeaders.ExtendFromStep | filesys/filehdr.cc:126-162 | the loop stops at the first failing pass, and otherwise continues from the pass's state |
| FileHeaderProps.IndexSectorLists | filesys/filehdr.cc:100-109 | the first EntriesIn entries of index sector i are the recorded sectors from 5 + 32i on |
| FileHeaderProps.DirectSectorsMarked | filesys/filehdr.cc:92-96 | under the checks, the direct sectors are the first five recorded sectors, distinct and marked |
| FileHeaders.AllocateOutcome | filesys/filehdr.cc:41-73 | the fields, bitmap and disk left by Allocate's loops are exactly `FileHeaderSpec.Allocate` |
| FileHeaders.IndexBlockFilled | filesys/filehdr.cc:61-70 | the buffer one pass writes is `IndexBlock`, and the bitmap is where the next pass's Finds start |
| FileHeaderSpec.LayoutConstants | filesys/filehdr.h:21-26 | NumDirect = (SectorSize - 2 sizeof(int) - 3 TimeInfoSize) / sizeof(int) = 10; NumSecondarySector = NumDirect - 5; NumDirectPerSector = SectorSize / sizeof(int) = 32; MaxFileSize = NumDirect * SectorSize; the header fields fit in one sector |
| FileHeaderSpec.IndexSectors | filesys/filehdr.cc:55-56 | no index sector for at most five sectors; otherwise the least k with 32k covering the sectors past the fifth; at most NumSecondarySector for at most 165 sectors |
| FileHeaderSpec.SlotOf | filesys/filehdr.cc:203-214 | virtual sector v is direct iff v < 5; otherwise v = 5 + 32 * block + entry with 0 <= entry < 32 |
| FileHeaderSpec.Allocate | filesys/filehdr.cc:41-73 | the header keeps its shape (what it computes is stated by the FileHeaderProps lemmas) |
| FileHeaderSpec.Deallocate | filesys/filehdr.cc:82-114 | the bitmap keeps its size (what it computes is stated by `DeallocateOkClearsRecorded`, `DeallocateUnderChecks` and `DeallocateFrees`) |
| FileHeaderSpec.ExtendSector | filesys/filehdr.cc:127-161 | a pass keeps numBytes and numSectors and the bitmap's size |
| FileHeaderSpec.AddEntry | filesys/filehdr.cc:153-159 | the header is unchanged |
| FileHeaderSpec.ExtentAllocate | filesys/filehdr.cc:116-165 | the header keeps its shape and the bitmap its size (what it computes is stated by the ExtentAllocate lemmas) |
| FileHeaderProps.AllocPosInRange | filesys/filehdr.cc:59-67 | every virtual sector of a file comes from one of its Needed(n) Finds, in an index sector and entry the file uses |
| FileHeaderProps.AllocPosInjective | filesys/filehdr.cc:59-67 | different virtual sectors and index sectors come from different Finds |
| FileHeaderProps.WriteIndexBlocksKeeps | filesys/filehdr.cc:68 | writing the index blocks leaves every other sector as it was |
| FileHeaderProps.AllocateFields | filesys/filehdr.cc:41-73 | a successful Allocate fills the direct entries, the index entries and the index blocks from its Finds, in order |
| FileHeaderProps.AllocateRecordsFinds | filesys/filehdr.cc:59-67 | entry p of what Allocate records is the result of Find number RecordedPos(n, p) |
| FileHeaderProps.RecordedDataSector | filesys/filehdr.cc:201-218 | the recorded data sector v is what ByteToSector's lookup returns for v |
| FileHeaderProps.RecordedIndexSector | filesys/filehdr.cc:100-110 | index sector i is recorded right after the data sectors |
| FileHeaderProps.AllocateSucceedsIffRoom | filesys/filehdr.cc:43-58 | numBytes and numSectors are set even on failure; Allocate succeeds iff NumClear covers the data sectors plus the index sectors; on failure, the bitmap, the disk and the sector tables are unchanged |
| FileHeaderProps.AllocateRecordsDistinct | filesys/filehdr.cc:50-67 | a successful Allocate records each sector it takes exactly once |
| FileHeaderProps.AllocateWritesIndexSectors | filesys/filehdr.cc:68 | Allocate writes only its index sectors on disk |
| FileHeaderProps.AllocateMarksRecorded | filesys/filehdr.cc:50-67 | every sector recorded was free and is now in use; exactly those sectors are marked; NumClear falls by Needed(n) |
| FileHeaderProps.AllocateLayout | filesys/filehdr.cc:41-73 | the above together, plus that Deallocate's checks hold after Allocate |
| FileHeaderProps.AllocateThenDeallocate | filesys/filehdr.cc:82-114 | Deallocate after a successful Allocate gives back the bitmap as it was |
| FileHeaderProps.ClearFromOk | filesys/filehdr.cc:84-96 | when the tests of a run of sectors all pass, each was marked and the bitmap has exactly those bits cleared |
| FileHeaderProps.ClearFromMarked | filesys/filehdr.cc:84-96 | the tests of distinct sectors that are all marked all pass |
| FileHeaderProps.ClearIndexFromOk | filesys/filehdr.cc:97-112 | when the index loop from pass i succeeds, every sector it still had to clear (the entries left and the index sectors from i on) was marked, and exactly those bits are cleared |
| FileHeaderProps.ClearIndexFromRuns | filesys/filehdr.cc:97-112 | a loop whose every pass takes one bitmap to the next ends, successfully, with the last of them |
| FileHeaderProps.DeallocateOkClearsRecorded | filesys/filehdr.cc:82-114 | for every header of at most 165 sectors: if no ASSERT fails, every recorded sector was marked and the bitmap has exactly the recorded sectors cleared |
| FileHeaderProps.DeallocateUnderChecks | filesys/filehdr.cc:82-114 | when the recorded sectors are distinct and all marked, no ASSERT fails and the bitmap has exactly them cleared |
| FileHeaderProps.DeallocateToleratesSelfListing | filesys/filehdr.cc:97-112 | a header whose index sector 5 lists itself as its only data sector records 5 twice, yet every ASSERT passes and Deallocate leaves every bit clear |
| FileHeaderProps.DeallocateFrees | filesys/filehdr.cc:82-114 | Deallocate clears every recorded sector, changes no other bit, and raises NumClear by Needed(numSectors) |
| FileHeaderProps.FindFailsOnlyWhenFull | filesys/filehdr.cc:130-132 | Find returns -1 iff no bit is clear |
| FileHeaderProps.AddEntryTakes | filesys/filehdr.cc:153-159 | AddEntry takes one sector when it succeeds, leaves a full bitmap when it fails, and sets no bit clear |
| FileHeaderProps.ExtendSectorTakes | filesys/filehdr.cc:127-161 | a pass takes one data sector, plus one index sector when v starts an index sector, and fails only when the bitmap is full |
| FileHeaderProps.IndexSectorsStep | filesys/filehdr.cc:140 | crossing virtual sector w adds an index sector exactly when w starts one |
| FileHeaderProps.ExtendFromTakes | filesys/filehdr.cc:126-163 | a complete loop sets the sector count and takes Needed(new) - Needed(v) sectors; a loop cut short keeps the old count and leaves the bitmap full |
| FileHeaderProps.ExtentAllocateRunsLoop | filesys/filehdr.cc:118-126 | past the free bytes of the last sector, ExtentAllocate is the loop from numSectors to numSectors + divRoundUp(extBytes) |
| FileHeaderProps.ExtentAllocateNegativeCount | filesys/filehdr.cc:118-123 | a header left by Allocate(-300), with numBytes -300 and numSectors -2, grows by 100 bytes within the slack: the C remainder is -44, so only numBytes changes and ExtentAllocate returns TRUE |
| FileHeaderProps.ExtentAllocateWithinSlack | filesys/filehdr.cc:118-123 | when the growth fits in the assumed free bytes, only numBytes changes |
| FileHeaderProps.ExtentAllocateAccounting | filesys/filehdr.cc:116-165 | numBytes always grows by fileSize; on success numSectors grows by divRoundUp(extBytes) and exactly the extra data and index sectors are taken; on failure numSectors is unchanged |
| FileHeaderProps.ExtentAllocateCoversLength | filesys/filehdr.cc:116-165 | when the length is not a multiple of SectorSize and the count covers it, a successful ExtentAllocate keeps numSectors = divRoundUp(numBytes) |
| FileHeaderProps.ExtentAllocateAtSectorBoundary | filesys/filehdr.cc:118 | when the length is a multiple of SectorSize, growing by up to a sector allocates nothing and the count no longer covers the length |
| FileHeaderProps.ExtentSecondIndexSectorIsLost | filesys/filehdr.cc:145 | growing a 37-sector file by one sector takes a new index sector, but the header still names the old secondary[1], and the new entry is written there |
| FileHeaderProps.IndexBlockEnd | filesys/filehdr.cc:61-67 | index sector i holds min(rest, 32) entries, and its Finds end where the next index sector's begin |
| BitMaps.BitMap.Find | machine/machine.cc:345 | Find returns the lowest clear bit and sets it, or returns -1 with the bitmap unchanged |
| BitMaps.FindNTakesClearBits | filesys/filehdr.cc:59-67 | n Finds in a row with n clear bits return n distinct bits that were clear, mark exactly those, and lower NumClear by n |
| BitMaps.TakeCounts | filesys/filehdr.cc:130-132 | Find fails iff no bit is clear, and a successful Find lowers NumClear by one |
| DirectorySpec.EmptyTable | filesys/directory.cc:40-43 | a table of `size` entries, none in use |
| DirectorySpec.Key | filesys/directory.cc:91 | the characters strncmp compares: a prefix of the name, of length at most FileNameMaxLen |
| DirectorySpec.FindFrom | filesys/directory.cc:88-94 | the lowest slot from i on that is in use and matches, or -1 iff none does |
| DirectorySpec.FreeFrom | filesys/directory.cc:204-205 | the lowest slot from i on that is not in use, or -1 iff every slot is in use |
| DirectorySpec.FirstSlash | filesys/directory.cc:113-118 | the position of the first '/', or the length when there is none |
| DirectorySpec.Split | filesys/directory.cc:112-130 | the dropped level is 1 to |name| characters, and the rest is the path that follows it |
| Directories.SplitName | filesys/directory.cc:107-130 | the scanning loops skip past the first '/' and copy the next component, up to and including its '/', into the zeroed buffer; they return the level length, the component and whether the path ends after it |
| Directories.Directory.constructor | filesys/directory.cc:38-44 | the new table has `size` entries, none in use |
| Directories.Directory.FetchFrom | filesys/directory.cc:63-66 | the table becomes the one stored for that sector (all unused if none is stored) |
| Directories.Directory.FindIndex | filesys/directory.cc:88-94 | returns `FindIn`: the lowest in-use slot whose name matches in the first FileNameMaxLen characters, or -1 |
| Directories.Directory.Find | filesys/directory.cc:105-157 | returns `FindPath`, descending one directory per level |
| Directories.Directory.Add | filesys/directory.cc:170-237 | the result and new table are those of `AddPath` |
| Directories.Directory.Remove | filesys/directory.cc:247-254 | the result and new table are those of `RemoveEntry` |
| DirectoryProps.SplitShape | filesys/directory.cc:112-130 | the dropped level ends at the first '/'; the component is a prefix of the rest, with '/' only as its last character; the path ends after the component iff the component is the whole rest |
| DirectoryProps.SplitIsUnique | filesys/directory.cc:177-195 | any cut of the path as pre '/' comp rem, with no '/' in pre and comp ending at its only '/' or ending the path, is exactly the cut the split makes |
| DirectoryProps.SplitIndices | filesys/directory.cc:112-130 | the split as positions: the first '/' is at k, and the component runs from k + 1 to lim, with a '/' at lim - 1 when the path goes on |
| DirectoryProps.AddWalkableFindWalkable | filesys/directory.cc:220-226 | a path Add can walk, Find can walk too |
| DirectoryProps.WalkDescends | filesys/directory.cc:140-155 | below the last level, the found entry is a directory (the ASSERT), and Find and Add continue on the rest of the path in the table read from it |
| DirectoryProps.UnusedTable | filesys/directory.cc:38-44 | a table with no entry in use finds nothing, has slot 0 free if it is not empty, and has distinct names |
| DirectoryProps.KeyIdempotent | filesys/directory.cc:208 | a name stored through strncpy compares equal to the name it came from |
| DirectoryProps.FindAfterFill | filesys/directory.cc:204-216 | filling a free slot that precedes every match makes that slot the one lookup finds |
| DirectoryProps.AddAtLastLevel | filesys/directory.cc:197-218 | Add succeeds iff the component is absent and a slot is free; it then fills the lowest free slot with inUse, the component's key, newSector, and type 0 iff the component ends in '/'; every other slot is unchanged; a failing Add leaves the table as it was |
| DirectoryProps.AddChangesAtMostOne | filesys/directory.cc:204-216 | Add changes at most one entry of its table |
| DirectoryProps.AddBelowIsLost | filesys/directory.cc:220-236 | below the last level, Add never changes its own table, even on success; the subdirectory copy it changed is not written back |
| DirectoryProps.AddThenFind | filesys/directory.cc:132-139 | after a successful last-level Add, Find of the same path returns the new sector |
| DirectoryProps.AddKeepsUniqueNames | filesys/directory.cc:197-218 | Add keeps the names in use distinct |
| DirectoryProps.RemoveMarksFoundEntry | filesys/directory.cc:249-254 | Remove succeeds iff the whole name is found; it then clears only that entry's inUse, and otherwise changes nothing |
| DirectoryProps.RemoveThenAbsent | filesys/directory.cc:249-254 | with distinct names, the removed name is no longer found |
| DirectoryProps.RemoveKeepsUniqueNames | filesys/directory.cc:249-254 | Remove keeps the names in use distinct |
| DirectoryProps.AddThenRemove | filesys/directory.cc:249-254 | removing the component a last-level Add just added restores every entry that was in use, and leaves the same slots in use |
| DirectoryProps.FindAtLastLevel | filesys/directory.cc:132-139 | at the last level, Find returns the found entry's sector, and -1 iff the component is missing (or stored with sector -1) |
| DirectoryProps.FindMissingDirectoryIsZero | filesys/directory.cc:155 | a missing intermediate directory makes Find return 0 |
| DirectoryProps.MissingDirectoryLooksLikeSectorZero | filesys/directory.cc:155 | with one file "b" at sector 0, Find of "/b" and Find of "/x/y", where "x/" is missing, both return 0 |

## Left out

- The sizes from `machine.h` (NumPhysPages, NumSwapPages, TLBSize) are constructor parameters (tlbSize must be positive when a TLB is used). machine.h is not part of this model.
- TLB use is a constructor flag rather than the `USE_TLB` compile switch.
- The other registers, NumTotalRegs = 40 and BadVAddrReg = 39, are the stock Nachos values.
- The `printf` tracing, `CheckEndian`, the debugger, `DumpState`, `printTLBStat` and the destructor are left out: they are output or host-specific.
- Fields the source leaves uninitialised are modelled as zeros: TLB entries other than their valid bit, and the `writtenSector` buffer of a new index sector.
- Page-table entries the handlers never set are arbitrary inputs.
- Timing is an input: `timeStamp` is a field that the handlers never advance. TLB hits, LRU refresh on hits and the advance of `timeStamp` live in translate.cc, which is not part of this model.
- An ASSERT that can fail on a reachable state becomes an `Err` result, and the handler stops there. These are: no victim, no swap slot, no executable, and an unknown TLB strategy.
- MachineModel.Machine.ReadRegister: the ASSERT on the register index is a precondition.
- The directory's ASSERTs (a '/' in every path, a directory type on the way down) are part of the `Walkable` precondition.
- Accesses whose C behaviour is undefined are excluded by preconditions:
  - FileHeaderSpec.Allocate: `AllocateFits` excludes a file over 165 sectors that passes the free-space check, which would write past `secondarySectors`.
  - FileHeaderSpec.ExtentAllocate: `ExtentFits` excludes growth beyond 165 sectors. It also excludes a negative `numSectors` when the growth does not fit in the last sector's slack, because the loop at line 126 would then write `primarySectors` below index 0. A negative count whose growth fits the slack is accepted, and ExtentAllocate returns TRUE (`ExtentAllocateWithinSlack`; `ExtentAllocateNegativeCount` works through numBytes -300, whose C remainder is -44).
  - FileHeaderSpec.Deallocate and FileHeaders.FileHeader.Deallocate: `numSectors <= MaxDataSectors` excludes a header of more than 165 sectors, on which the loop at lines 97-102 would read `secondarySectors[5]` and beyond. Such a header can arise, because a failed Allocate still sets `numSectors` at lines 43-44.
  - Directories.Directory.Find: `Walkable` excludes a component longer than the FileNameMaxLen + 1 character buffer.
  - Directories.Directory.Add: `Walkable` excludes an empty last component where line 209 would read `nameBuf[-1]`: the component is empty when the path's first '/' is its last character (such as "/" or "x/"), and the read happens only when that component is not found and a free slot exists. A path such as "/a/" has the last component "a/" and is accepted.
  - MachineModel.Machine.TLBMissHandler, MachineModel.Machine.PageFaultHandler and MachineModel.HandlePageFault: the requirement `VpnOf(registers[BadVAddrReg]) < pageTableSize` excludes a page number outside the page table, which lines 240 and 338-340 of machine.cc index without a check. This includes every negative BadVAddr, whose unsigned page number is at least 2^24.
  - FileHeaders.FileHeader.ByteToSector: `0 <= CDiv(offset, SectorSize) < MaxDataSectors` excludes an offset of -128 or less, whose truncated quotient is negative and would index `primarySectors` below 0, and a virtual sector of 165 or more, which would read `secondarySectors[5]` at line 211.
- FileHeaders.FileHeader.Deallocate: each ASSERT is a test, and a failed one makes Deallocate return false with the bitmap as it stood then. The ASSERTs test each index sector and each listed sector as it is reached; they do not require the recorded sectors to be distinct (`DeallocateToleratesSelfListing`). `DeallocateChecks` (recorded sectors distinct and all marked) is a sufficient condition for success, used by `DeallocateUnderChecks`, `DeallocateFrees` and `AllocateThenDeallocate`; it is not the exact condition under which the ASSERTs pass.
- Paging.Inv: `Owned` states one direction of ownership: every valid page holds a marked frame (or swap slot) and no two valid pages share one. It does not state the converse, that every marked frame or slot belongs to a valid page. `memStatusMap` and `swapStatusMap` are shared by every address space, while the model holds one address space's `pageTable` and `swapPageTable`, so the converse would need tables the model does not have. Within the model the converse also fails after an ASSERT stops PageLoad: for example, with a missing executable the frame taken by Find stays marked with no page mapping it. Other code, such as address-space setup, may mark frames too.
- PagingInvariants.ReplacedDirtyBitGoesToSlotNumber and `Paging.Replace`: when the replaced TLB slot's number is not a valid page number, the write `pageTable[replacedTLB].dirty` at machine.cc:331-332 is outside the page table. The model treats that write as having no effect.
- FileHeaderSpec.ExtendSector: the write to `secondarySectors[restNumSectors]` when that slot is out of range is modelled as having no effect.
- FileHeaderSpec.ExtendSector: the result of `freeMap->Test` at line 149 is ignored, as in the source.
- FileHeaders.FileHeader.ExtentAllocate: the C++ loop is the separate method `ExtendSectors`. Where it places sectors is proved only through its accounting (`ExtentAllocateAccounting`) and the two concrete cases above, not as a full layout.
- FileHeaders.FileHeader: the C++ class has no constructor. The model's constructor is only for building an object and models no source lines.
- The time strings and their functions (`SetCreatedTime` and the others) are left out, since they depend on the clock. So are the header's `FetchFrom`/`WriteBack` (a raw copy of the struct to a sector) and `Print`.
- Directories.Directory.FetchFrom: reading a directory file is a lookup in a map from header sector to table. A sector with no stored table reads as all unused.
- `Directory::WriteBack`, `List`, `Print`, `RemoveAllFiles` and the unreachable code after line 254 are left out. RemoveAllFiles depends on the global file system and on headers on disk.
- Directories.Directory.Remove: the unused `freeMap` parameter is dropped.
- A string is the sequence of characters before its NUL. The model does not exclude a '\0' character inside a name, which the C strings cannot hold.
- strncmp and strncpy with FileNameMaxLen compare and copy the first FileNameMaxLen characters (`Key`).
- directory.h is not part of this model; FileNameMaxLen = 9 and NumDirEntries = 10 are the stock Nachos values.
- SectorSize = 128 and sizeof(int) = 4 are the stock Nachos values; disk.h is not part of this model.
- Integers that C keeps in an `int` are unbounded. Signed overflow is undefined behaviour in C, so an unbounded value is what a run without undefined behaviour computes. This covers `numBytes += fileSize` at filehdr.cc:119 and `vpn * PageSize + offsetVaddrToFile` at machine.cc:402.
- BitMaps.BitMap.Find: bitmap.cc is not part of this model. Find is taken to hand out the lowest clear bit, as the stock Nachos BitMap does.
- The simulated disk keeps only the index sectors that file headers write.
- The executable is a byte sequence read through `ReadAt`; OpenFile is not part of this model.
- threads/synch.cc and threads/threadtest.cc are left out, since they are about concurrency.
- The rest of userprog/exception.cc is syscall plumbing and is left out.
