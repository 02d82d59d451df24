/** The Machine object of machine/machine.cc as it is: the registers, main
    memory and swap space as byte arrays, their bitmaps, the TLB, page table
    and swap page table as arrays of TranslationEntry, and the fault
    handlers that update them in place. Each handler is proved to leave the
    object in the state the matching function of paging.dfy computes, so the
    lemmas of paging_props.dfy apply to it. */
module MachineModel {
  import opened Common
  import opened BitMaps
  import opened Paging

  /** Registers of the simulated MIPS (machine.h is not part of this model;
      these are the Nachos values). */
  const NumTotalRegs: int := 40
  const BadVAddrReg: int := 39

  class Machine {
    const registers: array<int32>
    const mainMemory: array<bv8>
    const memStatusMap: BitMap
    const swapSpace: array<bv8>
    const swapStatusMap: BitMap
    /** null when the kernel is built without USE_TLB. */
    const tlb: array?<TranslationEntry>
    /** Set by the address space that is running (addrspace.cc is not part of this model). */
    var pageTable: array?<TranslationEntry>
    var swapPageTable: array?<TranslationEntry>
    var pageTableSize: int
    var ptStrategy: Strategy
    var tlbStrategy: Strategy
    /** The executable pages are loaded from, as a byte source, or NULL. */
    var execFile: Option<seq<bv8>>
    var offsetVaddrToFile: int
    var readOnlyPageStart: int
    var readOnlyPageEnd: int
    var singleStep: bool
    var timeStamp: int
    var tlbHitCount: int
    var tlbMissCount: int

    /** The arrays exist, have the sizes they were built with and do not alias. */
    ghost predicate Ready()
      reads this
    {
      registers.Length == NumTotalRegs &&
      pageTable != null && swapPageTable != null &&
      pageTable.Length == pageTableSize && swapPageTable.Length == pageTableSize &&
      (tlb != null ==> tlb.Length > 0) &&
      mainMemory != swapSpace && memStatusMap != swapStatusMap &&
      pageTable != swapPageTable && tlb != pageTable && tlb != swapPageTable &&
      mainMemory as object != pageTable && mainMemory as object != swapPageTable &&
      mainMemory as object != tlb && swapSpace as object != pageTable &&
      swapSpace as object != swapPageTable && swapSpace as object != tlb
    }

    /** The part of the object the pager works on, as a value. */
    ghost function State(): (s: MState)
      requires Ready()
      reads this, mainMemory, memStatusMap, swapSpace, swapStatusMap, pageTable, swapPageTable, tlb
    {
      MState(mainMemory[..], memStatusMap.bits, swapSpace[..], swapStatusMap.bits,
             pageTable[..], swapPageTable[..], if tlb == null then None else Some(tlb[..]),
             ptStrategy, tlbStrategy, execFile, offsetVaddrToFile,
             readOnlyPageStart, readOnlyPageEnd, timeStamp)
    }

    /** Ready, and every valid page-table and swap-table entry points inside
      main memory and swap space. */
    ghost predicate Valid()
      reads this, mainMemory, memStatusMap, swapSpace, swapStatusMap, pageTable, swapPageTable, tlb
    {
      Ready() && WellFormed(State())
    }

    /** Machine::Machine: registers and both memories zeroed, every frame and
        swap slot free, a TLB of `tlbSize` invalid entries (or none), page
        replacement PT_FIFO, TLB replacement TLB_LRU, no page table and no
        executable. The sizes come from machine.h, which is not part of
        this model; fields the source leaves uninitialised are zero here. */
    constructor (debug: bool, numPhysPages: nat, numSwapPages: nat, useTLB: bool, tlbSize: nat)
      requires useTLB ==> tlbSize > 0
      ensures registers.Length == NumTotalRegs && forall i :: 0 <= i < NumTotalRegs ==> registers[i] == 0
      ensures mainMemory[..] == seq(numPhysPages * PageSize, _ => 0)
      ensures swapSpace[..] == seq(numSwapPages * PageSize, _ => 0)
      ensures memStatusMap.bits == seq(numPhysPages, _ => false)
      ensures swapStatusMap.bits == seq(numSwapPages, _ => false)
      ensures useTLB ==> tlb != null && tlb.Length == tlbSize &&
                         forall i :: 0 <= i < tlbSize ==> !tlb[i].valid
      ensures !useTLB ==> tlb == null
      ensures ptStrategy == FIFO && (useTLB ==> tlbStrategy == LRU)
      ensures pageTable == null && swapPageTable == null && execFile == None
      ensures offsetVaddrToFile == 0 && singleStep == debug && timeStamp == 0
      ensures tlbHitCount == 0 && tlbMissCount == 0
      ensures fresh(registers) && fresh(mainMemory) && fresh(swapSpace)
      ensures fresh(memStatusMap) && fresh(swapStatusMap) && (tlb != null ==> fresh(tlb))
    {
      registers := new int32[NumTotalRegs](_ => 0);
      mainMemory := new bv8[numPhysPages * PageSize](_ => 0);
      memStatusMap := new BitMap(numPhysPages);
      swapSpace := new bv8[numSwapPages * PageSize](_ => 0);
      swapStatusMap := new BitMap(numSwapPages);
      ptStrategy := FIFO;
      if useTLB {
        tlb := new TranslationEntry[tlbSize](_ => TranslationEntry(0, 0, false, false, false, 0));
        tlbStrategy := LRU;
      } else {
        tlb := null;
        tlbStrategy := FIFO;
      }
      pageTable := null;
      swapPageTable := null;
      pageTableSize := 0;
      execFile := None;
      offsetVaddrToFile := 0;
      readOnlyPageStart := 0;
      readOnlyPageEnd := 0;
      singleStep := debug;
      timeStamp := 0;
      tlbHitCount := 0;
      tlbMissCount := 0;
    }

    /** Machine::ReadRegister (the index is ASSERTed to be in range). */
    function ReadRegister(num: int): (v: int32)
      requires registers.Length == NumTotalRegs && 0 <= num < NumTotalRegs
      reads registers
      ensures v == registers[num]
    {
      registers[num]
    }

    /** Machine::WriteRegister: afterwards register `num` reads `value` and
        every other register reads what it did before. */
    method WriteRegister(num: int, value: int32)
      requires registers.Length == NumTotalRegs && 0 <= num < NumTotalRegs
      modifies registers
      ensures forall i :: 0 <= i < NumTotalRegs ==>
                ReadRegister(i) == if i == num then value else old(ReadRegister(i))
    {
      registers[num] := value;
    }

    // ------------------------------------------------------------ loops

    /** The scan for the smallest tValue (lines 281-307 over the TLB,
        348-357 over the page table with `onlyValid`). */
    static method EarliestEntry(a: array<TranslationEntry>, onlyValid: bool) returns (earliest: int, idx: int)
      ensures (earliest, idx) == Earliest(a[..], onlyValid)
    {
      earliest, idx := Infinity, -1;
      var i := 0;
      while i < a.Length
        invariant 0 <= i <= a.Length
        invariant (earliest, idx) == Earliest(a[..i], onlyValid)
      {
        assert a[..i + 1][..i] == a[..i];
        if Eligible(a[i], onlyValid) && a[i].tValue < earliest {
          earliest, idx := a[i].tValue, i;
        }
        i := i + 1;
      }
      assert a[..a.Length] == a[..];
    }

    /** A byte-copy loop: page `srcPage` of `src` into page `dstPage` of `dst`. */
    static method CopyPage(src: array<bv8>, srcPage: int, dst: array<bv8>, dstPage: int)
      requires src != dst && PageIn(src[..], srcPage) && PageIn(dst[..], dstPage)
      modifies dst
      ensures dst[..] == WritePage(old(dst[..]), dstPage, ReadPage(src[..], srcPage))
    {
      var srcStart, dstStart := srcPage * PageSize, dstPage * PageSize;
      for i := 0 to PageSize
        invariant forall k :: 0 <= k < dst.Length ==>
          dst[k] == if dstStart <= k < dstStart + i then src[srcStart + k - dstStart] else old(dst[k])
      {
        dst[dstStart + i] := src[srcStart + i];
      }
      ghost var w := WritePage(old(dst[..]), dstPage, ReadPage(src[..], srcPage));
      assert forall k :: 0 <= k < dst.Length ==> dst[k] == w[k];
    }

    /** Lines 372-380: invalidate the first valid TLB entry that maps `victim`. */
    method InvalidateTLBEntry(victim: int)
      requires tlb != null
      modifies tlb
      ensures tlb[..] == InvalidateFirst(old(tlb[..]), victim)
    {
      for i := 0 to tlb.Length
        invariant tlb[..] == old(tlb[..])
        invariant FirstMatchFrom(tlb[..], victim, i) == FirstMatchFrom(tlb[..], victim, 0)
      {
        if tlb[i].valid && tlb[i].virtualPage == victim {
          tlb[i] := tlb[i].(valid := false);
          return;
        }
      }
    }

    /** OpenFile::ReadAt of one page of the executable into frame `frame`. */
    method ReadExecPage(frame: int, position: int)
      requires Ready() && execFile.Some? && PageIn(mainMemory[..], frame)
      modifies mainMemory
      ensures mainMemory[..] == WritePage(old(mainMemory[..]), frame,
                                          ReadAt(execFile.value, position, ReadPage(old(mainMemory[..]), frame)))
    {
      ghost var image := ReadAt(execFile.value, position, ReadPage(mainMemory[..], frame));
      var file := execFile.value;
      var start := frame * PageSize;
      forall k | 0 <= k < PageSize && 0 <= position + k < |file| {
        mainMemory[start + k] := file[position + k];
      }
      ghost var w := WritePage(old(mainMemory[..]), frame, image);
      assert forall k :: 0 <= k < mainMemory.Length ==> mainMemory[k] == w[k];
    }

    // --------------------------------------------------------- PageLoad

    /** Lines 345-383: a free frame, or the frame of the evicted victim. */
    method AcquireFrame() returns (r: Result<int, Fault>)
      requires Valid()
      modifies swapSpace, memStatusMap, swapStatusMap, pageTable, swapPageTable, tlb
      ensures Valid() && Outcome(State(), r) == Paging.AcquireFrame(old(State()))
    {
      ghost var s := State();
      var physPage := memStatusMap.Find();
      if physPage != -1 {
        assert State() == s.(memStatusMap := s.memStatusMap[physPage := true]);
        return Ok(physPage);
      }
      var earliestUsedTime, swapOutPage := EarliestEntry(pageTable, true);
      if swapOutPage < 0 {
        assert State() == s;
        return Err(NoVictim);
      }
      var swapSpacePage := swapStatusMap.Find();
      if swapSpacePage < 0 {
        assert State() == s;
        return Err(SwapFull);
      }
      physPage := pageTable[swapOutPage].physicalPage;
      EvictPage(swapOutPage, swapSpacePage);
      r := Ok(physPage);
    }

    /** Lines 359-380: write page `victim` out to swap slot `slot` and drop its mappings. */
    method EvictPage(victim: int, slot: int)
      requires Valid() && 0 <= victim < pageTableSize && pageTable[victim].valid
      requires 0 <= slot < |swapStatusMap.bits| && swapStatusMap.bits[slot]
      modifies swapSpace, pageTable, swapPageTable, tlb
      ensures Valid() && State() == Evict(old(State()), victim, slot)
    {
      ghost var s := State();
      assert s.swapStatusMap[slot := true] == s.swapStatusMap;
      var physPage := pageTable[victim].physicalPage;
      PageInBounds(s.mainMemory, |s.memStatusMap|, physPage);
      PageInBounds(s.swapSpace, |s.swapStatusMap|, slot);
      CopyPage(mainMemory, physPage, swapSpace, slot);
      var e := pageTable[victim];
      swapPageTable[victim] := swapPageTable[victim].(
        virtualPage := victim, physicalPage := slot, valid := true,
        dirty := e.dirty, readOnly := e.readOnly);
      pageTable[victim] := pageTable[victim].(valid := false);
      if tlb != null {
        InvalidateTLBEntry(victim);
      }
      ghost var ev := Evict(s, victim, slot);
      assert swapSpace[..] == ev.swapSpace;
      assert swapPageTable[..] == ev.swapPageTable;
      assert pageTable[..] == ev.pageTable;
      assert State() == ev;
    }

    /** Lines 386-395: bring page `vpn` back from its swap slot into `frame`. */
    method CopyFromSwap(vpn: int, frame: int)
      requires Valid() && 0 <= vpn < pageTableSize && 0 <= frame < |memStatusMap.bits|
      requires swapPageTable[vpn].valid
      modifies mainMemory, swapStatusMap, pageTable, swapPageTable
      ensures Valid() && State() == SwapIn(old(State()), vpn, frame)
    {
      ghost var s := State();
      PageInBounds(s.mainMemory, |s.memStatusMap|, frame);
      var sw := swapPageTable[vpn];
      PageInBounds(s.swapSpace, |s.swapStatusMap|, sw.physicalPage);
      CopyPage(swapSpace, sw.physicalPage, mainMemory, frame);
      pageTable[vpn] := pageTable[vpn].(dirty := sw.dirty, readOnly := sw.readOnly);
      swapPageTable[vpn] := swapPageTable[vpn].(valid := false);
      swapStatusMap.Clear(sw.physicalPage);
      ghost var w := SwapIn(s, vpn, frame);
      assert pageTable[..] == w.pageTable;
      assert swapPageTable[..] == w.swapPageTable;
    }

    /** Lines 398-405: read page `vpn` of the executable into `frame`. */
    method LoadExecPage(vpn: int, frame: int)
      requires Valid() && 0 <= vpn < pageTableSize && 0 <= frame < |memStatusMap.bits|
      requires execFile.Some?
      modifies mainMemory, pageTable
      ensures Valid() && State() == LoadFromExec(old(State()), vpn, frame)
    {
      ghost var s := State();
      PageInBounds(s.mainMemory, |s.memStatusMap|, frame);
      ReadExecPage(frame, vpn * PageSize + offsetVaddrToFile);
      pageTable[vpn] := pageTable[vpn].(
        dirty := false, readOnly := readOnlyPageStart <= vpn < readOnlyPageEnd);
      assert pageTable[..] == LoadFromExec(s, vpn, frame).pageTable;
    }

    /** Lines 407-419: map `vpn` to `frame`; under PT_FIFO stamp the load time. */
    method RecordMapping(vpn: int, frame: int)
      requires Valid() && 0 <= vpn < pageTableSize && 0 <= frame < |memStatusMap.bits|
      modifies pageTable
      ensures Valid() && State() == Record(old(State()), vpn, frame)
    {
      ghost var s := State();
      pageTable[vpn] := pageTable[vpn].(virtualPage := vpn, physicalPage := frame, valid := true);
      if ptStrategy == FIFO {
        pageTable[vpn] := pageTable[vpn].(tValue := timeStamp);
      }
      assert pageTable[..] == Record(s, vpn, frame).pageTable;
    }

    /** Lines 385-421: fill `frame` from swap or from the executable and map `vpn` to it. */
    method FillFrame(vpn: int, frame: int) returns (r: Result<int, Fault>)
      requires Valid() && 0 <= vpn < pageTableSize && 0 <= frame < |memStatusMap.bits|
      modifies mainMemory, swapStatusMap, pageTable, swapPageTable
      ensures Valid() && Outcome(State(), r) == Paging.Fill(old(State()), vpn, frame)
    {
      if swapPageTable[vpn].valid {
        CopyFromSwap(vpn, frame);
      } else if execFile.None? {
        return Err(NoExecFile);
      } else {
        LoadExecPage(vpn, frame);
      }
      RecordMapping(vpn, frame);
      r := Ok(frame);
    }

    /** Machine::PageLoad(vpn): the frame now holding page `vpn`, or the ASSERT that stopped it. */
    method PageLoad(vpn: int) returns (r: Result<int, Fault>)
      requires Valid() && 0 <= vpn < pageTableSize
      modifies mainMemory, swapSpace, memStatusMap, swapStatusMap, pageTable, swapPageTable, tlb
      ensures Valid() && Outcome(State(), r) == Paging.PageLoad(old(State()), vpn)
    {
      r := AcquireFrame();
      if r.Ok? {
        r := FillFrame(vpn, r.value);
      }
    }

    // --------------------------------------------------- fault handlers

    /** Machine::TLBMissHandler: resolve the page of BadVAddrReg and put its
        mapping into the TLB. */
    method TLBMissHandler() returns (r: Result<int, Fault>)
      requires Valid() && tlb != null && VpnOf(registers[BadVAddrReg]) < pageTableSize
      modifies mainMemory, swapSpace, memStatusMap, swapStatusMap, pageTable, swapPageTable, tlb
      ensures Valid() && Outcome(State(), r) == TLBMiss(old(State()), VpnOf(old(registers[BadVAddrReg])))
    {
      ghost var s := State();
      var badVAddr := ReadRegister(BadVAddrReg);
      var vpn := VpnOf(badVAddr);
      var physPage: int;
      if pageTable[vpn].valid {
        physPage := pageTable[vpn].physicalPage;
      } else {
        r := PageLoad(vpn);
        if r.Err? {
          return;
        }
        physPage := r.value;
      }
      ghost var a := Resolve(s, vpn);
      assert State() == a.state && a.result == Ok(physPage);
      if ptStrategy == LRU {
        pageTable[vpn] := pageTable[vpn].(tValue := timeStamp);
      }
      ghost var s2 := StampUse(a.state, vpn);
      assert pageTable[..] == s2.pageTable;
      assert State() == s2;
      r := InstallMapping(vpn, physPage);
    }

    /** Lines 263-333: put vpn -> physPage into the TLB. */
    method InstallMapping(vpn: int, physPage: int) returns (r: Result<int, Fault>)
      requires Valid() && tlb != null && 0 <= vpn < pageTableSize
      modifies pageTable, tlb
      ensures Valid() && Outcome(State(), r) == Install(old(State()), vpn, physPage)
    {
      ghost var s := State();
      for i := 0 to tlb.Length
        invariant tlb[..] == old(tlb[..])
        invariant FirstInvalidFrom(tlb[..], i) == FirstInvalidFrom(tlb[..], 0)
      {
        if !tlb[i].valid {
          assert FirstInvalidFrom(tlb[..], 0) == i;
          tlb[i] := tlb[i].(virtualPage := vpn, physicalPage := physPage, valid := true,
                            dirty := pageTable[vpn].dirty, readOnly := pageTable[vpn].readOnly);
          assert tlb[..] == Install(s, vpn, physPage).state.tlb.value;
          return Ok(physPage);
        }
      }
      r := ReplaceEntry(vpn, physPage);
    }

    /** Lines 279-332: every TLB slot is valid; replace the one the strategy picks. */
    method ReplaceEntry(vpn: int, physPage: int) returns (r: Result<int, Fault>)
      requires Valid() && tlb != null
      modifies pageTable, tlb
      ensures Valid() && Outcome(State(), r) == Replace(old(State()), vpn, physPage)
    {
      ghost var s := State();
      var replacedTLB := 0;
      match tlbStrategy {
        case LRU =>
          var earliestUsedTime, idx := EarliestEntry(tlb, false);
          if idx != -1 {
            replacedTLB := idx;
          }
        case FIFO =>
          var earliestCreatedTime, idx := EarliestEntry(tlb, false);
          if idx != -1 {
            replacedTLB := idx;
          }
          tlb[replacedTLB] := tlb[replacedTLB].(tValue := timeStamp);
        case LFU =>
          return Err(UnknownStrategy);
      }
      tlb[replacedTLB] := tlb[replacedTLB].(virtualPage := vpn, physicalPage := physPage, valid := true);
      if replacedTLB < pageTable.Length {
        pageTable[replacedTLB] := pageTable[replacedTLB].(dirty := tlb[replacedTLB].dirty);
      }
      ghost var rep := Replace(s, vpn, physPage).state;
      assert tlb[..] == rep.tlb.value;
      assert pageTable[..] == rep.pageTable;
      assert State() == rep;
      r := Ok(physPage);
    }

    /** Machine::PageFaultHandler: load the page of BadVAddrReg. */
    method PageFaultHandler() returns (r: Result<int, Fault>)
      requires Valid() && VpnOf(registers[BadVAddrReg]) < pageTableSize
      modifies mainMemory, swapSpace, memStatusMap, swapStatusMap, pageTable, swapPageTable, tlb
      ensures Valid() && Outcome(State(), r) == PageFault(old(State()), VpnOf(old(registers[BadVAddrReg])))
    {
      var badVAddr := ReadRegister(BadVAddrReg);
      r := PageLoad(VpnOf(badVAddr));
    }
  }

  /** userprog/exception.cc:208-219: a PageFaultException goes to
      TLBMissHandler when there is a TLB and to PageFaultHandler otherwise. */
  method HandlePageFault(machine: Machine) returns (r: Result<int, Fault>)
    requires machine.Valid() && VpnOf(machine.registers[BadVAddrReg]) < machine.pageTableSize
    modifies machine.mainMemory, machine.swapSpace, machine.memStatusMap, machine.swapStatusMap
    modifies machine.pageTable, machine.swapPageTable, machine.tlb
    ensures machine.Valid()
    ensures Outcome(machine.State(), r) == Dispatch(old(machine.State()), old(machine.registers[BadVAddrReg]))
  {
    if machine.tlb != null {
      r := machine.TLBMissHandler();
    } else {
      r := machine.PageFaultHandler();
    }
  }
}
