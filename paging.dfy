/** A value model of the demand pager in machine/machine.cc: the state the
    fault handlers touch (main memory, swap space, their bitmaps, the page
    table, the swap page table and the TLB) and one function per step of
    PageLoad, TLBMissHandler and PageFaultHandler. The class in machine.dfy
    runs the same steps in place over arrays and is proved equal to these
    functions; the lemmas at the end state what the steps guarantee. */
module Paging {
  import opened Common
  import opened BitMaps
  import Disk

  /** Bytes per page; Nachos makes a page one disk sector. */
  const PageSize: int := Disk.SectorSize

  /** The start value `1 << 30` of the "earliest time" scans. */
  const Infinity: int := 0x4000_0000

  /** Replacement strategies. LFU stands for every value other than FIFO
      and LRU: its cases are commented out in the source, so the page-table
      switch does nothing for it and the TLB switch reaches ASSERT(false). */
  datatype Strategy = FIFO | LRU | LFU

  /** A TranslationEntry: one page-table, swap-table or TLB record.
      In the swap table, physicalPage is a swap slot. */
  datatype TranslationEntry = TranslationEntry(
    virtualPage: int,
    physicalPage: int,
    valid: bool,
    readOnly: bool,
    dirty: bool,
    tValue: int)

  /** The ASSERTs of the fault path that can fail on a reachable state. */
  datatype Fault =
    | NoVictim         // ASSERT(swapOutPage >= 0): memory full and no valid page below 1 << 30
    | SwapFull         // ASSERT(swapSpacePage >= 0)
    | NoExecFile       // ASSERT(execFile != NULL)
    | UnknownStrategy  // ASSERT(false) in the TLB replacement switch

  /** The part of the Machine object the fault handlers read and write. */
  datatype MState = MState(
    mainMemory: seq<bv8>,
    memStatusMap: seq<bool>,
    swapSpace: seq<bv8>,
    swapStatusMap: seq<bool>,
    pageTable: seq<TranslationEntry>,
    swapPageTable: seq<TranslationEntry>,
    tlb: Option<seq<TranslationEntry>>,
    ptStrategy: Strategy,
    tlbStrategy: Strategy,
    execFile: Option<seq<bv8>>,
    offsetVaddrToFile: int,
    readOnlyPageStart: int,
    readOnlyPageEnd: int,
    timeStamp: int)

  /** The state a handler leaves and what it returned (a frame) or where it stopped. */
  datatype Outcome = Outcome(state: MState, result: Result<int, Fault>)

  // ---------------------------------------------------------------- pages

  predicate PageIn(m: seq<bv8>, p: int)
  {
    0 <= p && (p + 1) * PageSize <= |m|
  }

  lemma PageInBounds(m: seq<bv8>, n: int, p: int)
    requires |m| == n * PageSize && 0 <= p < n
    ensures PageIn(m, p)
  {
  }

  /** The PageSize bytes of page `p` of `m`. */
  function ReadPage(m: seq<bv8>, p: int): (r: seq<bv8>)
    requires PageIn(m, p)
    ensures |r| == PageSize
  {
    m[p * PageSize .. (p + 1) * PageSize]
  }

  /** `m` with page `p` replaced by `data` (a byte-copy loop of the source). */
  function WritePage(m: seq<bv8>, p: int, data: seq<bv8>): (r: seq<bv8>)
    requires PageIn(m, p) && |data| == PageSize
    ensures |r| == |m|
  {
    m[..p * PageSize] + data + m[(p + 1) * PageSize..]
  }

  /** Writing one page leaves every other page as it was. */
  lemma ReadWritePage(m: seq<bv8>, p: int, q: int, data: seq<bv8>)
    requires PageIn(m, p) && PageIn(m, q) && |data| == PageSize
    ensures ReadPage(WritePage(m, p, data), q) == if p == q then data else ReadPage(m, q)
  {
    var w := WritePage(m, p, data);
    if p == q {
      assert w[p * PageSize .. (p + 1) * PageSize] == data;
    } else {
      forall k | 0 <= k < PageSize
        ensures ReadPage(w, q)[k] == ReadPage(m, q)[k]
      {
        var i := q * PageSize + k;
        assert ReadPage(w, q)[k] == w[i];
        if q < p {
          assert i < p * PageSize;
        } else {
          assert i >= (p + 1) * PageSize;
        }
      }
    }
  }

  /** OpenFile::ReadAt of one page at `position` into a frame that held
      `frame`: bytes inside the file are copied, bytes past its end are left. */
  function ReadAt(file: seq<bv8>, position: int, frame: seq<bv8>): (r: seq<bv8>)
    requires |frame| == PageSize
    ensures |r| == PageSize
  {
    seq(PageSize, k requires 0 <= k < PageSize =>
      if 0 <= position + k < |file| then file[position + k] else frame[k])
  }

  // ------------------------------------------------------- table scans

  predicate Eligible(e: TranslationEntry, onlyValid: bool)
  {
    e.valid || !onlyValid
  }

  /** The scan `for i: if (eligible && t[i].tValue < earliest) {earliest := ..; idx := i}`
      starting from (1 << 30, -1): the pair (earliest, idx) it ends with. */
  function Earliest(t: seq<TranslationEntry>, onlyValid: bool): (r: (int, int))
    ensures -1 <= r.1 < |t|
    ensures r.1 >= 0 ==> Eligible(t[r.1], onlyValid) && t[r.1].tValue == r.0
    ensures r.1 == -1 ==> r.0 == Infinity
  {
    if t == [] then (Infinity, -1)
    else
      var prefix := Earliest(t[..|t| - 1], onlyValid);
      var e := t[|t| - 1];
      if Eligible(e, onlyValid) && e.tValue < prefix.0 then (e.tValue, |t| - 1) else prefix
  }

  /** The page PageLoad evicts (lines 348-357), or -1. */
  function Victim(pt: seq<TranslationEntry>): (v: int)
    ensures -1 <= v < |pt| && (v >= 0 ==> pt[v].valid)
  {
    Earliest(pt, true).1
  }

  /** The TLB slot the replacement scan picks (lines 281-307): 0 when no
      entry is below 1 << 30. */
  function ReplacedSlot(t: seq<TranslationEntry>): (k: int)
    requires |t| > 0
    ensures 0 <= k < |t|
  {
    var k := Earliest(t, false).1;
    if k == -1 then 0 else k
  }

  /** The first valid entry at or after `i` that maps `vpn`, or -1. */
  function FirstMatchFrom(t: seq<TranslationEntry>, vpn: int, i: nat): (r: int)
    decreases |t| - i
    ensures r == -1 || (i <= r < |t| && t[r].valid && t[r].virtualPage == vpn)
  {
    if i >= |t| then -1
    else if t[i].valid && t[i].virtualPage == vpn then i
    else FirstMatchFrom(t, vpn, i + 1)
  }

  /** The TLB after the invalidation loop of lines 374-379. */
  function InvalidateFirst(t: seq<TranslationEntry>, vpn: int): (r: seq<TranslationEntry>)
    ensures |r| == |t|
  {
    var k := FirstMatchFrom(t, vpn, 0);
    if k == -1 then t else t[k := t[k].(valid := false)]
  }

  /** The first invalid entry at or after `i`, or -1. */
  function FirstInvalidFrom(t: seq<TranslationEntry>, i: nat): (r: int)
    decreases |t| - i
    ensures r == -1 || (i <= r < |t| && !t[r].valid)
  {
    if i >= |t| then -1
    else if !t[i].valid then i
    else FirstInvalidFrom(t, i + 1)
  }

  // ------------------------------------------------- state well-formedness

  /** The array sizes the Machine object is built with. */
  predicate Shaped(s: MState)
  {
    |s.mainMemory| == |s.memStatusMap| * PageSize &&
    |s.swapSpace| == |s.swapStatusMap| * PageSize &&
    |s.swapPageTable| == |s.pageTable| &&
    (s.tlb.Some? ==> |s.tlb.value| > 0)
  }

  predicate InRange(table: seq<TranslationEntry>, n: int)
  {
    forall v :: 0 <= v < |table| && table[v].valid ==> 0 <= table[v].physicalPage < n
  }

  /** Enough for every step to stay inside the arrays. */
  predicate WellFormed(s: MState)
  {
    Shaped(s) &&
    InRange(s.pageTable, |s.memStatusMap|) &&
    InRange(s.swapPageTable, |s.swapStatusMap|)
  }

  /** Every valid entry of `table` holds a set bit of `bits`, and no two valid
      entries hold the same one (frame ownership, swap-slot ownership). */
  predicate Owned(table: seq<TranslationEntry>, bits: seq<bool>)
  {
    (forall v :: 0 <= v < |table| && table[v].valid ==>
       0 <= table[v].physicalPage < |bits| && bits[table[v].physicalPage]) &&
    (forall v, w ::
       0 <= v < |table| && 0 <= w < |table| && v != w && table[v].valid && table[w].valid ==>
         table[v].physicalPage != table[w].physicalPage)
  }

  /** No page is valid both in the page table and in the swap table. */
  predicate Exclusive(pt: seq<TranslationEntry>, spt: seq<TranslationEntry>)
  {
    forall v :: 0 <= v < |pt| && v < |spt| ==> !(pt[v].valid && spt[v].valid)
  }

  /** Every valid TLB entry agrees with the page table, and no two valid TLB
      entries map the same page. */
  predicate TLBConsistent(t: seq<TranslationEntry>, pt: seq<TranslationEntry>)
  {
    (forall i :: 0 <= i < |t| && t[i].valid ==>
       0 <= t[i].virtualPage < |pt| && pt[t[i].virtualPage].valid &&
       pt[t[i].virtualPage].physicalPage == t[i].physicalPage) &&
    (forall i, j ::
       0 <= i < |t| && 0 <= j < |t| && i != j && t[i].valid && t[j].valid ==>
         t[i].virtualPage != t[j].virtualPage)
  }

  /** The consistency the pager keeps among its tables. */
  predicate Inv(s: MState)
  {
    WellFormed(s) &&
    Owned(s.pageTable, s.memStatusMap) &&
    Owned(s.swapPageTable, s.swapStatusMap) &&
    Exclusive(s.pageTable, s.swapPageTable) &&
    (s.tlb.Some? ==> TLBConsistent(s.tlb.value, s.pageTable))
  }

  /** Sizes and configuration that no handler changes. */
  predicate SameShape(s: MState, r: MState)
  {
    |r.mainMemory| == |s.mainMemory| && |r.memStatusMap| == |s.memStatusMap| &&
    |r.swapSpace| == |s.swapSpace| && |r.swapStatusMap| == |s.swapStatusMap| &&
    |r.pageTable| == |s.pageTable| && |r.swapPageTable| == |s.swapPageTable| &&
    r.tlb.Some? == s.tlb.Some? && (s.tlb.Some? ==> |r.tlb.value| == |s.tlb.value|) &&
    r.ptStrategy == s.ptStrategy && r.tlbStrategy == s.tlbStrategy &&
    r.execFile == s.execFile && r.offsetVaddrToFile == s.offsetVaddrToFile &&
    r.readOnlyPageStart == s.readOnlyPageStart && r.readOnlyPageEnd == s.readOnlyPageEnd &&
    r.timeStamp == s.timeStamp
  }

  // ----------------------------------------------------------- PageLoad

  /** Lines 359-380 once a victim and a swap slot are known: copy the victim
      frame to the slot, record the swap entry, invalidate the page-table
      entry and the first TLB entry that maps the victim. */
  function Evict(s: MState, victim: int, slot: int): (r: MState)
    requires WellFormed(s) && 0 <= victim < |s.pageTable| && s.pageTable[victim].valid
    requires 0 <= slot < |s.swapStatusMap|
    ensures WellFormed(r) && SameShape(s, r)
  {
    var e := s.pageTable[victim];
    PageInBounds(s.mainMemory, |s.memStatusMap|, e.physicalPage);
    PageInBounds(s.swapSpace, |s.swapStatusMap|, slot);
    s.(swapStatusMap := s.swapStatusMap[slot := true],
       swapSpace := WritePage(s.swapSpace, slot, ReadPage(s.mainMemory, e.physicalPage)),
       swapPageTable := s.swapPageTable[victim := TranslationEntry(
         victim, slot, true, e.readOnly, e.dirty, s.swapPageTable[victim].tValue)],
       pageTable := s.pageTable[victim := e.(valid := false)],
       tlb := if s.tlb.Some? then Some(InvalidateFirst(s.tlb.value, victim)) else None)
  }

  /** Lines 345-383: a free frame, or the frame of an evicted victim. */
  function AcquireFrame(s: MState): (r: Outcome)
    requires WellFormed(s)
    ensures WellFormed(r.state) && SameShape(s, r.state)
    ensures r.result.Ok? ==> 0 <= r.result.value < |s.memStatusMap|
    ensures r.result.Err? ==> r.result.error == NoVictim || r.result.error == SwapFull
  {
    var f := FirstClear(s.memStatusMap);
    if f != -1 then
      Outcome(s.(memStatusMap := s.memStatusMap[f := true]), Ok(f))
    else
      var victim := Victim(s.pageTable);
      if victim == -1 then Outcome(s, Err(NoVictim))
      else
        var slot := FirstClear(s.swapStatusMap);
        if slot == -1 then Outcome(s, Err(SwapFull))
        else Outcome(Evict(s, victim, slot), Ok(s.pageTable[victim].physicalPage))
  }

  /** Lines 408-419: record the mapping; under PT_FIFO stamp the load time. */
  function Record(s: MState, vpn: int, frame: int): (r: MState)
    requires 0 <= vpn < |s.pageTable|
  {
    var e := s.pageTable[vpn];
    s.(pageTable := s.pageTable[vpn := e.(
      virtualPage := vpn, physicalPage := frame, valid := true,
      tValue := if s.ptStrategy == FIFO then s.timeStamp else e.tValue)])
  }

  /** Lines 386-395: copy page `vpn` back from its swap slot into `frame`,
      carry its dirty and read-only bits over and free the slot. */
  function SwapIn(s: MState, vpn: int, frame: int): (r: MState)
    requires WellFormed(s) && 0 <= vpn < |s.pageTable| && 0 <= frame < |s.memStatusMap|
    requires s.swapPageTable[vpn].valid
    ensures WellFormed(r) && SameShape(s, r)
  {
    PageInBounds(s.mainMemory, |s.memStatusMap|, frame);
    var sw := s.swapPageTable[vpn];
    PageInBounds(s.swapSpace, |s.swapStatusMap|, sw.physicalPage);
    s.(mainMemory := WritePage(s.mainMemory, frame, ReadPage(s.swapSpace, sw.physicalPage)),
       pageTable := s.pageTable[vpn := s.pageTable[vpn].(dirty := sw.dirty, readOnly := sw.readOnly)],
       swapPageTable := s.swapPageTable[vpn := sw.(valid := false)],
       swapStatusMap := s.swapStatusMap[sw.physicalPage := false])
  }

  /** Lines 398-405: read page `vpn` of the executable into `frame`, clean,
      and read-only iff it lies in [readOnlyPageStart, readOnlyPageEnd). */
  function LoadFromExec(s: MState, vpn: int, frame: int): (r: MState)
    requires WellFormed(s) && 0 <= vpn < |s.pageTable| && 0 <= frame < |s.memStatusMap|
    requires s.execFile.Some?
    ensures WellFormed(r) && SameShape(s, r)
  {
    PageInBounds(s.mainMemory, |s.memStatusMap|, frame);
    var image := ReadAt(s.execFile.value, vpn * PageSize + s.offsetVaddrToFile,
                        ReadPage(s.mainMemory, frame));
    s.(mainMemory := WritePage(s.mainMemory, frame, image),
       pageTable := s.pageTable[vpn := s.pageTable[vpn].(
         dirty := false,
         readOnly := s.readOnlyPageStart <= vpn < s.readOnlyPageEnd)])
  }

  /** Lines 385-421: fill `frame` from swap or from the executable and map `vpn` to it. */
  function Fill(s: MState, vpn: int, frame: int): (r: Outcome)
    requires WellFormed(s) && 0 <= vpn < |s.pageTable| && 0 <= frame < |s.memStatusMap|
    ensures WellFormed(r.state) && SameShape(s, r.state)
    ensures r.result == Ok(frame) || r.result == Err(NoExecFile)
  {
    if s.swapPageTable[vpn].valid then Outcome(Record(SwapIn(s, vpn, frame), vpn, frame), Ok(frame))
    else if s.execFile.None? then Outcome(s, Err(NoExecFile))
    else Outcome(Record(LoadFromExec(s, vpn, frame), vpn, frame), Ok(frame))
  }

  /** Machine::PageLoad(vpn). */
  function PageLoad(s: MState, vpn: int): (r: Outcome)
    requires WellFormed(s) && 0 <= vpn < |s.pageTable|
    ensures WellFormed(r.state) && SameShape(s, r.state)
  {
    var a := AcquireFrame(s);
    if a.result.Err? then a else Fill(a.state, vpn, a.result.value)
  }

  // --------------------------------------------------- the fault handlers

  /** The page number the handlers derive from BadVAddrReg (lines 236-237, 338-339). */
  function VpnOf(badVAddr: int32): (vpn: nat)
  {
    Unsigned(badVAddr) / PageSize
  }

  /** Lines 279-332: no TLB slot is free; overwrite the one the strategy's
      scan picks, and write its old dirty bit into pageTable[slot]. */
  function Replace(s: MState, vpn: int, physPage: int): (r: Outcome)
    requires WellFormed(s) && s.tlb.Some?
    ensures WellFormed(r.state) && SameShape(s, r.state)
  {
    var t := s.tlb.value;
    if s.tlbStrategy == LFU then
      Outcome(s, Err(UnknownStrategy))
    else
      var k := ReplacedSlot(t);
      var prev := t[k];
      var stamped := if s.tlbStrategy == FIFO then prev.(tValue := s.timeStamp) else prev;
      var pt := if k < |s.pageTable| then s.pageTable[k := s.pageTable[k].(dirty := prev.dirty)]
                else s.pageTable;
      Outcome(s.(tlb := Some(t[k := stamped.(virtualPage := vpn, physicalPage := physPage, valid := true)]),
                 pageTable := pt), Ok(physPage))
  }

  /** Lines 263-333: put vpn -> physPage into the TLB. */
  function Install(s: MState, vpn: int, physPage: int): (r: Outcome)
    requires WellFormed(s) && s.tlb.Some? && 0 <= vpn < |s.pageTable|
    ensures WellFormed(r.state) && SameShape(s, r.state)
  {
    var t := s.tlb.value;
    var free := FirstInvalidFrom(t, 0);
    if free != -1 then
      var pe := s.pageTable[vpn];
      Outcome(s.(tlb := Some(t[free := t[free].(
        virtualPage := vpn, physicalPage := physPage, valid := true,
        dirty := pe.dirty, readOnly := pe.readOnly)])), Ok(physPage))
    else Replace(s, vpn, physPage)
  }

  /** Lines 239-247: the frame of `vpn`, loading the page if it is not valid. */
  function Resolve(s: MState, vpn: int): (r: Outcome)
    requires WellFormed(s) && 0 <= vpn < |s.pageTable|
    ensures WellFormed(r.state) && SameShape(s, r.state)
  {
    if s.pageTable[vpn].valid then Outcome(s, Ok(s.pageTable[vpn].physicalPage))
    else PageLoad(s, vpn)
  }

  /** Lines 249-261: under PT_LRU the page's tValue becomes the time of this miss. */
  function StampUse(s: MState, vpn: int): (r: MState)
    requires WellFormed(s) && 0 <= vpn < |s.pageTable|
    ensures WellFormed(r) && SameShape(s, r)
  {
    if s.ptStrategy == LRU
    then s.(pageTable := s.pageTable[vpn := s.pageTable[vpn].(tValue := s.timeStamp)])
    else s
  }

  /** Machine::TLBMissHandler for page `vpn`. */
  function TLBMiss(s: MState, vpn: int): (r: Outcome)
    requires WellFormed(s) && s.tlb.Some? && 0 <= vpn < |s.pageTable|
  {
    var a := Resolve(s, vpn);
    if a.result.Err? then a
    else Install(StampUse(a.state, vpn), vpn, a.result.value)
  }

  /** Machine::PageFaultHandler for page `vpn`. */
  function PageFault(s: MState, vpn: int): (r: Outcome)
    requires WellFormed(s) && 0 <= vpn < |s.pageTable|
  {
    PageLoad(s, vpn)
  }

  /** userprog/exception.cc:208-219: TLB miss handling iff a TLB exists. */
  function Dispatch(s: MState, badVAddr: int32): (r: Outcome)
    requires WellFormed(s) && VpnOf(badVAddr) < |s.pageTable|
  {
    if s.tlb.Some? then TLBMiss(s, VpnOf(badVAddr)) else PageFault(s, VpnOf(badVAddr))
  }
}
