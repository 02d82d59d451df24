/** What the pager steps of paging.dfy guarantee: the victim scan picks the
    earliest valid page, eviction and loading keep the tables consistent
    (Inv), no page's contents or dirty bit are lost, and a page evicted to
    swap comes back with the bytes and bits it left with. */
module PagingProps {
  import opened Common
  import opened BitMaps
  import opened Paging

  // ------------------------------------------------------------ the scans

  /** The scan ends with the smallest eligible tValue below 1 << 30 and the
      lowest index holding it (ties keep the first, the comparison is `<`),
      or with (1 << 30, -1) when no eligible value is below 1 << 30. */
  lemma {:induction false} EarliestIsMinimal(t: seq<TranslationEntry>, onlyValid: bool)
    ensures Earliest(t, onlyValid).0 <= Infinity
    ensures Earliest(t, onlyValid).1 >= 0 ==> Earliest(t, onlyValid).0 < Infinity
    ensures Earliest(t, onlyValid).1 == -1 <==>
              forall j :: 0 <= j < |t| && Eligible(t[j], onlyValid) ==> t[j].tValue >= Infinity
    ensures forall j :: 0 <= j < |t| && Eligible(t[j], onlyValid) ==>
              Earliest(t, onlyValid).0 <= t[j].tValue
    ensures forall j :: 0 <= j < Earliest(t, onlyValid).1 && Eligible(t[j], onlyValid) ==>
              Earliest(t, onlyValid).0 < t[j].tValue
  {
    if t != [] {
      var p := t[..|t| - 1];
      EarliestIsMinimal(p, onlyValid);
      assert forall j :: 0 <= j < |p| ==> p[j] == t[j];
    }
  }

  /** The eviction victim: -1 exactly when no valid page has tValue below
      1 << 30; otherwise a valid page with the smallest tValue, the lowest
      such page number on ties, and never an invalid page. */
  lemma VictimIsEarliestValid(pt: seq<TranslationEntry>)
    ensures Victim(pt) == -1 <==> forall j :: 0 <= j < |pt| && pt[j].valid ==> pt[j].tValue >= Infinity
    ensures Victim(pt) >= 0 ==>
              pt[Victim(pt)].valid && pt[Victim(pt)].tValue < Infinity &&
              (forall j :: 0 <= j < |pt| && pt[j].valid ==> pt[Victim(pt)].tValue <= pt[j].tValue) &&
              (forall j :: 0 <= j < Victim(pt) && pt[j].valid ==> pt[Victim(pt)].tValue < pt[j].tValue)
  {
    EarliestIsMinimal(pt, true);
  }

  lemma {:induction false} FirstMatchFromIsLowest(t: seq<TranslationEntry>, vpn: int, i: nat)
    requires i <= |t|
    ensures FirstMatchFrom(t, vpn, i) == -1 <==>
              forall j :: i <= j < |t| ==> !(t[j].valid && t[j].virtualPage == vpn)
    ensures forall j :: i <= j < FirstMatchFrom(t, vpn, i) ==> !(t[j].valid && t[j].virtualPage == vpn)
    decreases |t| - i
  {
    if i < |t| && !(t[i].valid && t[i].virtualPage == vpn) {
      FirstMatchFromIsLowest(t, vpn, i + 1);
    }
  }

  /** The invalidation loop clears the valid bit of the first valid entry
      mapping `vpn` and changes nothing else. */
  lemma InvalidateFirstChangesOne(t: seq<TranslationEntry>, vpn: int)
    ensures var k := FirstMatchFrom(t, vpn, 0);
      (k == -1 <==> forall j :: 0 <= j < |t| ==> !(t[j].valid && t[j].virtualPage == vpn)) &&
      (forall j :: 0 <= j < k ==> !(t[j].valid && t[j].virtualPage == vpn)) &&
      (forall j :: 0 <= j < |t| ==>
         InvalidateFirst(t, vpn)[j] == if j == k then t[j].(valid := false) else t[j])
  {
    FirstMatchFromIsLowest(t, vpn, 0);
  }

  /** When no two valid TLB entries map the same page, no valid entry maps
      `vpn` after the invalidation. */
  lemma InvalidateFirstRemovesPage(t: seq<TranslationEntry>, pt: seq<TranslationEntry>, vpn: int)
    requires TLBConsistent(t, pt)
    ensures forall j :: 0 <= j < |t| && InvalidateFirst(t, vpn)[j].valid ==>
              InvalidateFirst(t, vpn)[j] == t[j] && t[j].virtualPage != vpn
  {
    InvalidateFirstChangesOne(t, vpn);
  }

  lemma {:induction false} FirstInvalidFromIsLowest(t: seq<TranslationEntry>, i: nat)
    requires i <= |t|
    ensures FirstInvalidFrom(t, i) == -1 <==> forall j :: i <= j < |t| ==> t[j].valid
    ensures forall j :: i <= j < FirstInvalidFrom(t, i) ==> t[j].valid
    decreases |t| - i
  {
    if i < |t| && t[i].valid {
      FirstInvalidFromIsLowest(t, i + 1);
    }
  }
}

module PagingInvariants {
  import opened Common
  import opened BitMaps
  import opened Paging
  import opened PagingProps

  /** `frame` is marked used and no valid page maps it: PageLoad may hand it to a new page. */
  predicate FrameFree(s: MState, frame: int)
  {
    0 <= frame < |s.memStatusMap| && s.memStatusMap[frame] &&
    forall v :: 0 <= v < |s.pageTable| && s.pageTable[v].valid ==> s.pageTable[v].physicalPage != frame
  }

  /** What page `v` holds, wherever it lives: its frame, its swap slot, or
      nothing yet (still only in the executable). */
  function Contents(s: MState, v: int): Option<seq<bv8>>
    requires WellFormed(s) && 0 <= v < |s.pageTable|
  {
    if s.pageTable[v].valid then
      PageInBounds(s.mainMemory, |s.memStatusMap|, s.pageTable[v].physicalPage);
      Some(ReadPage(s.mainMemory, s.pageTable[v].physicalPage))
    else if s.swapPageTable[v].valid then
      PageInBounds(s.swapSpace, |s.swapStatusMap|, s.swapPageTable[v].physicalPage);
      Some(ReadPage(s.swapSpace, s.swapPageTable[v].physicalPage))
    else None
  }

  /** The dirty and read-only bits of page `v` where it lives (false when not loaded). */
  function Bits(s: MState, v: int): (bool, bool)
    requires |s.swapPageTable| == |s.pageTable| && 0 <= v < |s.pageTable|
  {
    if s.pageTable[v].valid then (s.pageTable[v].dirty, s.pageTable[v].readOnly)
    else if s.swapPageTable[v].valid then (s.swapPageTable[v].dirty, s.swapPageTable[v].readOnly)
    else (false, false)
  }

  /** A TLB miss on `vpn`: no valid TLB entry maps it. */
  predicate Missing(s: MState, vpn: int)
  {
    s.tlb.Some? ==> forall i :: 0 <= i < |s.tlb.value| && s.tlb.value[i].valid ==> s.tlb.value[i].virtualPage != vpn
  }

  // ------------------------------------------------------------- eviction

  /** Evicting a valid page into a clear swap slot keeps the tables
      consistent and frees the victim's frame for reuse. */
  lemma EvictKeepsInv(s: MState, victim: int, slot: int)
    requires Inv(s) && 0 <= victim < |s.pageTable| && s.pageTable[victim].valid
    requires 0 <= slot < |s.swapStatusMap| && !s.swapStatusMap[slot]
    ensures Inv(Evict(s, victim, slot))
    ensures FrameFree(Evict(s, victim, slot), s.pageTable[victim].physicalPage)
  {
    var r := Evict(s, victim, slot);
    if s.tlb.Some? {
      InvalidateFirstRemovesPage(s.tlb.value, s.pageTable, victim);
    }
    assert Owned(r.swapPageTable, r.swapStatusMap) by {
      forall v | 0 <= v < |r.swapPageTable| && v != victim && r.swapPageTable[v].valid
        ensures r.swapPageTable[v].physicalPage != slot
      {
        assert s.swapStatusMap[s.swapPageTable[v].physicalPage];
      }
    }
  }

  /** Eviction loses no page: the victim's bytes and bits move to its swap
      slot and every other page keeps its contents and bits. */
  lemma EvictKeepsContents(s: MState, victim: int, slot: int)
    requires Inv(s) && 0 <= victim < |s.pageTable| && s.pageTable[victim].valid
    requires 0 <= slot < |s.swapStatusMap| && !s.swapStatusMap[slot]
    ensures forall v :: 0 <= v < |s.pageTable| ==>
              Contents(Evict(s, victim, slot), v) == Contents(s, v) &&
              Bits(Evict(s, victim, slot), v) == Bits(s, v)
  {
    var r := Evict(s, victim, slot);
    var pp := s.pageTable[victim].physicalPage;
    PageInBounds(s.mainMemory, |s.memStatusMap|, pp);
    PageInBounds(s.swapSpace, |s.swapStatusMap|, slot);
    forall v | 0 <= v < |s.pageTable|
      ensures Contents(r, v) == Contents(s, v) && Bits(r, v) == Bits(s, v)
    {
      if v == victim {
        ReadWritePage(s.swapSpace, slot, slot, ReadPage(s.mainMemory, pp));
      } else if !s.pageTable[v].valid && s.swapPageTable[v].valid {
        var q := s.swapPageTable[v].physicalPage;
        assert s.swapStatusMap[q];
        PageInBounds(s.swapSpace, |s.swapStatusMap|, q);
        ReadWritePage(s.swapSpace, slot, q, ReadPage(s.mainMemory, pp));
      }
    }
  }

  /** AcquireFrame keeps the tables consistent; the frame it returns is free
      for the new page; when it stops at an ASSERT nothing has changed. */
  lemma AcquireFrameKeepsInv(s: MState)
    requires Inv(s)
    ensures Inv(AcquireFrame(s).state)
    ensures AcquireFrame(s).result.Ok? ==> FrameFree(AcquireFrame(s).state, AcquireFrame(s).result.value)
    ensures AcquireFrame(s).result.Err? ==> AcquireFrame(s).state == s
  {
    var f := FirstClear(s.memStatusMap);
    if f == -1 {
      var victim := Victim(s.pageTable);
      if victim != -1 {
        var slot := FirstClear(s.swapStatusMap);
        if slot != -1 {
          EvictKeepsInv(s, victim, slot);
        }
      }
    }
  }

  /** AcquireFrame loses no page. */
  lemma AcquireFrameKeepsContents(s: MState)
    requires Inv(s)
    ensures forall v :: 0 <= v < |s.pageTable| ==>
              Contents(AcquireFrame(s).state, v) == Contents(s, v) &&
              Bits(AcquireFrame(s).state, v) == Bits(s, v)
  {
    var f := FirstClear(s.memStatusMap);
    if f == -1 {
      var victim := Victim(s.pageTable);
      if victim != -1 {
        var slot := FirstClear(s.swapStatusMap);
        if slot != -1 {
          EvictKeepsContents(s, victim, slot);
        }
      }
    } else {
      var r := AcquireFrame(s).state;
      forall v | 0 <= v < |s.pageTable| ensures Contents(r, v) == Contents(s, v) { }
    }
  }

  // -------------------------------------------------------------- filling

  /** Filling a free frame for a non-resident page keeps the tables consistent. */
  lemma FillKeepsInv(s: MState, vpn: int, frame: int)
    requires Inv(s) && 0 <= vpn < |s.pageTable| && !s.pageTable[vpn].valid && FrameFree(s, frame)
    ensures Inv(Fill(s, vpn, frame).state)
  {
    if s.swapPageTable[vpn].valid {
      var l := SwapIn(s, vpn, frame);
      var sw := s.swapPageTable[vpn];
      assert Owned(l.swapPageTable, l.swapStatusMap) by {
        forall v | 0 <= v < |l.swapPageTable| && l.swapPageTable[v].valid
          ensures l.swapStatusMap[l.swapPageTable[v].physicalPage]
        {
          assert v != vpn;
          assert s.swapPageTable[v].physicalPage != sw.physicalPage;
        }
      }
      RecordKeepsInv(s, l, vpn, frame);
    } else if s.execFile.Some? {
      RecordKeepsInv(s, LoadFromExec(s, vpn, frame), vpn, frame);
    }
  }

  /** Mapping a non-resident page to a free frame keeps the tables
      consistent, given that loading left the swap tables consistent and
      changed neither the frames, the TLB nor the other pages' entries. */
  lemma RecordKeepsInv(s: MState, l: MState, vpn: int, frame: int)
    requires Inv(s) && 0 <= vpn < |s.pageTable| && !s.pageTable[vpn].valid && FrameFree(s, frame)
    requires WellFormed(l) && SameShape(s, l) && l.memStatusMap == s.memStatusMap && l.tlb == s.tlb
    requires |l.pageTable| == |s.pageTable| && !l.swapPageTable[vpn].valid
    requires forall v :: 0 <= v < |s.pageTable| && v != vpn ==>
               l.pageTable[v] == s.pageTable[v] && l.swapPageTable[v] == s.swapPageTable[v]
    requires Owned(l.swapPageTable, l.swapStatusMap)
    ensures Inv(Record(l, vpn, frame))
  {
    var r := Record(l, vpn, frame);
    assert forall v :: 0 <= v < |s.pageTable| && v != vpn ==> r.pageTable[v] == s.pageTable[v];
    assert Owned(r.pageTable, r.memStatusMap);
    assert Exclusive(r.pageTable, r.swapPageTable);
  }

  /** Filling `frame` for a non-resident `vpn` gives it its swapped-out
      bytes and bits, or else the executable's bytes with dirty = false and
      readOnly iff vpn lies in [readOnlyPageStart, readOnlyPageEnd). */
  lemma FillLoadsPage(s: MState, vpn: int, frame: int)
    requires WellFormed(s) && 0 <= vpn < |s.pageTable| && !s.pageTable[vpn].valid
    requires 0 <= frame < |s.memStatusMap| && Fill(s, vpn, frame).result.Ok?
    ensures PageIn(s.mainMemory, frame)
    ensures s.swapPageTable[vpn].valid ==>
              Contents(Fill(s, vpn, frame).state, vpn) == Contents(s, vpn) &&
              Bits(Fill(s, vpn, frame).state, vpn) == Bits(s, vpn)
    ensures !s.swapPageTable[vpn].valid ==>
              s.execFile.Some? &&
              Contents(Fill(s, vpn, frame).state, vpn) ==
                Some(ReadAt(s.execFile.value, vpn * PageSize + s.offsetVaddrToFile, ReadPage(s.mainMemory, frame))) &&
              Bits(Fill(s, vpn, frame).state, vpn) ==
                (false, s.readOnlyPageStart <= vpn < s.readOnlyPageEnd)
  {
    PageInBounds(s.mainMemory, |s.memStatusMap|, frame);
    var sw := s.swapPageTable[vpn];
    if sw.valid {
      PageInBounds(s.swapSpace, |s.swapStatusMap|, sw.physicalPage);
      ReadWritePage(s.mainMemory, frame, frame, ReadPage(s.swapSpace, sw.physicalPage));
    } else {
      ReadWritePage(s.mainMemory, frame, frame,
        ReadAt(s.execFile.value, vpn * PageSize + s.offsetVaddrToFile, ReadPage(s.mainMemory, frame)));
    }
  }

  /** Filling a free frame for `vpn` changes no other page's contents or bits. */
  lemma FillKeepsContents(s: MState, vpn: int, frame: int)
    requires Inv(s) && 0 <= vpn < |s.pageTable| && !s.pageTable[vpn].valid && FrameFree(s, frame)
    requires Fill(s, vpn, frame).result.Ok?
    ensures forall v :: 0 <= v < |s.pageTable| && v != vpn ==>
              Contents(Fill(s, vpn, frame).state, v) == Contents(s, v) &&
              Bits(Fill(s, vpn, frame).state, v) == Bits(s, v)
  {
    var r := Fill(s, vpn, frame).state;
    PageInBounds(s.mainMemory, |s.memStatusMap|, frame);
    var sw := s.swapPageTable[vpn];
    var data := if sw.valid then
                  PageInBounds(s.swapSpace, |s.swapStatusMap|, sw.physicalPage);
                  ReadPage(s.swapSpace, sw.physicalPage)
                else ReadAt(s.execFile.value, vpn * PageSize + s.offsetVaddrToFile, ReadPage(s.mainMemory, frame));
    assert r.mainMemory == WritePage(s.mainMemory, frame, data);
    forall v | 0 <= v < |s.pageTable| && v != vpn
      ensures Contents(r, v) == Contents(s, v) && Bits(r, v) == Bits(s, v)
    {
      if s.pageTable[v].valid {
        var q := s.pageTable[v].physicalPage;
        PageInBounds(s.mainMemory, |s.memStatusMap|, q);
        ReadWritePage(s.mainMemory, frame, q, data);
      }
    }
  }

  // ------------------------------------------------------------- PageLoad

  /** PageLoad on a non-resident page keeps the tables consistent, whether
      it succeeds or stops at an ASSERT. */
  lemma PageLoadKeepsInv(s: MState, vpn: int)
    requires Inv(s) && 0 <= vpn < |s.pageTable| && !s.pageTable[vpn].valid
    ensures Inv(PageLoad(s, vpn).state)
  {
    AcquireFrameKeepsInv(s);
    var a := AcquireFrame(s);
    if a.result.Ok? {
      assert !a.state.pageTable[vpn].valid;
      FillKeepsInv(a.state, vpn, a.result.value);
    }
  }

  /** After PageLoad succeeds, `vpn` is valid, maps itself to the returned
      frame, and has tValue = timeStamp under PT_FIFO (unchanged otherwise). */
  lemma PageLoadMapsPage(s: MState, vpn: int)
    requires WellFormed(s) && 0 <= vpn < |s.pageTable|
    requires PageLoad(s, vpn).result.Ok?
    ensures var e := PageLoad(s, vpn).state.pageTable[vpn];
      e.valid && e.virtualPage == vpn && e.physicalPage == PageLoad(s, vpn).result.value &&
      e.tValue == (if s.ptStrategy == FIFO then s.timeStamp else s.pageTable[vpn].tValue)
  {
    var a := AcquireFrame(s);
    assert a.state.pageTable[vpn].tValue == s.pageTable[vpn].tValue;
    var l := if a.state.swapPageTable[vpn].valid then SwapIn(a.state, vpn, a.result.value)
             else LoadFromExec(a.state, vpn, a.result.value);
    assert l.pageTable[vpn].tValue == s.pageTable[vpn].tValue;
  }

  /** PageLoad loses no page and loads the right bytes: every other page
      keeps its contents and bits; `vpn` gets its swapped-out contents and
      bits back, or, never having been swapped out, the executable's bytes at
      vpn * PageSize + offsetVaddrToFile with dirty = false and readOnly iff
      readOnlyPageStart <= vpn < readOnlyPageEnd. */
  lemma PageLoadKeepsContents(s: MState, vpn: int)
    requires Inv(s) && 0 <= vpn < |s.pageTable| && !s.pageTable[vpn].valid
    requires PageLoad(s, vpn).result.Ok?
    ensures forall v :: 0 <= v < |s.pageTable| && v != vpn ==>
              Contents(PageLoad(s, vpn).state, v) == Contents(s, v) &&
              Bits(PageLoad(s, vpn).state, v) == Bits(s, v)
    ensures s.swapPageTable[vpn].valid ==>
              Contents(PageLoad(s, vpn).state, vpn) == Contents(s, vpn) &&
              Bits(PageLoad(s, vpn).state, vpn) == Bits(s, vpn)
    ensures !s.swapPageTable[vpn].valid ==>
              s.execFile.Some? && PageIn(s.mainMemory, PageLoad(s, vpn).result.value) &&
              Contents(PageLoad(s, vpn).state, vpn) ==
                Some(ReadAt(s.execFile.value, vpn * PageSize + s.offsetVaddrToFile,
                            ReadPage(s.mainMemory, PageLoad(s, vpn).result.value))) &&
              Bits(PageLoad(s, vpn).state, vpn) == (false, s.readOnlyPageStart <= vpn < s.readOnlyPageEnd)
  {
    PageLoadKeepsOthers(s, vpn);
    PageLoadLoadsPage(s, vpn);
  }

  lemma PageLoadKeepsOthers(s: MState, vpn: int)
    requires Inv(s) && 0 <= vpn < |s.pageTable| && !s.pageTable[vpn].valid
    requires PageLoad(s, vpn).result.Ok?
    ensures forall v :: 0 <= v < |s.pageTable| && v != vpn ==>
              Contents(PageLoad(s, vpn).state, v) == Contents(s, v) &&
              Bits(PageLoad(s, vpn).state, v) == Bits(s, v)
  {
    AcquireFrameKeepsInv(s);
    AcquireFrameKeepsContents(s);
    var a := AcquireFrame(s);
    var r := Fill(a.state, vpn, a.result.value).state;
    FillKeepsContents(a.state, vpn, a.result.value);
    forall v | 0 <= v < |s.pageTable| && v != vpn
      ensures Contents(r, v) == Contents(s, v) && Bits(r, v) == Bits(s, v)
    {
      assert Contents(r, v) == Contents(a.state, v) && Bits(r, v) == Bits(a.state, v);
    }
  }

  lemma PageLoadLoadsPage(s: MState, vpn: int)
    requires Inv(s) && 0 <= vpn < |s.pageTable| && !s.pageTable[vpn].valid
    requires PageLoad(s, vpn).result.Ok?
    ensures s.swapPageTable[vpn].valid ==>
              Contents(PageLoad(s, vpn).state, vpn) == Contents(s, vpn) &&
              Bits(PageLoad(s, vpn).state, vpn) == Bits(s, vpn)
    ensures !s.swapPageTable[vpn].valid ==>
              s.execFile.Some? && PageIn(s.mainMemory, PageLoad(s, vpn).result.value) &&
              Contents(PageLoad(s, vpn).state, vpn) ==
                Some(ReadAt(s.execFile.value, vpn * PageSize + s.offsetVaddrToFile,
                            ReadPage(s.mainMemory, PageLoad(s, vpn).result.value))) &&
              Bits(PageLoad(s, vpn).state, vpn) == (false, s.readOnlyPageStart <= vpn < s.readOnlyPageEnd)
  {
    AcquireFrameKeepsContents(s);
    var a := AcquireFrame(s);
    assert a.state.mainMemory == s.mainMemory && a.state.swapPageTable[vpn] == s.swapPageTable[vpn];
    FillLoadsPage(a.state, vpn, a.result.value);
  }

  /** PageLoad evicts nothing when a frame is free: it takes the lowest free
      frame and leaves the swap space, the TLB and every other page's
      entries alone; it cannot fail for want of a victim or a swap slot. */
  lemma PageLoadWithFreeFrame(s: MState, vpn: int)
    requires WellFormed(s) && 0 <= vpn < |s.pageTable| && FirstClear(s.memStatusMap) != -1
    ensures var r := PageLoad(s, vpn);
      r.result != Err(NoVictim) && r.result != Err(SwapFull) &&
      (r.result.Ok? ==> r.result.value == FirstClear(s.memStatusMap)) &&
      r.state.memStatusMap == s.memStatusMap[FirstClear(s.memStatusMap) := true] &&
      r.state.swapSpace == s.swapSpace && r.state.tlb == s.tlb &&
      forall v :: 0 <= v < |s.pageTable| && v != vpn ==>
        r.state.pageTable[v] == s.pageTable[v] && r.state.swapPageTable[v] == s.swapPageTable[v]
  {
  }

  /** When every frame is used, PageLoad evicts the victim of the scan (never
      `vpn` itself) into the lowest clear swap slot: checks that fail leave
      the state unchanged; otherwise the victim's bytes are in the slot, its
      swap entry is {victim, slot, valid, its dirty, its readOnly}, its page
      entry is invalid, its frame is reused without touching memStatusMap,
      and only the first valid TLB entry for it is invalidated. */
  lemma PageLoadWhenMemoryFull(s: MState, vpn: int)
    requires Inv(s) && 0 <= vpn < |s.pageTable| && !s.pageTable[vpn].valid
    requires FirstClear(s.memStatusMap) == -1
    ensures Victim(s.pageTable) == -1 ==> PageLoad(s, vpn) == Outcome(s, Err(NoVictim))
    ensures Victim(s.pageTable) != -1 && FirstClear(s.swapStatusMap) == -1 ==>
              PageLoad(s, vpn) == Outcome(s, Err(SwapFull))
    ensures Victim(s.pageTable) != -1 && FirstClear(s.swapStatusMap) != -1 ==>
              var v := Victim(s.pageTable);
              var slot := FirstClear(s.swapStatusMap);
              var e := s.pageTable[v];
              var r := PageLoad(s, vpn);
              v != vpn && 0 <= e.physicalPage < |s.memStatusMap| &&
              (r.result == Ok(e.physicalPage) || r.result == Err(NoExecFile)) &&
              r.state.swapPageTable[v] ==
                TranslationEntry(v, slot, true, e.readOnly, e.dirty, s.swapPageTable[v].tValue) &&
              !r.state.pageTable[v].valid &&
              Contents(r.state, v) == Contents(s, v) &&
              r.state.memStatusMap == s.memStatusMap &&
              r.state.swapStatusMap[slot] &&
              (s.tlb.Some? ==> r.state.tlb == Some(InvalidateFirst(s.tlb.value, v)))
  {
    var v := Victim(s.pageTable);
    var slot := FirstClear(s.swapStatusMap);
    if v != -1 && slot != -1 {
      var a := AcquireFrame(s);
      EvictKeepsInv(s, v, slot);
      EvictKeepsContents(s, v, slot);
      if a.state.swapPageTable[vpn].valid {
        assert a.state.swapPageTable[vpn].physicalPage != slot;
      }
      var r := PageLoad(s, vpn);
      if r.result.Ok? {
        FillKeepsContents(a.state, vpn, a.result.value);
      }
    }
  }

  /** Swap round trip: a page evicted by one fault and faulted back in by the
      next comes back with exactly the bytes, dirty bit and read-only bit it
      had before eviction. */
  lemma SwapRoundTrip(s: MState, u: int, v: int)
    requires Inv(s) && 0 <= u < |s.pageTable| && 0 <= v < |s.pageTable|
    requires !s.pageTable[u].valid && s.pageTable[v].valid
    requires FirstClear(s.memStatusMap) == -1 && Victim(s.pageTable) == v
    requires PageLoad(s, u).result.Ok?
    ensures var s1 := PageLoad(s, u).state;
      !s1.pageTable[v].valid && s1.swapPageTable[v].valid &&
      (PageLoad(s1, v).result.Ok? ==>
         var s2 := PageLoad(s1, v).state;
         s2.pageTable[v].valid &&
         Contents(s2, v) == Some(ReadPage(s.mainMemory, s.pageTable[v].physicalPage)) &&
         (s2.pageTable[v].dirty, s2.pageTable[v].readOnly) == (s.pageTable[v].dirty, s.pageTable[v].readOnly))
  {
    var s1 := PageLoad(s, u).state;
    PageLoadWhenMemoryFull(s, u);
    PageLoadKeepsInv(s, u);
    PageLoadKeepsContents(s, u);
    assert Contents(s1, v) == Contents(s, v) && Bits(s1, v) == Bits(s, v);
    if PageLoad(s1, v).result.Ok? {
      PageLoadKeepsContents(s1, v);
      PageLoadMapsPage(s1, v);
    }
  }

  // ------------------------------------------------------------ TLB refill

  /** Where Install puts the mapping: into the lowest invalid TLB slot,
      copying dirty and read-only from the page table; when every slot is
      valid, into the slot with the smallest tValue (lowest index on ties,
      slot 0 when none is below 1 << 30), keeping the slot's dirty and
      read-only bits, restamping tValue only under TLB_FIFO, and writing the
      slot's old dirty bit into pageTable[slot], the page whose number
      equals the slot index. An unknown strategy stops with nothing changed. */
  lemma InstallPlacement(s: MState, vpn: int, physPage: int)
    requires WellFormed(s) && s.tlb.Some? && 0 <= vpn < |s.pageTable|
    ensures var t := s.tlb.value; var free := FirstInvalidFrom(t, 0); var pe := s.pageTable[vpn];
      free != -1 ==>
        (forall j :: 0 <= j < free ==> t[j].valid) &&
        Install(s, vpn, physPage) == Outcome(
          s.(tlb := Some(t[free := TranslationEntry(vpn, physPage, true, pe.readOnly, pe.dirty, t[free].tValue)])),
          Ok(physPage))
    ensures var t := s.tlb.value;
      FirstInvalidFrom(t, 0) == -1 && s.tlbStrategy == LFU ==>
        Install(s, vpn, physPage) == Outcome(s, Err(UnknownStrategy))
    ensures var t := s.tlb.value; var k := ReplacedSlot(t); var r := Install(s, vpn, physPage);
      FirstInvalidFrom(t, 0) == -1 && s.tlbStrategy != LFU ==>
        (forall j :: 0 <= j < |t| ==> t[j].valid) &&
        (forall j :: 0 <= j < |t| && t[j].tValue < Infinity ==> t[k].tValue <= t[j].tValue) &&
        (forall j :: 0 <= j < k ==> t[k].tValue < t[j].tValue) &&
        ((forall j :: 0 <= j < |t| ==> t[j].tValue >= Infinity) ==> k == 0) &&
        r.result == Ok(physPage) &&
        r.state.tlb == Some(t[k := TranslationEntry(vpn, physPage, true, t[k].readOnly, t[k].dirty,
                                      if s.tlbStrategy == FIFO then s.timeStamp else t[k].tValue)]) &&
        (k < |s.pageTable| ==> r.state.pageTable == s.pageTable[k := s.pageTable[k].(dirty := t[k].dirty)]) &&
        (k >= |s.pageTable| ==> r.state.pageTable == s.pageTable) &&
        r.state == s.(tlb := r.state.tlb, pageTable := r.state.pageTable)
  {
    var t := s.tlb.value;
    FirstInvalidFromIsLowest(t, 0);
    EarliestIsMinimal(t, false);
  }

  /** A page's frame and swap slot, and so its contents, do not depend on
      tValue or dirty: stamping the use time keeps Inv and Contents. */
  lemma StampUseKeeps(s: MState, vpn: int)
    requires Inv(s) && 0 <= vpn < |s.pageTable|
    ensures Inv(StampUse(s, vpn)) && SameShape(s, StampUse(s, vpn))
    ensures Missing(s, vpn) ==> Missing(StampUse(s, vpn), vpn)
    ensures forall v :: 0 <= v < |s.pageTable| ==>
              Contents(StampUse(s, vpn), v) == Contents(s, v) && Bits(StampUse(s, vpn), v) == Bits(s, v)
  {
    var r := StampUse(s, vpn);
    assert forall v :: 0 <= v < |s.pageTable| ==>
      r.pageTable[v] == s.pageTable[v].(tValue := r.pageTable[v].tValue);
  }

  /** PageLoad changes the TLB at most by invalidating entries, so a page
      missing from the TLB stays missing. */
  lemma PageLoadKeepsMissing(s: MState, vpn: int)
    requires Inv(s) && 0 <= vpn < |s.pageTable| && Missing(s, vpn)
    ensures Missing(PageLoad(s, vpn).state, vpn)
  {
    var a := AcquireFrame(s);
    if s.tlb.Some? && FirstClear(s.memStatusMap) == -1 && Victim(s.pageTable) != -1
       && FirstClear(s.swapStatusMap) != -1 {
      InvalidateFirstChangesOne(s.tlb.value, Victim(s.pageTable));
      assert a.state.tlb == Some(InvalidateFirst(s.tlb.value, Victim(s.pageTable)));
    }
  }

  /** Lines 239-247: a valid page is reused as it is; an invalid one is
      loaded. Either way the page ends up mapped to the returned frame, the
      tables stay consistent and the page stays missing from the TLB. */
  lemma ResolveMapsPage(s: MState, vpn: int)
    requires Inv(s) && 0 <= vpn < |s.pageTable| && Missing(s, vpn)
    ensures var a := Resolve(s, vpn);
      Inv(a.state) && Missing(a.state, vpn) &&
      (s.pageTable[vpn].valid ==> a == Outcome(s, Ok(s.pageTable[vpn].physicalPage))) &&
      (a.result.Ok? ==> a.state.pageTable[vpn].valid &&
                        a.state.pageTable[vpn].physicalPage == a.result.value) &&
      (a.result.Err? ==> a.result.error != UnknownStrategy)
  {
    if !s.pageTable[vpn].valid {
      PageLoadKeepsInv(s, vpn);
      PageLoadKeepsMissing(s, vpn);
      if PageLoad(s, vpn).result.Ok? {
        PageLoadMapsPage(s, vpn);
      }
    }
  }

  /** Installing a mapping that agrees with the page table, for a page the
      TLB does not hold, keeps the tables consistent. */
  lemma InstallKeepsInv(s: MState, vpn: int, physPage: int)
    requires Inv(s) && s.tlb.Some? && 0 <= vpn < |s.pageTable| && Missing(s, vpn)
    requires s.pageTable[vpn].valid && s.pageTable[vpn].physicalPage == physPage
    ensures Inv(Install(s, vpn, physPage).state)
  {
    InstallPlacement(s, vpn, physPage);
    var t := s.tlb.value;
    var r := Install(s, vpn, physPage).state;
    assert forall v :: 0 <= v < |s.pageTable| ==>
      r.pageTable[v].valid == s.pageTable[v].valid &&
      r.pageTable[v].physicalPage == s.pageTable[v].physicalPage;
    var k := if FirstInvalidFrom(t, 0) != -1 then FirstInvalidFrom(t, 0) else ReplacedSlot(t);
    if r.tlb != s.tlb {
      NewEntryKeepsConsistent(t, s.pageTable, r.pageTable, k, r.tlb.value[k]);
    }
  }

  /** Overwriting TLB slot `k` with a valid mapping that agrees with the page
      table, for a page no valid entry holds, keeps the TLB consistent, also
      against a page table whose valid bits and frames are the same. */
  lemma NewEntryKeepsConsistent(t: seq<TranslationEntry>, pt: seq<TranslationEntry>,
                                pt2: seq<TranslationEntry>, k: int, e: TranslationEntry)
    requires TLBConsistent(t, pt) && 0 <= k < |t| && |pt2| == |pt|
    requires forall v :: 0 <= v < |pt| ==>
               pt2[v].valid == pt[v].valid && pt2[v].physicalPage == pt[v].physicalPage
    requires e.valid && 0 <= e.virtualPage < |pt| && pt[e.virtualPage].valid &&
             pt[e.virtualPage].physicalPage == e.physicalPage
    requires forall i :: 0 <= i < |t| && t[i].valid ==> t[i].virtualPage != e.virtualPage
    ensures TLBConsistent(t[k := e], pt2)
  {
    var t2 := t[k := e];
    forall i, j | 0 <= i < |t2| && 0 <= j < |t2| && i != j && t2[i].valid && t2[j].valid
      ensures t2[i].virtualPage != t2[j].virtualPage
    {
      if i != k && j != k {
        assert t2[i] == t[i] && t2[j] == t[j];
      }
    }
  }

  /** TLBMissHandler keeps the tables consistent on a miss. */
  lemma TLBMissKeepsInv(s: MState, vpn: int)
    requires Inv(s) && s.tlb.Some? && 0 <= vpn < |s.pageTable| && Missing(s, vpn)
    ensures Inv(TLBMiss(s, vpn).state)
  {
    ResolveMapsPage(s, vpn);
    var a := Resolve(s, vpn);
    if a.result.Ok? {
      StampUseKeeps(a.state, vpn);
      InstallKeepsInv(StampUse(a.state, vpn), vpn, a.result.value);
    }
  }

  /** After a successful TLBMissHandler the page is valid in the page table
      and a valid TLB entry maps it to the returned frame, which is the
      page's old frame when it was already resident. */
  lemma TLBMissInstalls(s: MState, vpn: int)
    requires Inv(s) && s.tlb.Some? && 0 <= vpn < |s.pageTable| && Missing(s, vpn)
    requires TLBMiss(s, vpn).result.Ok?
    ensures var r := TLBMiss(s, vpn); var f := r.result.value;
      r.state.pageTable[vpn].valid && r.state.pageTable[vpn].physicalPage == f &&
      (s.pageTable[vpn].valid ==> f == s.pageTable[vpn].physicalPage) &&
      r.state.tlb.Some? &&
      exists i :: 0 <= i < |r.state.tlb.value| && r.state.tlb.value[i] ==
        r.state.tlb.value[i].(virtualPage := vpn, physicalPage := f, valid := true)
  {
    ResolveMapsPage(s, vpn);
    var a := Resolve(s, vpn);
    var s2 := StampUse(a.state, vpn);
    assert s2.pageTable[vpn].valid && s2.pageTable[vpn].physicalPage == a.result.value;
    InstallMaps(s2, vpn, a.result.value);
  }

  /** Install succeeds with `physPage` and leaves a valid TLB entry mapping
      `vpn` to it, changing only dirty bits in the page table. */
  lemma InstallMaps(s: MState, vpn: int, physPage: int)
    requires WellFormed(s) && s.tlb.Some? && 0 <= vpn < |s.pageTable|
    requires Install(s, vpn, physPage).result.Ok?
    ensures var r := Install(s, vpn, physPage);
      r.result.value == physPage && r.state.tlb.Some? &&
      (forall v :: 0 <= v < |s.pageTable| ==>
         r.state.pageTable[v] == s.pageTable[v].(dirty := r.state.pageTable[v].dirty)) &&
      exists i :: 0 <= i < |r.state.tlb.value| && r.state.tlb.value[i] ==
        r.state.tlb.value[i].(virtualPage := vpn, physicalPage := physPage, valid := true)
  {
    InstallPlacement(s, vpn, physPage);
    var t := s.tlb.value;
    var rt := Install(s, vpn, physPage).state.tlb.value;
    var i := if FirstInvalidFrom(t, 0) != -1 then FirstInvalidFrom(t, 0) else ReplacedSlot(t);
    assert rt[i] == rt[i].(virtualPage := vpn, physicalPage := physPage, valid := true);
  }

  /** Install moves no page's bytes and changes no frame, slot or
      read-only bit; the only dirty bit it changes is that of the page whose
      number equals the replaced TLB slot. */
  lemma InstallKeepsContents(s: MState, vpn: int, physPage: int)
    requires WellFormed(s) && s.tlb.Some? && 0 <= vpn < |s.pageTable|
    ensures var r := Install(s, vpn, physPage).state; var t := s.tlb.value;
      forall v :: 0 <= v < |s.pageTable| ==>
        Contents(r, v) == Contents(s, v) && Bits(r, v).1 == Bits(s, v).1 &&
        (Bits(r, v).0 == Bits(s, v).0 || (FirstInvalidFrom(t, 0) == -1 && ReplacedSlot(t) == v))
  {
    InstallPlacement(s, vpn, physPage);
    var r := Install(s, vpn, physPage).state;
    forall v | 0 <= v < |s.pageTable|
      ensures Contents(r, v) == Contents(s, v) && Bits(r, v).1 == Bits(s, v).1
    {
      assert r.pageTable[v] == s.pageTable[v].(dirty := r.pageTable[v].dirty);
    }
  }

  /** Resolving the frame of `vpn` leaves every other page where it was. */
  lemma ResolveKeepsContents(s: MState, vpn: int)
    requires Inv(s) && 0 <= vpn < |s.pageTable|
    ensures var r := Resolve(s, vpn).state;
      Inv(r) && (s.pageTable[vpn].valid ==> r == s) &&
      forall v :: 0 <= v < |s.pageTable| && v != vpn ==>
        Contents(r, v) == Contents(s, v) && Bits(r, v) == Bits(s, v)
  {
    if !s.pageTable[vpn].valid {
      PageLoadKeepsInv(s, vpn);
      if PageLoad(s, vpn).result.Ok? {
        PageLoadKeepsContents(s, vpn);
      } else {
        AcquireFrameKeepsContents(s);
        AcquireFrameKeepsInv(s);
      }
    }
  }

  /** TLBMissHandler moves no page's bytes and changes no other page's
      frame, slot or read-only bit. The only other bit it changes is the
      dirty bit of the page whose number equals the replaced TLB slot
      (lines 331-332, as written). */
  lemma TLBMissKeepsContents(s: MState, vpn: int)
    requires Inv(s) && s.tlb.Some? && 0 <= vpn < |s.pageTable|
    ensures var a := Resolve(s, vpn); var r := TLBMiss(s, vpn).state;
      (s.pageTable[vpn].valid ==> Contents(r, vpn) == Contents(s, vpn)) &&
      forall v :: 0 <= v < |s.pageTable| && v != vpn ==>
        Contents(r, v) == Contents(s, v) && Bits(r, v).1 == Bits(s, v).1 &&
        (Bits(r, v).0 == Bits(s, v).0 ||
         (a.result.Ok? && FirstInvalidFrom(a.state.tlb.value, 0) == -1 &&
          ReplacedSlot(a.state.tlb.value) == v))
  {
    ResolveKeepsContents(s, vpn);
    var a := Resolve(s, vpn);
    if a.result.Ok? {
      var s2 := StampUse(a.state, vpn);
      var r := Install(s2, vpn, a.result.value).state;
      assert r == TLBMiss(s, vpn).state;
      StampUseKeeps(a.state, vpn);
      InstallKeepsContents(s2, vpn, a.result.value);
      assert s2.tlb == a.state.tlb;
      forall v | 0 <= v < |s.pageTable| && v != vpn
        ensures Contents(r, v) == Contents(s, v) && Bits(r, v).1 == Bits(s, v).1 &&
          (Bits(r, v).0 == Bits(s, v).0 ||
           (FirstInvalidFrom(a.state.tlb.value, 0) == -1 && ReplacedSlot(a.state.tlb.value) == v))
      {
        assert Contents(s2, v) == Contents(a.state, v) && Bits(s2, v) == Bits(a.state, v);
      }
      if s.pageTable[vpn].valid {
        assert Contents(s2, vpn) == Contents(s, vpn);
      }
    }
  }

  // ----------------------------------------------------------- dispatch

  /** userprog/exception.cc:208-219 with the handlers: a fault on a page the
      TLB misses (or, without a TLB, on a page that is not resident) keeps
      the tables consistent and, when it succeeds, leaves the page resident
      at the returned frame and, with a TLB, a valid TLB entry mapping it. */
  lemma DispatchResolvesFault(s: MState, badVAddr: int32)
    requires Inv(s) && VpnOf(badVAddr) < |s.pageTable|
    requires s.tlb.Some? ==> Missing(s, VpnOf(badVAddr))
    requires s.tlb.None? ==> !s.pageTable[VpnOf(badVAddr)].valid
    ensures var r := Dispatch(s, badVAddr); var vpn := VpnOf(badVAddr);
      Inv(r.state) &&
      (r.result.Ok? ==>
         r.state.pageTable[vpn].valid && r.state.pageTable[vpn].physicalPage == r.result.value &&
         (r.state.tlb.Some? ==>
            exists i :: 0 <= i < |r.state.tlb.value| && r.state.tlb.value[i] ==
              r.state.tlb.value[i].(virtualPage := vpn, physicalPage := r.result.value, valid := true)))
  {
    var vpn := VpnOf(badVAddr);
    if s.tlb.Some? {
      TLBMissKeepsInv(s, vpn);
      if TLBMiss(s, vpn).result.Ok? {
        TLBMissInstalls(s, vpn);
      }
    } else {
      PageLoadKeepsInv(s, vpn);
      if PageLoad(s, vpn).result.Ok? {
        PageLoadMapsPage(s, vpn);
      }
    }
  }

  /** Lines 331-332 as written, on a concrete state: a one-entry TLB holds
      page 1 marked dirty; a miss on page 0 replaces that entry, and the
      dirty bit is written to page 0 (the slot number) while page 1's page
      table entry stays clean. */
  lemma ReplacedDirtyBitGoesToSlotNumber()
    ensures var e0 := TranslationEntry(0, 1, true, false, false, 0);
      var e1 := TranslationEntry(1, 0, true, false, false, 0);
      var off := TranslationEntry(0, 0, false, false, false, 0);
      var s := MState(seq(2 * PageSize, _ => 0), [true, true], [], [],
                      [e0, e1], [off, off], Some([TranslationEntry(1, 0, true, false, true, 5)]),
                      FIFO, LRU, None, 0, 0, 0, 7);
      var r := TLBMiss(s, 0);
      Inv(s) && Missing(s, 0) && r.result == Ok(1) &&
      r.state.tlb == Some([TranslationEntry(0, 1, true, false, true, 5)]) &&
      r.state.pageTable[0].dirty && !r.state.pageTable[1].dirty
  {
    var e0 := TranslationEntry(0, 1, true, false, false, 0);
    var e1 := TranslationEntry(1, 0, true, false, false, 0);
    var off := TranslationEntry(0, 0, false, false, false, 0);
    var t := [TranslationEntry(1, 0, true, false, true, 5)];
    var s := MState(seq(2 * PageSize, _ => 0), [true, true], [], [],
                    [e0, e1], [off, off], Some(t),
                    FIFO, LRU, None, 0, 0, 0, 7);
    assert FirstInvalidFrom(t, 1) == -1;
    assert Earliest(t[..0], false) == (Infinity, -1);
    assert Earliest(t, false) == (5, 0);
    var r := TLBMiss(s, 0);
    assert r.state.tlb.value[0] == TranslationEntry(0, 1, true, false, true, 5);
    assert r.state.tlb.value == [TranslationEntry(0, 1, true, false, true, 5)];
  }
}
