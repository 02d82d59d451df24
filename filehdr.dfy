/** The FileHeader class of filehdr.cc: the in-memory header of one file,
    whose methods update its fields, the free-sector bitmap and the disk in
    place. Each method is proved to leave exactly the state the value-level
    function of the same name in FileHeaderSpec describes, so the lemmas of
    FileHeaderProps apply to it. */
module FileHeaders {
  import opened Common
  import opened BitMaps
  import opened Disk
  import opened FileHeaderSpec
  import FileHeaderProps

  class FileHeader {
    var numBytes: int
    var numSectors: int
    /** Data sectors of the first NumPrimarySector virtual sectors. */
    const primarySectors: array<int>
    /** Index sectors, each holding NumDirectPerSector data sector numbers. */
    const secondarySectors: array<int>

    ghost predicate Valid()
      reads this
    {
      primarySectors.Length == NumPrimarySector &&
      secondarySectors.Length == NumSecondarySector &&
      primarySectors != secondarySectors
    }

    /** The header's fields as a value. */
    ghost function Value(): (h: Header)
      reads this, primarySectors, secondarySectors
      ensures Valid() ==> Shaped(h)
    {
      Header(numBytes, numSectors, primarySectors[..], secondarySectors[..])
    }

    /** A header with every field zero. */
    constructor ()
      ensures Valid() && fresh(primarySectors) && fresh(secondarySectors)
      ensures Value() == Header(0, 0, seq(NumPrimarySector, _ => 0), seq(NumSecondarySector, _ => 0))
    {
      numBytes := 0;
      numSectors := 0;
      primarySectors := new int[NumPrimarySector](_ => 0);
      secondarySectors := new int[NumSecondarySector](_ => 0);
    }

    /** FileHeader::Allocate: size the header for `fileSize` bytes and, if the
        bitmap has room for the data sectors and their index sectors, take
        them and write the index sectors to disk. */
    method Allocate(freeMap: BitMap, disk: SynchDisk, fileSize: int) returns (ok: bool)
      requires Valid() && AllocateFits(freeMap.bits, fileSize)
      modifies this, primarySectors, secondarySectors, freeMap, disk
      ensures Valid()
      ensures FileOp(ok, Value(), freeMap.bits, disk.sectors) ==
              FileHeaderSpec.Allocate(old(Value()), old(freeMap.bits), old(disk.sectors), fileSize)
    {
      ghost var h0 := Value();
      ghost var b0 := freeMap.bits;
      numBytes := fileSize;
      numSectors := DivRoundUp(fileSize, SectorSize);
      ghost var n := numSectors;
      ghost var found := FindN(b0, Needed(n)).0;
      if numSectors <= NumPrimarySector {
        if freeMap.NumClear() < numSectors {
          return false;
        }
        var count := if numSectors < 0 then 0 else numSectors;
        assert count == Needed(n);
        FindInto(freeMap, primarySectors, count, count);
        assert IndexSectors(n) == 0 && disk.sectors == WriteIndexBlocks(old(disk.sectors), found, n, 0);
        AllocateOutcome(h0, b0, old(disk.sectors), fileSize, n, found, primarySectors[..],
                        secondarySectors[..], freeMap.bits, disk.sectors);
      } else {
        var restNumSectors := numSectors - NumPrimarySector;
        var numSecondaryIndex := DivRoundUp(restNumSectors, NumDirectPerSector);
        if freeMap.NumClear() < numSectors + numSecondaryIndex {
          return false;
        }
        FindInto(freeMap, primarySectors, NumPrimarySector, Needed(n));
        AllocateIndexSectors(freeMap, disk, b0, n, found);
        AllocateOutcome(h0, b0, old(disk.sectors), fileSize, n, found, primarySectors[..],
                        secondarySectors[..], freeMap.bits, disk.sectors);
      }
      ok := true;
    }

    /** FileHeader::Deallocate: clear the bit of every sector the header
        accounts for, checking first (as the source's ASSERTs do) that each
        is still marked in use; false when a check fails, which stops it. */
    method Deallocate(freeMap: BitMap, disk: SynchDisk) returns (ok: bool)
      requires Valid() && numSectors <= MaxDataSectors
      modifies freeMap
      ensures Freed(ok, freeMap.bits) == FileHeaderSpec.Deallocate(Value(), old(freeMap.bits), disk.sectors)
    {
      if numSectors <= NumPrimarySector {
        var count := if numSectors < 0 then 0 else numSectors;
        ok := ClearSectors(freeMap, primarySectors[..count]);
      } else {
        ok := ClearSectors(freeMap, primarySectors[..]);
        if !ok {
          return;
        }
        ok := DeallocateIndexSectors(freeMap, disk);
      }
    }

    /** Deallocate's loop over the index sectors. */
    method DeallocateIndexSectors(freeMap: BitMap, disk: SynchDisk) returns (ok: bool)
      requires Valid() && NumPrimarySector < numSectors <= MaxDataSectors
      modifies freeMap
      ensures Freed(ok, freeMap.bits) ==
              ClearIndexFrom(Value(), old(freeMap.bits), disk.sectors, 0, numSectors - NumPrimarySector)
    {
      var restNumSectors := numSectors - NumPrimarySector;
      var numSecondaryIndex := DivRoundUp(restNumSectors, NumDirectPerSector);
      assert numSecondaryIndex == IndexSectors(numSectors);
      ghost var goal := ClearIndexFrom(Value(), freeMap.bits, disk.sectors, 0, restNumSectors);
      var i := 0;
      while i < numSecondaryIndex
        invariant 0 <= i <= numSecondaryIndex && 0 <= restNumSectors
        invariant ClearIndexFrom(Value(), freeMap.bits, disk.sectors, i, restNumSectors) == goal
      {
        ok, restNumSectors := DeallocateIndexSector(freeMap, disk, i, restNumSectors);
        if !ok {
          return;
        }
        i := i + 1;
      }
      ok := true;
    }

    /** One pass of Deallocate's loop, for index sector `i`: check it, check
        and clear the data sectors it lists, then clear the index sector;
        returns the data sectors still to clear. */
    method DeallocateIndexSector(freeMap: BitMap, disk: SynchDisk, i: int, restNumSectors: int)
      returns (ok: bool, rest: int)
      requires Valid() && NumPrimarySector < numSectors <= MaxDataSectors
      requires 0 <= i < IndexSectors(numSectors) && 0 <= restNumSectors
      modifies freeMap
      ensures rest == restNumSectors - Filled(restNumSectors) && 0 <= rest
      ensures var goal := ClearIndexFrom(Value(), old(freeMap.bits), disk.sectors, i, restNumSectors);
              if ok then goal == ClearIndexFrom(Value(), freeMap.bits, disk.sectors, i + 1, rest)
              else goal == Freed(false, freeMap.bits)
    {
      rest := restNumSectors - Filled(restNumSectors);
      var sector := secondarySectors[i];
      if !(0 <= sector < |freeMap.bits|) || !freeMap.Test(sector) {
        return false, rest;
      }
      var writtenSector := disk.ReadSector(sector);
      ok := ClearEntries(freeMap, writtenSector, restNumSectors);
      if !ok {
        return;
      }
      freeMap.Clear(sector);
    }

    /** Deallocate's loops over the direct sectors: check and clear each. */
    static method ClearSectors(freeMap: BitMap, sectors: seq<int>) returns (ok: bool)
      modifies freeMap
      ensures Freed(ok, freeMap.bits) == ClearFrom(old(freeMap.bits), sectors, 0)
    {
      ghost var goal := ClearFrom(freeMap.bits, sectors, 0);
      var i := 0;
      while i < |sectors|
        invariant 0 <= i <= |sectors|
        invariant ClearFrom(freeMap.bits, sectors, i) == goal
      {
        ok := ClearOne(freeMap, sectors[i]);
        if !ok {
          return;
        }
        i := i + 1;
      }
      ok := true;
    }

    /** Deallocate's inner loop: check and clear the sectors listed in
        successive entries of an index sector while entries and data sectors
        are left. */
    static method ClearEntries(freeMap: BitMap, writtenSector: seq<int>, restNumSectors: int)
      returns (ok: bool)
      requires |writtenSector| == NumDirectPerSector && 0 <= restNumSectors
      modifies freeMap
      ensures Freed(ok, freeMap.bits) == ClearFrom(old(freeMap.bits), writtenSector[..Filled(restNumSectors)], 0)
    {
      ghost var sectors := writtenSector[..Filled(restNumSectors)];
      ghost var goal := ClearFrom(freeMap.bits, sectors, 0);
      var rest := restNumSectors;
      var j := 0;
      while j < NumDirectPerSector && rest > 0
        invariant 0 <= j <= Filled(restNumSectors) && rest == restNumSectors - j
        invariant ClearFrom(freeMap.bits, sectors, j) == goal
      {
        ok := ClearOne(freeMap, writtenSector[j]);
        if !ok {
          return;
        }
        j := j + 1;
        rest := rest - 1;
      }
      ok := true;
    }

    /** One check and clear of a Deallocate loop: false, with nothing
        changed, when `sector` is out of range or not in use. */
    static method ClearOne(freeMap: BitMap, sector: int) returns (ok: bool)
      modifies freeMap
      ensures ok == InUse(old(freeMap.bits), sector)
      ensures freeMap.bits == if ok then old(freeMap.bits)[sector := false] else old(freeMap.bits)
    {
      if !(0 <= sector < |freeMap.bits|) || !freeMap.Test(sector) {
        return false;
      }
      freeMap.Clear(sector);
      ok := true;
    }

    /** FileHeader::ExtentAllocate: grow the file by `fileSize` bytes,
        taking a data sector (and, at the start of each index sector, an
        index sector) for every virtual sector past the old end that the
        new length needs. */
    method ExtentAllocate(freeMap: BitMap, disk: SynchDisk, fileSize: int) returns (ok: bool)
      requires Valid() && ExtentFits(Value(), fileSize)
      modifies this, primarySectors, secondarySectors, freeMap, disk
      ensures Valid()
      ensures FileOp(ok, Value(), freeMap.bits, disk.sectors) ==
              FileHeaderSpec.ExtentAllocate(old(Value()), old(freeMap.bits), old(disk.sectors), fileSize)
    {
      var extBytes := fileSize - (SectorSize - CMod(numBytes, SectorSize));
      numBytes := numBytes + fileSize;
      if extBytes <= 0 {
        return true;
      }
      var extNumSectors := DivRoundUp(extBytes, SectorSize);
      var newNumSectors := extNumSectors + numSectors;
      ok := ExtendSectors(freeMap, disk, newNumSectors);
    }

    /** ExtentAllocate's loop over the virtual sectors from `numSectors` up
        to `newNumSectors`, which becomes the new `numSectors` once every
        pass has found its sectors. */
    method ExtendSectors(freeMap: BitMap, disk: SynchDisk, newNumSectors: int) returns (ok: bool)
      requires Valid() && 0 <= numSectors && newNumSectors <= MaxDataSectors
      modifies this, primarySectors, secondarySectors, freeMap, disk
      ensures Valid()
      ensures FileOp(ok, Value(), freeMap.bits, disk.sectors) ==
              ExtendFrom(old(Value()), old(freeMap.bits), old(disk.sectors), old(numSectors), newNumSectors)
    {
      var vSector := numSectors;
      ghost var goal := ExtendFrom(Value(), freeMap.bits, disk.sectors, vSector, newNumSectors);
      while vSector < newNumSectors
        invariant 0 <= vSector
        invariant numSectors == old(numSectors) && numBytes == old(numBytes)
        invariant ExtendFrom(Value(), freeMap.bits, disk.sectors, vSector, newNumSectors) == goal
      {
        ghost var h, b, d := Value(), freeMap.bits, disk.sectors;
        var stepOk := ExtendSector(freeMap, disk, vSector);
        ExtendFromStep(h, b, d, vSector, newNumSectors, FileOp(stepOk, Value(), freeMap.bits, disk.sectors));
        if !stepOk {
          return false;
        }
        vSector := vSector + 1;
      }
      ghost var h := Value();
      numSectors := newNumSectors;
      assert Value() == h.(numSectors := newNumSectors);
      ok := true;
    }

    /** One pass of ExtentAllocate's loop, for virtual sector `vSector`;
        false when a Find came back empty. The new index sector's buffer is
        not initialised by the source and is modelled as zeros. */
    method ExtendSector(freeMap: BitMap, disk: SynchDisk, vSector: int) returns (ok: bool)
      requires Valid() && 0 <= vSector < MaxDataSectors
      modifies primarySectors, secondarySectors, freeMap, disk
      ensures FileOp(ok, Value(), freeMap.bits, disk.sectors) ==
              FileHeaderSpec.ExtendSector(old(Value()), old(freeMap.bits), old(disk.sectors), vSector)
    {
      ghost var h, b, d := Value(), freeMap.bits, disk.sectors;
      if vSector < NumPrimarySector {
        var newSector := freeMap.Find();
        if newSector == -1 {
          return false;
        }
        primarySectors[vSector] := newSector;
        assert primarySectors[..] == h.primary[vSector := newSector];
        return true;
      }
      var restNumSectors := vSector - NumPrimarySector;
      var numSecondaryIndex := restNumSectors / NumDirectPerSector;
      var writtenSector := new int[NumDirectPerSector](_ => 0);
      if restNumSectors % NumDirectPerSector == 0 {
        assert writtenSector[..] == seq(NumDirectPerSector, _ => 0);
        var newSector := freeMap.Find();
        if newSector == -1 {
          return false;
        }
        if restNumSectors < NumSecondarySector {
          secondarySectors[restNumSectors] := newSector;
          assert Value() == h.(secondary := h.secondary[restNumSectors := newSector]);
        } else {
          assert Value() == h;
        }
        ExtendSectorStarting(h, b, d, vSector, newSector, Value());
      } else {
        var data := disk.ReadSector(secondarySectors[numSecondaryIndex]);
        forall k | 0 <= k < NumDirectPerSector {
          writtenSector[k] := data[k];
        }
        assert writtenSector[..] == data;
        ExtendSectorReading(h, b, d, vSector);
      }
      ok := AddEntry(freeMap, disk, vSector, writtenSector);
    }

    /** The end of a pass for a virtual sector past the direct ones: take a
        data sector, enter it in `writtenSector` and write that to the index
        sector the header names. */
    method AddEntry(freeMap: BitMap, disk: SynchDisk, vSector: int, writtenSector: array<int>)
      returns (ok: bool)
      requires Valid() && NumPrimarySector <= vSector < MaxDataSectors
      requires writtenSector.Length == NumDirectPerSector
      requires writtenSector != primarySectors && writtenSector != secondarySectors
      modifies freeMap, disk, writtenSector
      ensures FileOp(ok, Value(), freeMap.bits, disk.sectors) ==
              FileHeaderSpec.AddEntry(Value(), old(freeMap.bits), old(disk.sectors), vSector, old(writtenSector[..]))
    {
      var restNumSectors := vSector - NumPrimarySector;
      var numSecondaryIndex := restNumSectors / NumDirectPerSector;
      var newSector := freeMap.Find();
      if newSector == -1 {
        return false;
      }
      writtenSector[restNumSectors - NumDirectPerSector * numSecondaryIndex] := newSector;
      disk.WriteSector(secondarySectors[numSecondaryIndex], writtenSector[..]);
      ok := true;
    }

    /** FileHeader::ByteToSector: the disk sector holding byte `offset` of
        the file, read through an index sector past the direct ones. */
    function ByteToSector(disk: SynchDisk, offset: int): (sector: int)
      requires Valid() && 0 <= CDiv(offset, SectorSize) < MaxDataSectors
      reads this, primarySectors, secondarySectors, disk
      ensures sector == Lookup(Value(), disk.sectors, CDiv(offset, SectorSize))
    {
      var vSector := CDiv(offset, SectorSize);
      if vSector < NumPrimarySector then primarySectors[vSector]
      else
        var restNumSectors := vSector - NumPrimarySector;
        var numSecondaryIndex := restNumSectors / NumDirectPerSector;
        var writtenSector := SectorContents(disk.sectors, secondarySectors[numSecondaryIndex]);
        writtenSector[restNumSectors - NumDirectPerSector * numSecondaryIndex]
    }

    /** FileHeader::FileLength. */
    function FileLength(): (length: int)
      reads this, primarySectors, secondarySectors
      ensures length == Value().numBytes
    {
      numBytes
    }

    /** The `k`th of the `count` Finds that start from `b`. */
    static method FindNext(freeMap: BitMap, ghost b: seq<bool>, ghost k: nat, ghost count: nat) returns (sector: int)
      requires k < count && freeMap.bits == FindN(b, k).1
      modifies freeMap
      ensures sector == FindN(b, count).0[k] && freeMap.bits == FindN(b, k + 1).1
    {
      FindNNext(b, k, count);
      sector := freeMap.Find();
    }

    /** Allocate's first loop: `count` calls of Find, stored in
        `a[from..from + count]`. */
    static method FindInto(freeMap: BitMap, a: array<int>, count: int, ghost m: int)
      requires 0 <= count <= a.Length && count <= m
      modifies freeMap, a
      ensures freeMap.bits == FindN(old(freeMap.bits), count).1
      ensures forall k :: 0 <= k < a.Length ==>
                a[k] == if k < count then FindN(old(freeMap.bits), m).0[k] else old(a[k])
    {
      ghost var b := freeMap.bits;
      ghost var found := FindN(b, m).0;
      var i := 0;
      while i < count
        invariant 0 <= i <= count
        invariant freeMap.bits == FindN(b, i).1
        invariant forall k :: 0 <= k < a.Length ==> a[k] == if k < i then found[k] else old(a[k])
      {
        var sector := FindNext(freeMap, b, i, m);
        a[i] := sector;
        i := i + 1;
      }
    }

    /** Allocate's second loop: for each index sector, take it, take the data
        sectors it lists, and write it to disk. Entries past the file's end
        are written as zero. */
    method AllocateIndexSectors(freeMap: BitMap, disk: SynchDisk, ghost b0: seq<bool>, ghost n: int,
                                ghost found: seq<int>)
      requires Valid() && n == numSectors && NumPrimarySector < n <= MaxDataSectors
      requires Needed(n) <= CountClear(b0) && found == FindN(b0, Needed(n)).0
      requires freeMap.bits == FindN(b0, NumPrimarySector).1
      modifies secondarySectors, freeMap, disk
      ensures freeMap.bits == FindN(b0, Needed(n)).1
      ensures forall i :: 0 <= i < NumSecondarySector ==>
                secondarySectors[i] == if i < IndexSectors(n) then found[IndexPos(i)] else old(secondarySectors[i])
      ensures disk.sectors == WriteIndexBlocks(old(disk.sectors), found, n, IndexSectors(n))
    {
      ghost var d0 := disk.sectors;
      var restNumSectors := numSectors - NumPrimarySector;
      var numSecondaryIndex := DivRoundUp(restNumSectors, NumDirectPerSector);
      assert numSecondaryIndex == IndexSectors(n);
      var i := 0;
      ghost var pos := IndexPos(0);
      while i < numSecondaryIndex
        invariant 0 <= i <= numSecondaryIndex
        invariant restNumSectors == if i < numSecondaryIndex then n - NumPrimarySector - NumDirectPerSector * i else 0
        invariant 0 <= restNumSectors <= n - NumPrimarySector
        invariant pos == if i < numSecondaryIndex then IndexPos(i) else Needed(n)
        invariant freeMap.bits == FindN(b0, pos).1
        invariant forall k :: 0 <= k < NumSecondarySector ==>
                    secondarySectors[k] == if k < i then found[IndexPos(k)] else old(secondarySectors[k])
        invariant disk.sectors == WriteIndexBlocks(d0, found, n, i)
      {
        ghost var next := if i + 1 < numSecondaryIndex then IndexPos(i + 1) else Needed(n);
        restNumSectors := AllocateIndexSector(freeMap, disk, b0, n, numSecondaryIndex, found, i, restNumSectors, next);
        assert disk.sectors == WriteIndexBlocks(d0, found, n, i + 1);
        i := i + 1;
        pos := next;
      }
    }

    /** One pass of Allocate's second loop, for index sector `i`; returns the
        data sectors still to place. */
    method AllocateIndexSector(freeMap: BitMap, disk: SynchDisk, ghost b0: seq<bool>, ghost n: int, ghost k: int,
                               ghost found: seq<int>, i: int, restNumSectors: int, ghost next: int)
      returns (rest: int)
      requires Valid() && n == numSectors && NumPrimarySector < n <= MaxDataSectors
      requires Needed(n) <= CountClear(b0) && found == FindN(b0, Needed(n)).0
      requires k == IndexSectors(n) && 0 <= i < k
      requires next == if i + 1 < k then IndexPos(i + 1) else Needed(n)
      requires restNumSectors == n - NumPrimarySector - NumDirectPerSector * i
      requires freeMap.bits == FindN(b0, IndexPos(i)).1
      modifies secondarySectors, freeMap, disk
      ensures rest == if i + 1 < k then restNumSectors - NumDirectPerSector else 0
      ensures freeMap.bits == FindN(b0, next).1
      ensures secondarySectors[..] == old(secondarySectors[..])[i := found[IndexPos(i)]]
      ensures disk.sectors == old(disk.sectors)[found[IndexPos(i)] := IndexBlock(found, n, i)]
    {
      FileHeaderProps.IndexBlockEnd(n, i);
      var sector := FindNext(freeMap, b0, IndexPos(i), Needed(n));
      secondarySectors[i] := sector;
      var writtenSector := new int[NumDirectPerSector](_ => 0);
      ghost var after := freeMap.bits;
      rest := FillEntries(freeMap, writtenSector, restNumSectors);
      IndexBlockFilled(b0, n, i, after, freeMap.bits, writtenSector[..]);
      disk.WriteSector(secondarySectors[i], writtenSector[..]);
    }

    /** Allocate's innermost loop: Find into successive entries of
        `writtenSector` while entries and data sectors are left; returns the
        data sectors still to place. */
    static method FillEntries(freeMap: BitMap, writtenSector: array<int>, restNumSectors: int)
      returns (rest: int)
      requires writtenSector.Length == NumDirectPerSector && 0 <= restNumSectors
      modifies freeMap, writtenSector
      ensures rest == restNumSectors - Filled(restNumSectors)
      ensures freeMap.bits == FindN(old(freeMap.bits), Filled(restNumSectors)).1
      ensures forall k :: 0 <= k < NumDirectPerSector ==>
                writtenSector[k] == if k < Filled(restNumSectors) then FindN(old(freeMap.bits), Filled(restNumSectors)).0[k]
                                    else old(writtenSector[k])
    {
      ghost var b := freeMap.bits;
      ghost var count := Filled(restNumSectors);
      rest := restNumSectors;
      var j := 0;
      while j < NumDirectPerSector && rest > 0
        invariant 0 <= j <= count && rest == restNumSectors - j
        invariant freeMap.bits == FindN(b, j).1
        invariant forall k :: 0 <= k < NumDirectPerSector ==>
                    writtenSector[k] == if k < j then FindN(b, count).0[k] else old(writtenSector[k])
      {
        var sector := FindNext(freeMap, b, j, count);
        writtenSector[j] := sector;
        j := j + 1;
        rest := rest - 1;
      }
    }
  }

  /** A pass that starts an index sector, once its Find has succeeded. */
  lemma ExtendSectorStarting(h: Header, bits: seq<bool>, disk: map<int, seq<int>>, v: int, sector: int, h1: Header)
    requires Shaped(h) && NumPrimarySector <= v < MaxDataSectors && StartsIndexSector(v)
    requires Take(bits).0 == sector != -1
    requires h1 == if v - NumPrimarySector < NumSecondarySector
                   then h.(secondary := h.secondary[v - NumPrimarySector := sector]) else h
    ensures FileHeaderSpec.ExtendSector(h, bits, disk, v) ==
            FileHeaderSpec.AddEntry(h1, Take(bits).1, disk, v, seq(NumDirectPerSector, _ => 0))
  {
  }

  /** A pass inside an index sector already started. */
  lemma ExtendSectorReading(h: Header, bits: seq<bool>, disk: map<int, seq<int>>, v: int)
    requires Shaped(h) && NumPrimarySector <= v < MaxDataSectors && !StartsIndexSector(v)
    ensures FileHeaderSpec.ExtendSector(h, bits, disk, v) ==
            FileHeaderSpec.AddEntry(h, bits, disk, v,
                                    SectorContents(disk, h.secondary[(v - NumPrimarySector) / NumDirectPerSector]))
  {
  }

  /** ExtentAllocate's loop, one pass unrolled. */
  lemma ExtendFromStep(h: Header, bits: seq<bool>, disk: map<int, seq<int>>, v: int, newNumSectors: int,
                       step: FileOp)
    requires Shaped(h) && 0 <= v < newNumSectors <= MaxDataSectors
    requires step == FileHeaderSpec.ExtendSector(h, bits, disk, v)
    ensures !step.ok ==> ExtendFrom(h, bits, disk, v, newNumSectors) == step
    ensures step.ok ==>
              ExtendFrom(h, bits, disk, v, newNumSectors) ==
              ExtendFrom(step.header, step.freeMap, step.disk, v + 1, newNumSectors)
  {
  }

  /** The state Allocate's loops leave is the one FileHeaderSpec.Allocate
      describes. */
  lemma AllocateOutcome(h0: Header, b0: seq<bool>, d0: map<int, seq<int>>, fileSize: int, n: int,
                        found: seq<int>, primary: seq<int>, secondary: seq<int>, bits: seq<bool>,
                        disk: map<int, seq<int>>)
    requires Shaped(h0) && AllocateFits(b0, fileSize)
    requires n == DivRoundUp(fileSize, SectorSize) && Needed(n) <= CountClear(b0)
    requires found == FindN(b0, Needed(n)).0 && bits == FindN(b0, Needed(n)).1
    requires |primary| == NumPrimarySector && |secondary| == NumSecondarySector
    requires forall k :: 0 <= k < NumPrimarySector ==> primary[k] == if k < n then found[k] else h0.primary[k]
    requires forall i :: 0 <= i < NumSecondarySector ==>
               secondary[i] == if i < IndexSectors(n) then found[IndexPos(i)] else h0.secondary[i]
    requires disk == WriteIndexBlocks(d0, found, n, IndexSectors(n))
    ensures FileOp(true, Header(fileSize, n, primary, secondary), bits, disk)
            == FileHeaderSpec.Allocate(h0, b0, d0, fileSize)
  {
    assert primary == seq(NumPrimarySector, k requires 0 <= k < NumPrimarySector =>
                        if k < n then found[k] else h0.primary[k]);
    assert secondary == seq(NumSecondarySector, i requires 0 <= i < NumSecondarySector =>
                          if i < IndexSectors(n) then found[IndexPos(i)] else h0.secondary[i]);
  }

  /** What one pass of Allocate's second loop leaves, given that its inner
      loop made EntriesIn(n, i) calls of Find from the bitmap `after` left by
      the call for index sector `i`. */
  lemma IndexBlockFilled(b0: seq<bool>, n: int, i: int, after: seq<bool>, bits: seq<bool>, w: seq<int>)
    requires NumPrimarySector < n && 0 <= i < IndexSectors(n)
    requires after == FindN(b0, IndexPos(i) + 1).1
    requires bits == FindN(after, EntriesIn(n, i)).1
    requires |w| == NumDirectPerSector
    requires forall k :: 0 <= k < NumDirectPerSector ==>
               w[k] == if k < EntriesIn(n, i) then FindN(after, EntriesIn(n, i)).0[k] else 0
    ensures w == IndexBlock(FindN(b0, Needed(n)).0, n, i)
    ensures bits == FindN(b0, if i + 1 < IndexSectors(n) then IndexPos(i + 1) else Needed(n)).1
  {
    FileHeaderProps.IndexBlockEnd(n, i);
    var p := IndexPos(i) + 1;
    var e := EntriesIn(n, i);
    SliceBits(b0, p, e, Needed(n), if i + 1 < IndexSectors(n) then IndexPos(i + 1) else Needed(n));
    SliceEntries(b0, p, e, Needed(n));
    IndexBlockEntries(b0, n, i, FindN(after, e).0, w);
  }

  lemma SliceBits(b: seq<bool>, p: nat, e: nat, m: nat, q: nat)
    requires p + e <= m && q == p + e
    ensures FindN(FindN(b, p).1, e).1 == FindN(b, q).1
  {
    FindNConcat(b, p, e);
  }

  lemma SliceEntries(b: seq<bool>, p: nat, e: nat, m: nat)
    requires p + e <= m
    ensures forall k :: 0 <= k < e ==> FindN(FindN(b, p).1, e).0[k] == FindN(b, m).0[p + k]
  {
    FindNConcat(b, p, e);
    FindNPrefix(b, p + e, m);
    AppendedPart(FindN(b, p).0, FindN(FindN(b, p).1, e).0, FindN(b, m).0);
  }

  lemma IndexBlockEntries(b0: seq<bool>, n: int, i: int, g: seq<int>, w: seq<int>)
    requires NumPrimarySector < n && 0 <= i < IndexSectors(n)
    requires IndexPos(i) + 1 + EntriesIn(n, i) <= Needed(n) && 0 <= EntriesIn(n, i) <= |g|
    requires forall k :: 0 <= k < EntriesIn(n, i) ==> g[k] == FindN(b0, Needed(n)).0[IndexPos(i) + 1 + k]
    requires |w| == NumDirectPerSector
    requires forall k :: 0 <= k < NumDirectPerSector ==> w[k] == if k < EntriesIn(n, i) then g[k] else 0
    ensures w == IndexBlock(FindN(b0, Needed(n)).0, n, i)
  {
    assert forall k :: 0 <= k < NumDirectPerSector ==> w[k] == IndexBlock(FindN(b0, Needed(n)).0, n, i)[k];
  }
}
