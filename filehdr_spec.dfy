/** The two-level sector index of a Nachos file header, as values: the
    layout constants of filehdr.h, where each virtual sector of a file is
    recorded, and what Allocate, Deallocate and ExtentAllocate do to the
    header, the free-sector bitmap and the disk. The FileHeader class in
    filehdr.dfy is proved to follow these functions. */
module FileHeaderSpec {
  import opened Common
  import opened BitMaps
  import opened Disk

  /** Bytes of each of the three time strings kept in a header. */
  const TimeInfoSize: int := 26
  /** Sector numbers that fit in the header next to its other fields. */
  const NumDirect: int := 10
  /** Data sectors named directly by the header. */
  const NumPrimarySector: int := 5
  /** Index sectors named by the header. */
  const NumSecondarySector: int := 5
  /** Sector numbers held by one index sector. */
  const NumDirectPerSector: int := 32
  const MaxFileSize: int := 1280
  /** The most data sectors the two levels can name. */
  const MaxDataSectors: int := 165

  /** Bytes a header takes on disk: two counts, three time strings and the
      two sector tables. */
  function HeaderBytes(): int {
    2 * IntSize + 3 * TimeInfoSize + (NumPrimarySector + NumSecondarySector) * IntSize
  }

  /** The constants are the values filehdr.h computes from the sector size
      and sizeof(int); the header fits in one sector. */
  lemma LayoutConstants()
    ensures NumDirect == (SectorSize - 2 * IntSize - 3 * TimeInfoSize) / IntSize
    ensures NumSecondarySector == NumDirect - NumPrimarySector
    ensures NumDirectPerSector == SectorSize / IntSize == IntsPerSector
    ensures MaxFileSize == NumDirect * SectorSize
    ensures MaxDataSectors == NumPrimarySector + NumSecondarySector * NumDirectPerSector
    ensures HeaderBytes() <= SectorSize
  {
  }

  /** The fields of a header the core reads and writes (the time strings are
      not modelled). */
  datatype Header = Header(numBytes: int, numSectors: int, primary: seq<int>, secondary: seq<int>)

  predicate Shaped(h: Header) {
    |h.primary| == NumPrimarySector && |h.secondary| == NumSecondarySector
  }

  /** What an operation leaves behind: its boolean result, the header, the
      free-sector bitmap and the disk's sectors. */
  datatype FileOp = FileOp(ok: bool, header: Header, freeMap: seq<bool>, disk: map<int, seq<int>>)

  /** Index sectors a file of `numSectors` data sectors uses. */
  function IndexSectors(numSectors: int): (k: int)
    ensures numSectors <= NumPrimarySector ==> k == 0
    ensures numSectors > NumPrimarySector ==>
              0 < k && (k - 1) * NumDirectPerSector < numSectors - NumPrimarySector <= k * NumDirectPerSector
    ensures numSectors <= MaxDataSectors ==> k <= NumSecondarySector
  {
    if numSectors <= NumPrimarySector then 0
    else DivRoundUp(numSectors - NumPrimarySector, NumDirectPerSector)
  }

  /** Sectors a file of `numSectors` data sectors takes in all: its data
      sectors and its index sectors. */
  function Needed(numSectors: int): nat {
    if numSectors <= 0 then 0 else numSectors + IndexSectors(numSectors)
  }

  /** Entries of index sector `i` that a file of `numSectors` sectors uses. */
  function EntriesIn(numSectors: int, i: int): int {
    var left := numSectors - NumPrimarySector - NumDirectPerSector * i;
    if left < NumDirectPerSector then left else NumDirectPerSector
  }

  /** Where virtual sector `v` is recorded: a direct entry of the header, or
      an entry of one of its index sectors. */
  datatype Slot = Direct(index: int) | Indirect(block: int, entry: int)

  function SlotOf(v: int): (s: Slot)
    requires 0 <= v
    ensures v < NumPrimarySector <==> s.Direct?
    ensures s.Direct? ==> s.index == v
    ensures s.Indirect? ==>
              v == NumPrimarySector + NumDirectPerSector * s.block + s.entry &&
              0 <= s.block && 0 <= s.entry < NumDirectPerSector
  {
    if v < NumPrimarySector then Direct(v)
    else Indirect((v - NumPrimarySector) / NumDirectPerSector,
                  (v - NumPrimarySector) % NumDirectPerSector)
  }

  /** The disk sector holding virtual sector `v` of the file. */
  function Lookup(h: Header, disk: map<int, seq<int>>, v: int): int
    requires Shaped(h) && 0 <= v < MaxDataSectors
  {
    match SlotOf(v)
    case Direct(i) => h.primary[i]
    case Indirect(b, e) => SectorContents(disk, h.secondary[b])[e]
  }

  /** The data sectors of the file, in file order. */
  function DataSectors(h: Header, disk: map<int, seq<int>>): (r: seq<int>)
    requires Shaped(h) && h.numSectors <= MaxDataSectors
    ensures |r| == if h.numSectors < 0 then 0 else h.numSectors
  {
    var n := if h.numSectors < 0 then 0 else h.numSectors;
    seq(n, v requires 0 <= v < n => Lookup(h, disk, v))
  }

  /** The index sectors of the file. */
  function IndexList(h: Header): (r: seq<int>)
    requires Shaped(h) && h.numSectors <= MaxDataSectors
    ensures |r| == IndexSectors(h.numSectors)
  {
    h.secondary[..IndexSectors(h.numSectors)]
  }

  /** Every sector the header accounts for: the ones Deallocate frees. */
  function Recorded(h: Header, disk: map<int, seq<int>>): (r: seq<int>)
    requires Shaped(h) && h.numSectors <= MaxDataSectors
    ensures |r| == Needed(h.numSectors)
  {
    DataSectors(h, disk) + IndexList(h)
  }

  // Allocate

  /** The position among Allocate's calls of Find of the call that yields
      index sector `i`: five direct sectors, then each index sector followed
      by the data sectors it lists. */
  function IndexPos(i: int): int {
    NumPrimarySector + (NumDirectPerSector + 1) * i
  }

  /** The position of the call of Find that yields virtual sector `v`. */
  function AllocPos(v: int): int
    requires 0 <= v
  {
    match SlotOf(v)
    case Direct(i) => i
    case Indirect(b, e) => IndexPos(b) + 1 + e
  }

  /** The contents Allocate writes to index sector `i`, given the results of
      its calls of Find; entries past the file's end are left at zero. */
  function IndexBlock(found: seq<int>, numSectors: int, i: int): (b: seq<int>)
    requires 0 <= i < IndexSectors(numSectors) && |found| == Needed(numSectors)
    ensures |b| == IntsPerSector
  {
    seq(NumDirectPerSector, j requires 0 <= j < NumDirectPerSector =>
      if j < EntriesIn(numSectors, i) then found[IndexPos(i) + 1 + j] else 0)
  }

  /** The disk after Allocate has written its first `k` index sectors. */
  function WriteIndexBlocks(disk: map<int, seq<int>>, found: seq<int>, numSectors: int, k: int)
    : map<int, seq<int>>
    requires 0 <= k <= IndexSectors(numSectors) && |found| == Needed(numSectors)
    decreases k
  {
    if k == 0 then disk
    else WriteIndexBlocks(disk, found, numSectors, k - 1)
           [found[IndexPos(k - 1)] := IndexBlock(found, numSectors, k - 1)]
  }

  /** Allocate writes past the header's table of index sectors unless the
      file needs at most MaxDataSectors data sectors, or the free-space check
      fails first. */
  predicate AllocateFits(bits: seq<bool>, fileSize: int) {
    var n := DivRoundUp(fileSize, SectorSize);
    n <= MaxDataSectors || CountClear(bits) < Needed(n)
  }

  /** FileHeader::Allocate on values. */
  function Allocate(h: Header, bits: seq<bool>, disk: map<int, seq<int>>, fileSize: int): (r: FileOp)
    requires Shaped(h) && AllocateFits(bits, fileSize)
    ensures Shaped(r.header)
  {
    var n := DivRoundUp(fileSize, SectorSize);
    var sized := h.(numBytes := fileSize, numSectors := n);
    if CountClear(bits) < Needed(n) then FileOp(false, sized, bits, disk)
    else
      var found := FindN(bits, Needed(n)).0;
      var primary := seq(NumPrimarySector, k requires 0 <= k < NumPrimarySector =>
                       if k < n then found[k] else h.primary[k]);
      var secondary := seq(NumSecondarySector, i requires 0 <= i < NumSecondarySector =>
                         if i < IndexSectors(n) then found[IndexPos(i)] else h.secondary[i]);
      FileOp(true, sized.(primary := primary, secondary := secondary),
             FindN(bits, Needed(n)).1,
             WriteIndexBlocks(disk, found, n, IndexSectors(n)))
  }

  // Deallocate

  /** Every sector the header accounts for is in the bitmap and still in
      use, and none is accounted for twice: the state Allocate leaves, in
      which all of Deallocate's ASSERTs pass. */
  predicate DeallocateChecks(h: Header, bits: seq<bool>, disk: map<int, seq<int>>)
    requires Shaped(h) && h.numSectors <= MaxDataSectors
  {
    var rec := Recorded(h, disk);
    Distinct(rec) && forall x :: x in rec ==> 0 <= x < |bits| && bits[x]
  }

  /** What Deallocate leaves: false when one of its ASSERTs failed, and the
      bitmap as it stood then. */
  datatype Freed = Freed(ok: bool, freeMap: seq<bool>)

  /** BitMap::Test, whose index must be in range, ASSERTed true. */
  predicate InUse(bits: seq<bool>, x: int) {
    0 <= x < |bits| && bits[x]
  }

  /** Deallocate's loops over a list of sectors, from entry `i` on: check
      that each is in use, then clear it. */
  function ClearFrom(bits: seq<bool>, sectors: seq<int>, i: nat): (r: Freed)
    ensures |r.freeMap| == |bits|
    decreases |sectors| - i
  {
    if i >= |sectors| then Freed(true, bits)
    else if !InUse(bits, sectors[i]) then Freed(false, bits)
    else ClearFrom(bits[sectors[i] := false], sectors, i + 1)
  }

  /** The entries of an index sector that Allocate fills, and Deallocate
      reads, while `rest` data sectors are left. */
  function Filled(rest: int): int {
    if rest < NumDirectPerSector then rest else NumDirectPerSector
  }

  /** One pass of Deallocate's loop over the index sectors, for index
      sector `i` with `rest` data sectors left: check the index sector,
      check and clear the entries it lists, then clear the index sector. */
  function IndexPass(h: Header, bits: seq<bool>, disk: map<int, seq<int>>, i: int, rest: int): (r: Freed)
    requires Shaped(h) && 0 <= i < NumSecondarySector && 0 <= rest
    ensures |r.freeMap| == |bits|
  {
    var s := h.secondary[i];
    if !InUse(bits, s) then Freed(false, bits)
    else
      var r := ClearFrom(bits, SectorContents(disk, s)[..Filled(rest)], 0);
      if !r.ok then r else Freed(true, r.freeMap[s := false])
  }

  /** Deallocate's loop over the index sectors, from index sector `i` on. */
  function ClearIndexFrom(h: Header, bits: seq<bool>, disk: map<int, seq<int>>, i: nat, rest: int): (r: Freed)
    requires Shaped(h) && h.numSectors <= MaxDataSectors && 0 <= rest
    ensures |r.freeMap| == |bits|
    decreases IndexSectors(h.numSectors) - i
  {
    if i >= IndexSectors(h.numSectors) then Freed(true, bits)
    else
      var r := IndexPass(h, bits, disk, i, rest);
      if !r.ok then r
      else ClearIndexFrom(h, r.freeMap, disk, i + 1, rest - Filled(rest))
  }

  /** FileHeader::Deallocate on values: the direct sectors, then the index
      sectors with the data sectors they list, each checked and cleared in
      the order of the source; a failed check stops it. */
  function Deallocate(h: Header, bits: seq<bool>, disk: map<int, seq<int>>): (r: Freed)
    requires Shaped(h) && h.numSectors <= MaxDataSectors
    ensures |r.freeMap| == |bits|
  {
    if h.numSectors <= NumPrimarySector then
      ClearFrom(bits, h.primary[..if h.numSectors < 0 then 0 else h.numSectors], 0)
    else
      var r := ClearFrom(bits, h.primary, 0);
      if !r.ok then r
      else ClearIndexFrom(h, r.freeMap, disk, 0, h.numSectors - NumPrimarySector)
  }

  // ExtentAllocate

  /** ExtentAllocate's loop indexes the header's tables from `numSectors`
      on: it stays inside them only when the count is not negative and the
      grown file has at most MaxDataSectors data sectors. When the growth
      fits in the slack no table is touched, whatever the count. */
  predicate ExtentFits(h: Header, fileSize: int) {
    var extBytes := fileSize - (SectorSize - CMod(h.numBytes, SectorSize));
    extBytes <= 0 || (0 <= h.numSectors && h.numSectors + DivRoundUp(extBytes, SectorSize) <= MaxDataSectors)
  }

  /** Virtual sector `v` starts a new index sector. */
  predicate StartsIndexSector(v: int) {
    v >= NumPrimarySector && (v - NumPrimarySector) % NumDirectPerSector == 0
  }

  /** One pass of ExtentAllocate's loop, for virtual sector `v`; `ok` is
      false when a Find came back empty and the loop returns FALSE. A new
      index sector is stored at `secondary[v - 5]`, which lies inside the
      table only for the first index sector; past it the write leaves the
      header alone. Its buffer is not read from disk and is modelled as
      zeros. */
  function ExtendSector(h: Header, bits: seq<bool>, disk: map<int, seq<int>>, v: int): (r: FileOp)
    requires Shaped(h) && 0 <= v < MaxDataSectors
    ensures Shaped(r.header) && |r.freeMap| == |bits|
    ensures r.header.numBytes == h.numBytes && r.header.numSectors == h.numSectors
  {
    if v < NumPrimarySector then
      var t := Take(bits);
      if t.0 == -1 then FileOp(false, h, bits, disk)
      else FileOp(true, h.(primary := h.primary[v := t.0]), t.1, disk)
    else if StartsIndexSector(v) then
      var t := Take(bits);
      var rest := v - NumPrimarySector;
      if t.0 == -1 then FileOp(false, h, bits, disk)
      else if rest < NumSecondarySector then
        AddEntry(h.(secondary := h.secondary[rest := t.0]), t.1, disk, v, seq(NumDirectPerSector, _ => 0))
      else AddEntry(h, t.1, disk, v, seq(NumDirectPerSector, _ => 0))
    else
      AddEntry(h, bits, disk, v,
               SectorContents(disk, h.secondary[(v - NumPrimarySector) / NumDirectPerSector]))
  }

  /** The second half of a pass for a virtual sector past the direct ones:
      take a data sector, enter it in `buffer`, and write the buffer to the
      index sector the header names. */
  function AddEntry(h: Header, bits: seq<bool>, disk: map<int, seq<int>>, v: int, buffer: seq<int>)
    : (r: FileOp)
    requires Shaped(h) && NumPrimarySector <= v < MaxDataSectors && |buffer| == NumDirectPerSector
    ensures r.header == h && |r.freeMap| == |bits|
  {
    var rest := v - NumPrimarySector;
    var idx := rest / NumDirectPerSector;
    var t := Take(bits);
    if t.0 == -1 then FileOp(false, h, bits, disk)
    else FileOp(true, h, t.1, disk[h.secondary[idx] := buffer[rest - NumDirectPerSector * idx := t.0]])
  }

  /** ExtentAllocate's loop from virtual sector `v` up to `newNumSectors`. */
  function ExtendFrom(h: Header, bits: seq<bool>, disk: map<int, seq<int>>, v: int, newNumSectors: int)
    : (r: FileOp)
    requires Shaped(h) && 0 <= v && newNumSectors <= MaxDataSectors
    ensures Shaped(r.header) && |r.freeMap| == |bits|
    decreases newNumSectors - v
  {
    if v >= newNumSectors then FileOp(true, h.(numSectors := newNumSectors), bits, disk)
    else
      var step := ExtendSector(h, bits, disk, v);
      if !step.ok then step
      else ExtendFrom(step.header, step.freeMap, step.disk, v + 1, newNumSectors)
  }

  /** FileHeader::ExtentAllocate on values, as written: the bytes assumed
      free in the last sector are `SectorSize - numBytes % SectorSize`, a
      whole sector when the length is a multiple of SectorSize. */
  function ExtentAllocate(h: Header, bits: seq<bool>, disk: map<int, seq<int>>, fileSize: int)
    : (r: FileOp)
    requires Shaped(h) && ExtentFits(h, fileSize)
    ensures Shaped(r.header) && |r.freeMap| == |bits|
  {
    var extBytes := fileSize - (SectorSize - CMod(h.numBytes, SectorSize));
    var grown := h.(numBytes := h.numBytes + fileSize);
    if extBytes <= 0 then FileOp(true, grown, bits, disk)
    else ExtendFrom(grown, bits, disk, h.numSectors, h.numSectors + DivRoundUp(extBytes, SectorSize))
  }
}
