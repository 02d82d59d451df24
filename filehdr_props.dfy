/** What Allocate, Deallocate and ExtentAllocate promise about the sectors
    of a file: Allocate takes exactly the data and index sectors the file
    needs from the free ones, records each once, and Deallocate gives back
    exactly those; ExtentAllocate's sector accounting, and the two places
    where it does not do what its comments intend. */
module FileHeaderProps {
  import opened Common
  import opened BitMaps
  import opened Disk
  import opened FileHeaderSpec

  // Positions in Allocate's sequence of calls of Find

  /** Where in Allocate's calls of Find virtual sector `v` comes from. */
  lemma AllocPosInRange(n: int, v: int)
    requires 0 <= v < n <= MaxDataSectors
    ensures 0 <= AllocPos(v) < Needed(n)
    ensures v >= NumPrimarySector ==>
              SlotOf(v).block < IndexSectors(n) && SlotOf(v).entry < EntriesIn(n, SlotOf(v).block)
  {
  }

  /** Different virtual sectors and index sectors come from different calls. */
  lemma AllocPosInjective(v: int, w: int, i: int, j: int)
    requires 0 <= v && 0 <= w && 0 <= i && 0 <= j
    ensures v != w ==> AllocPos(v) != AllocPos(w)
    ensures AllocPos(v) != IndexPos(i)
    ensures i != j ==> IndexPos(i) != IndexPos(j)
  {
  }

  /** The call of Find behind entry `p` of Recorded. */
  function RecordedPos(n: int, p: int): int
    requires 0 <= p
  {
    if p < n then AllocPos(p) else IndexPos(p - n)
  }

  lemma {:induction false} WriteIndexBlocksReads(
    disk: map<int, seq<int>>, found: seq<int>, n: int, k: int, i: int)
    requires 0 <= i < k <= IndexSectors(n) && |found| == Needed(n) && Distinct(found)
    ensures SectorContents(WriteIndexBlocks(disk, found, n, k), found[IndexPos(i)])
            == IndexBlock(found, n, i)
    decreases k
  {
    if i < k - 1 {
      WriteIndexBlocksReads(disk, found, n, k - 1, i);
      AllocPosInjective(0, 0, i, k - 1);
    }
  }

  /** Only the index sectors written so far change. */
  lemma {:induction false} WriteIndexBlocksKeeps(
    disk: map<int, seq<int>>, found: seq<int>, n: int, k: int, x: int)
    requires 0 <= k <= IndexSectors(n) && |found| == Needed(n)
    requires forall i :: 0 <= i < k ==> found[IndexPos(i)] != x
    ensures x in WriteIndexBlocks(disk, found, n, k) <==> x in disk
    ensures x in disk ==> WriteIndexBlocks(disk, found, n, k)[x] == disk[x]
    decreases k
  {
    if k > 0 {
      WriteIndexBlocksKeeps(disk, found, n, k - 1, x);
    }
  }

  /** The fields a successful Allocate fills in, call of Find by call. */
  lemma AllocateFields(h: Header, bits: seq<bool>, disk: map<int, seq<int>>, fileSize: int)
    requires Shaped(h) && AllocateFits(bits, fileSize)
    requires Allocate(h, bits, disk, fileSize).ok
    ensures var n := DivRoundUp(fileSize, SectorSize);
            var r := Allocate(h, bits, disk, fileSize);
            var found := FindN(bits, Needed(n)).0;
            n <= MaxDataSectors && r.header.numSectors == n &&
            (forall k :: 0 <= k < NumPrimarySector && k < n ==> r.header.primary[k] == found[k]) &&
            (forall i :: 0 <= i < IndexSectors(n) ==> r.header.secondary[i] == found[IndexPos(i)]) &&
            r.disk == WriteIndexBlocks(disk, found, n, IndexSectors(n)) &&
            r.freeMap == FindN(bits, Needed(n)).1
  {
  }

  /** Entry `p` of what a successful Allocate records is the result of
      Find call number RecordedPos(n, p). */
  lemma AllocateRecordsFinds(h: Header, bits: seq<bool>, disk: map<int, seq<int>>, fileSize: int, p: int)
    requires Shaped(h) && AllocateFits(bits, fileSize)
    requires Allocate(h, bits, disk, fileSize).ok
    requires Distinct(FindN(bits, Needed(DivRoundUp(fileSize, SectorSize))).0)
    requires 0 <= p < Needed(DivRoundUp(fileSize, SectorSize))
    ensures var n := DivRoundUp(fileSize, SectorSize);
            var r := Allocate(h, bits, disk, fileSize);
            n <= MaxDataSectors &&
            0 <= RecordedPos(n, p) < Needed(n) &&
            Recorded(r.header, r.disk)[p] == FindN(bits, Needed(n)).0[RecordedPos(n, p)]
  {
    var n := DivRoundUp(fileSize, SectorSize);
    var r := Allocate(h, bits, disk, fileSize);
    AllocateFields(h, bits, disk, fileSize);
    RecordedFromFields(r.header, r.disk, FindN(bits, Needed(n)).0, disk, n, p);
  }

  /** The same, for any header and disk holding Allocate's fields. */
  lemma RecordedFromFields(
    h: Header, d: map<int, seq<int>>, found: seq<int>, disk: map<int, seq<int>>, n: int, p: int)
    requires Shaped(h) && n <= MaxDataSectors && h.numSectors == n
    requires |found| == Needed(n) && Distinct(found) && 0 <= p < Needed(n)
    requires forall k :: 0 <= k < NumPrimarySector && k < n ==> h.primary[k] == found[k]
    requires forall i :: 0 <= i < IndexSectors(n) ==> h.secondary[i] == found[IndexPos(i)]
    requires d == WriteIndexBlocks(disk, found, n, IndexSectors(n))
    ensures 0 <= RecordedPos(n, p) < Needed(n)
    ensures Recorded(h, d)[p] == found[RecordedPos(n, p)]
  {
    if p < n {
      RecordedDataSector(h, d, p);
      AllocPosInRange(n, p);
      if p >= NumPrimarySector {
        var b := SlotOf(p).block;
        var e := SlotOf(p).entry;
        var q := IndexPos(b) + 1 + e;
        assert RecordedPos(n, p) == q;
        WriteIndexBlocksReads(disk, found, n, IndexSectors(n), b);
        IndexBlockEntry(found, n, b, e, q);
        assert Lookup(h, d, p) == IndexBlock(found, n, b)[e];
      }
    } else {
      var i := p - n;
      assert RecordedPos(n, p) == IndexPos(i);
      RecordedIndexSector(h, d, i, p);
    }
  }

  /** Entry `j` of index sector `i` as Allocate writes it. */
  lemma IndexBlockEntry(found: seq<int>, n: int, i: int, j: int, q: int)
    requires 0 <= i < IndexSectors(n) && |found| == Needed(n)
    requires 0 <= j < EntriesIn(n, i) && j < NumDirectPerSector && q == IndexPos(i) + 1 + j
    ensures 0 <= q < |found|
    ensures IndexBlock(found, n, i)[j] == found[q]
  {
    IndexBlockEnd(n, i);
  }

  /** Data sector `v` is recorded at position `v`. */
  lemma RecordedDataSector(h: Header, disk: map<int, seq<int>>, v: int)
    requires Shaped(h) && 0 <= v < h.numSectors <= MaxDataSectors
    ensures Recorded(h, disk)[v] == Lookup(h, disk, v)
  {
    var d := DataSectors(h, disk);
    assert Recorded(h, disk) == d + IndexList(h);
    assert (d + IndexList(h))[v] == d[v];
  }

  /** Index sector `i` is recorded right after the data sectors. */
  lemma RecordedIndexSector(h: Header, disk: map<int, seq<int>>, i: int, p: int)
    requires Shaped(h) && 0 <= h.numSectors <= MaxDataSectors && 0 <= i < IndexSectors(h.numSectors)
    requires p == h.numSectors + i
    ensures Recorded(h, disk)[p] == h.secondary[i]
  {
    var d := DataSectors(h, disk);
    assert Recorded(h, disk) == d + IndexList(h);
    assert (d + IndexList(h))[p] == IndexList(h)[i];
  }

  /** Allocate stores the requested length and succeeds exactly when enough
      sectors are free; when it fails it leaves the bitmap, the disk and the
      sector tables alone. */
  lemma AllocateSucceedsIffRoom(h: Header, bits: seq<bool>, disk: map<int, seq<int>>, fileSize: int)
    requires Shaped(h) && AllocateFits(bits, fileSize)
    ensures var r := Allocate(h, bits, disk, fileSize);
            var n := DivRoundUp(fileSize, SectorSize);
            r.header.numBytes == fileSize && r.header.numSectors == n &&
            (fileSize >= 0 ==> fileSize <= n * SectorSize < fileSize + SectorSize) &&
            (r.ok <==> Needed(n) <= CountClear(bits)) &&
            (!r.ok ==> r.freeMap == bits && r.disk == disk &&
                       r.header.primary == h.primary && r.header.secondary == h.secondary)
  {
  }

  /** A successful Allocate records each sector it takes exactly once. */
  lemma AllocateRecordsDistinct(h: Header, bits: seq<bool>, disk: map<int, seq<int>>, fileSize: int)
    requires Shaped(h) && AllocateFits(bits, fileSize)
    requires Allocate(h, bits, disk, fileSize).ok
    ensures var r := Allocate(h, bits, disk, fileSize);
            var n := DivRoundUp(fileSize, SectorSize);
            var found := FindN(bits, Needed(n)).0;
            n <= MaxDataSectors && r.header.numSectors == n &&
            Distinct(found) && Distinct(Recorded(r.header, r.disk)) &&
            Elements(Recorded(r.header, r.disk)) == Elements(found)
  {
    var n := DivRoundUp(fileSize, SectorSize);
    var r := Allocate(h, bits, disk, fileSize);
    var found := FindN(bits, Needed(n)).0;
    FindNTakesClearBits(bits, Needed(n));
    assert Distinct(found);
    var rec := Recorded(r.header, r.disk);
    forall p | 0 <= p < |rec|
      ensures 0 <= RecordedPos(n, p) < Needed(n) && rec[p] == found[RecordedPos(n, p)]
    {
      AllocateRecordsFinds(h, bits, disk, fileSize, p);
    }
    assert Distinct(rec) by {
      forall p, q | 0 <= p < q < |rec| ensures rec[p] != rec[q] {
        if q < n {
          AllocPosInjective(p, q, 0, 0);
        } else if p < n {
          AllocPosInjective(p, p, q - n, q - n);
        } else {
          AllocPosInjective(0, 0, p - n, q - n);
        }
      }
    }
    assert Elements(rec) <= Elements(found);
    DistinctCard(rec);
    DistinctCard(found);
    SubsetOfSameSize(Elements(rec), Elements(found));
  }

  /** A successful Allocate writes only its index sectors. */
  lemma AllocateWritesIndexSectors(h: Header, bits: seq<bool>, disk: map<int, seq<int>>, fileSize: int)
    requires Shaped(h) && AllocateFits(bits, fileSize)
    requires Allocate(h, bits, disk, fileSize).ok
    ensures var r := Allocate(h, bits, disk, fileSize);
            r.header.numSectors <= MaxDataSectors &&
            forall x :: x !in IndexList(r.header) ==>
              (x in r.disk <==> x in disk) && (x in disk ==> r.disk[x] == disk[x])
  {
    var n := DivRoundUp(fileSize, SectorSize);
    var r := Allocate(h, bits, disk, fileSize);
    var found := FindN(bits, Needed(n)).0;
    AllocateFields(h, bits, disk, fileSize);
    forall x | x !in IndexList(r.header)
      ensures (x in r.disk <==> x in disk) && (x in disk ==> r.disk[x] == disk[x])
    {
      forall i | 0 <= i < IndexSectors(n) ensures found[IndexPos(i)] != x {
        assert IndexList(r.header)[i] == r.header.secondary[i];
      }
      WriteIndexBlocksKeeps(disk, found, n, IndexSectors(n), x);
    }
  }

  /** Every sector a successful Allocate records was free and is now in use. */
  lemma AllocateMarksRecorded(h: Header, bits: seq<bool>, disk: map<int, seq<int>>, fileSize: int)
    requires Shaped(h) && AllocateFits(bits, fileSize)
    requires Allocate(h, bits, disk, fileSize).ok
    ensures var r := Allocate(h, bits, disk, fileSize);
            var n := DivRoundUp(fileSize, SectorSize);
            n <= MaxDataSectors && r.header.numSectors == n &&
            Distinct(Recorded(r.header, r.disk)) &&
            (forall x :: x in Recorded(r.header, r.disk) ==>
               0 <= x < |bits| && !bits[x] && r.freeMap[x]) &&
            r.freeMap == Marked(bits, Elements(Recorded(r.header, r.disk))) &&
            CountClear(r.freeMap) == CountClear(bits) - Needed(n)
  {
    var n := DivRoundUp(fileSize, SectorSize);
    var r := Allocate(h, bits, disk, fileSize);
    var found := FindN(bits, Needed(n)).0;
    FindNTakesClearBits(bits, Needed(n));
    AllocateFields(h, bits, disk, fileSize);
    AllocateRecordsDistinct(h, bits, disk, fileSize);
    var rec := Recorded(r.header, r.disk);
    assert Elements(found) == set x | x in found;
    forall x | x in rec ensures 0 <= x < |bits| && !bits[x] && r.freeMap[x] {
      assert x in Elements(found);
      var j :| 0 <= j < |found| && found[j] == x;
    }
  }

  /** A successful Allocate takes Needed(n) sectors that were free, records
      each of them exactly once, marks exactly those in use, and writes only
      its index sectors. */
  lemma AllocateLayout(h: Header, bits: seq<bool>, disk: map<int, seq<int>>, fileSize: int)
    requires Shaped(h) && AllocateFits(bits, fileSize)
    requires Allocate(h, bits, disk, fileSize).ok
    ensures var r := Allocate(h, bits, disk, fileSize);
            var n := DivRoundUp(fileSize, SectorSize);
            n <= MaxDataSectors && r.header.numSectors == n &&
            DeallocateChecks(r.header, r.freeMap, r.disk) &&
            (forall x :: x in Recorded(r.header, r.disk) ==> !bits[x]) &&
            r.freeMap == Marked(bits, Elements(Recorded(r.header, r.disk))) &&
            CountClear(r.freeMap) == CountClear(bits) - Needed(n)
    ensures var r := Allocate(h, bits, disk, fileSize);
            forall x :: x !in IndexList(r.header) ==>
              (x in r.disk <==> x in disk) && (x in disk ==> r.disk[x] == disk[x])
  {
    AllocateMarksRecorded(h, bits, disk, fileSize);
    AllocateWritesIndexSectors(h, bits, disk, fileSize);
  }

  /** Deallocate after a successful Allocate gives the bitmap back as it was. */
  lemma AllocateThenDeallocate(h: Header, bits: seq<bool>, disk: map<int, seq<int>>, fileSize: int)
    requires Shaped(h) && AllocateFits(bits, fileSize)
    requires Allocate(h, bits, disk, fileSize).ok
    ensures var r := Allocate(h, bits, disk, fileSize);
            r.header.numSectors <= MaxDataSectors &&
            DeallocateChecks(r.header, r.freeMap, r.disk) &&
            Deallocate(r.header, r.freeMap, r.disk) == Freed(true, bits)
  {
    var r := Allocate(h, bits, disk, fileSize);
    AllocateLayout(h, bits, disk, fileSize);
    DeallocateUnderChecks(r.header, r.freeMap, r.disk);
    UnmarkMarked(bits, Elements(Recorded(r.header, r.disk)));
  }

  // Deallocate

  /** Entry `j` of index sector `i` records virtual sector 5 + 32i + j. */
  lemma IndexSectorLists(h: Header, disk: map<int, seq<int>>, i: int)
    requires Shaped(h) && NumPrimarySector < h.numSectors <= MaxDataSectors && 0 <= i < IndexSectors(h.numSectors)
    ensures var lo := NumPrimarySector + NumDirectPerSector * i;
            var e := EntriesIn(h.numSectors, i);
            lo + e <= h.numSectors && 0 <= e <= NumDirectPerSector &&
            SectorContents(disk, h.secondary[i])[..e] == Recorded(h, disk)[lo..lo + e]
  {
    var lo := NumPrimarySector + NumDirectPerSector * i;
    var e := EntriesIn(h.numSectors, i);
    IndexBlockEnd(h.numSectors, i);
    var block := SectorContents(disk, h.secondary[i]);
    var rec := Recorded(h, disk);
    var d := DataSectors(h, disk);
    assert rec == d + IndexList(h);
    forall j | 0 <= j < e
      ensures block[..e][j] == rec[lo..lo + e][j]
    {
      var v := lo + j;
      assert rec[v] == d[v] == Lookup(h, disk, v);
      assert SlotOf(v) == Indirect(i, j);
    }
  }

  /** Index sector `i` of a file of `n` data sectors, named `secondary[i]`,
      is entry n + i of the recorded sectors and lists entries 5 + 32i
      onward. */
  ghost predicate IndexSectorListsAt(n: int, secondary: seq<int>, disk: map<int, seq<int>>, rec: seq<int>, i: int) {
    var lo := NumPrimarySector + NumDirectPerSector * i;
    0 <= i < |secondary| && n + i < |rec| && 0 <= lo && 0 <= EntriesIn(n, i) && lo + EntriesIn(n, i) <= n &&
    rec[n + i] == secondary[i] &&
    SectorContents(disk, secondary[i])[..EntriesIn(n, i)] == rec[lo..lo + EntriesIn(n, i)]
  }

  /** Every index sector a file of `n` data sectors uses lists its part of
      the recorded sectors. */
  ghost predicate IndexSectorsList(n: int, secondary: seq<int>, disk: map<int, seq<int>>, rec: seq<int>)
    requires NumPrimarySector < n <= MaxDataSectors && |secondary| == NumSecondarySector && |rec| == Needed(n)
  {
    forall i :: 0 <= i < IndexSectors(n) ==> IndexSectorListsAt(n, secondary, disk, rec, i)
  }

  lemma IndexSectorsListed(h: Header, disk: map<int, seq<int>>)
    requires Shaped(h) && NumPrimarySector < h.numSectors <= MaxDataSectors
    ensures IndexSectorsList(h.numSectors, h.secondary, disk, Recorded(h, disk))
  {
    forall i | 0 <= i < IndexSectors(h.numSectors)
      ensures IndexSectorListsAt(h.numSectors, h.secondary, disk, Recorded(h, disk), i)
    {
      IndexSectorLists(h, disk, i);
      RecordedIndexSector(h, disk, i, h.numSectors + i);
    }
  }

  /** The bitmap once Deallocate has cleared the sectors recorded at
      positions below `a` and from `n` up to `c`. */
  ghost function Cleared(b0: seq<bool>, rec: seq<int>, a: int, n: int, c: int): seq<bool>
    requires 0 <= a <= n <= c <= |rec|
  {
    Unmarked(b0, Elements(rec[..a]) + Elements(rec[n..c]))
  }

  /** The direct sectors of a header with index sectors are still marked. */
  lemma DirectSectorsMarked(h: Header, disk: map<int, seq<int>>, b0: seq<bool>)
    requires Shaped(h) && NumPrimarySector < h.numSectors <= MaxDataSectors
    requires DeallocateChecks(h, b0, disk)
    ensures h.primary == Recorded(h, disk)[..NumPrimarySector]
    ensures Distinct(h.primary) && forall x :: x in h.primary ==> 0 <= x < |b0| && b0[x]
  {
    var rec := Recorded(h, disk);
    assert h.primary == rec[..NumPrimarySector];
    DistinctSlice(rec, 0, NumPrimarySector);
    assert rec[0..NumPrimarySector] == rec[..NumPrimarySector];
    forall x | x in h.primary ensures 0 <= x < |b0| && b0[x] {
      assert x in rec;
    }
  }

  lemma ClearedDirect(b0: seq<bool>, rec: seq<int>, n: int)
    requires NumPrimarySector <= n <= |rec|
    ensures Unmarked(b0, Elements(rec[..NumPrimarySector])) == Cleared(b0, rec, NumPrimarySector, n, n)
  {
    assert Elements(rec[n..n]) == {};
    assert Elements(rec[..NumPrimarySector]) + Elements(rec[n..n]) == Elements(rec[..NumPrimarySector]);
  }

  lemma ClearedAll(b0: seq<bool>, rec: seq<int>, n: int)
    requires 0 <= n <= |rec|
    ensures Cleared(b0, rec, n, n, |rec|) == Unmarked(b0, Elements(rec))
  {
    ElementsSplit(rec, 0, n, |rec|);
    assert rec[..n] == rec[0..n] && rec[0..|rec|] == rec;
  }

  /** Clearing the entries of index sector `i` and then the index sector
      moves both ends of what Deallocate has cleared. */
  lemma ClearedIndexSector(b0: seq<bool>, rec: seq<int>, lo: int, done: int, n: int, at: int, c: int,
                           listed: seq<int>)
    requires 0 <= lo <= done <= n <= at < |rec| && c == at + 1
    requires 0 <= rec[at] < |b0|
    requires listed == rec[lo..done]
    ensures Unmarked(Cleared(b0, rec, lo, n, at), Elements(listed))[rec[at] := false]
            == Cleared(b0, rec, done, n, c)
  {
    var x := rec[at];
    var before, mid, after := Elements(rec[..lo]), Elements(rec[n..at]), Elements(rec[..done]);
    assert rec[..lo] == rec[0..lo] && rec[..done] == rec[0..done] && rec[lo..done] == listed;
    ElementsSplit(rec, 0, lo, done);
    ElementsSplit(rec, n, at, c);
    assert rec[at..c] == [x];
    assert Elements([x]) == {x};
    UnionsRegroup(before, Elements(listed), after, mid, {x}, Elements(rec[n..c]));
    UnmarkedTwice(b0, before + mid, Elements(listed));
    UnmarkedOneMore(b0, after + mid, x);
  }

  lemma UnionsRegroup<T>(a: set<T>, l: set<T>, d: set<T>, b: set<T>, x: set<T>, c: set<T>)
    requires a + l == d && b + x == c
    ensures (a + b) + l == d + b && (d + b) + x == d + c
  {
  }

  /** A stretch of the recorded sectors away from those Deallocate has
      cleared is still marked, and holds no repeats. */
  lemma StillMarked(b0: seq<bool>, rec: seq<int>, a: int, n: int, at: int, lo: int, hi: int, s: seq<int>)
    requires Distinct(rec) && forall x :: x in rec ==> 0 <= x < |b0| && b0[x]
    requires 0 <= a <= n <= at <= |rec|
    requires 0 <= lo <= hi <= |rec| && ((a <= lo && hi <= n) || at <= lo)
    requires s == rec[lo..hi]
    ensures Distinct(s)
    ensures forall x :: x in s ==> 0 <= x < |Cleared(b0, rec, a, n, at)| && Cleared(b0, rec, a, n, at)[x]
  {
    DistinctSlice(rec, lo, hi);
    DistinctSlicesApart(rec, 0, a, lo, hi);
    DistinctSlicesApart(rec, n, at, lo, hi);
    assert rec[..a] == rec[0..a];
    forall x | x in rec[lo..hi] ensures 0 <= x < |b0| && b0[x] {
      assert x in rec;
    }
  }

  /** A run of checks and clears that gets to the end found every sector
      of the list in use when it started, and cleared exactly those. */
  lemma {:induction false} ClearFromOk(bits: seq<bool>, s: seq<int>, i: nat)
    requires i <= |s|
    ensures var r := ClearFrom(bits, s, i);
            r.ok ==> (forall x :: x in s[i..] ==> InUse(bits, x)) && r.freeMap == Unmarked(bits, Elements(s[i..]))
    decreases |s| - i
  {
    if i == |s| {
      assert Elements(s[i..]) == {};
      assert forall k :: 0 <= k < |bits| ==> Unmarked(bits, {})[k] == bits[k];
    } else if InUse(bits, s[i]) {
      var x := s[i];
      var b1 := bits[x := false];
      ClearFromOk(b1, s, i + 1);
      if ClearFrom(bits, s, i).ok {
        assert s[i..] == [x] + s[i + 1..];
        assert Elements(s[i..]) == {x} + Elements(s[i + 1..]);
        forall y | y in s[i..] ensures InUse(bits, y) {
          if y != x {
            assert y in s[i + 1..];
          }
        }
        UnmarkedOneMore(bits, {}, x);
        assert forall k :: 0 <= k < |bits| ==> Unmarked(bits, {})[k] == bits[k];
        UnmarkedTwice(bits, {x}, Elements(s[i + 1..]));
      }
    }
  }

  /** ClearFromOk for a whole list. */
  lemma ClearFromOkAll(bits: seq<bool>, s: seq<int>)
    ensures var r := ClearFrom(bits, s, 0);
            r.ok ==> (forall x :: x in Elements(s) ==> InUse(bits, x)) && r.freeMap == Unmarked(bits, Elements(s))
  {
    ClearFromOk(bits, s, 0);
    assert s[0..] == s;
  }

  /** A list without repeats whose sectors are all in use passes every check. */
  lemma {:induction false} ClearFromMarked(bits: seq<bool>, s: seq<int>, i: nat)
    requires i <= |s| && Distinct(s) && forall x :: x in s[i..] ==> InUse(bits, x)
    ensures ClearFrom(bits, s, i).ok
    decreases |s| - i
  {
    if i < |s| {
      assert s[i] in s[i..];
      var b1 := bits[s[i] := false];
      forall x | x in s[i + 1..] ensures InUse(b1, x) {
        var j :| i + 1 <= j < |s| && s[j] == x;
        assert s[j] != s[i] && x in s[i..];
      }
      ClearFromMarked(b1, s, i + 1);
    }
  }

  /** The data sectors left to clear when Deallocate reaches index sector `i`. */
  predicate RestAt(n: int, i: int, rest: int) {
    rest == if i < IndexSectors(n) then n - NumPrimarySector - NumDirectPerSector * i else 0
  }

  /** What Deallocate's index loop still has to clear when it reaches index
      sector `i` with `rest` data sectors left: the data sectors recorded
      from n - rest on and the index sectors from `i` on. */
  ghost function StillToClear(rec: seq<int>, n: int, i: int, rest: int): set<int>
    requires 0 <= rest <= n && 0 <= i && n + i <= |rec|
  {
    Elements(rec[n - rest..n]) + Elements(rec[n + i..])
  }

  /** One pass of Deallocate's index loop reads the entries of index sector
      `i` that are recorded from position n - rest on, and leaves the count
      that belongs to index sector i + 1. */
  lemma IndexPassReads(n: int, secondary: seq<int>, disk: map<int, seq<int>>, rec: seq<int>, i: int, rest: int)
    requires NumPrimarySector < n <= MaxDataSectors && |secondary| == NumSecondarySector && |rec| == Needed(n)
    requires IndexSectorsList(n, secondary, disk, rec)
    requires 0 <= i < IndexSectors(n) && RestAt(n, i, rest)
    ensures 0 < Filled(rest) && NumPrimarySector <= n - rest && n - rest + Filled(rest) <= n
    ensures SectorContents(disk, secondary[i])[..Filled(rest)] == rec[n - rest..n - rest + Filled(rest)]
    ensures rec[n + i] == secondary[i]
    ensures RestAt(n, i + 1, rest - Filled(rest)) && 0 <= rest - Filled(rest) <= n - NumPrimarySector
  {
    assert IndexSectorListsAt(n, secondary, disk, rec, i);
    IndexBlockEnd(n, i);
  }

  /** What is left after one pass: the entries it listed and its index
      sector come off. */
  lemma IndexPassSets(rec: seq<int>, n: int, i: int, rest: int, i1: int, rest1: int,
                      lo: int, hi: int, at: int, c: int, listed: seq<int>, s: int)
    requires 0 <= lo <= hi <= n <= at < |rec| && 0 <= rest1 <= rest
    requires lo == n - rest && hi == n - rest1 && at == n + i && c == at + 1 && c == n + i1
    requires listed == rec[lo..hi] && s == rec[at]
    ensures StillToClear(rec, n, i, rest) == (Elements(listed) + {s}) + StillToClear(rec, n, i1, rest1)
  {
    ElementsSplit(rec, lo, hi, n);
    ElementsSplit(rec, at, c, |rec|);
    assert rec[at..c] == [s];
    assert Elements([s]) == {s};
    assert rec[c..] == rec[c..|rec|] && rec[at..] == rec[at..|rec|];
    SplitsRegroup(Elements(rec[lo..n]), Elements(rec[at..]), Elements(listed), Elements(rec[hi..n]),
                  {s}, Elements(rec[c..]));
  }

  lemma SplitsRegroup<T>(a: set<T>, b: set<T>, l: set<T>, d: set<T>, x: set<T>, e: set<T>)
    requires a == l + d && b == x + e
    ensures a + b == (l + x) + (d + e)
  {
  }

  /** A pass of the index loop gets through only if the index sector and
      the entries it lists were in use, and then clears exactly those. */
  lemma IndexPassOk(h: Header, bits: seq<bool>, disk: map<int, seq<int>>, i: int, rest: int)
    requires Shaped(h) && 0 <= i < NumSecondarySector && 0 <= rest
    ensures IndexPass(h, bits, disk, i, rest).ok ==>
              (forall x :: x in Elements(SectorContents(disk, h.secondary[i])[..Filled(rest)]) + {h.secondary[i]} ==>
                 InUse(bits, x)) &&
              IndexPass(h, bits, disk, i, rest).freeMap ==
                Unmarked(bits, Elements(SectorContents(disk, h.secondary[i])[..Filled(rest)]) + {h.secondary[i]})
  {
    var s := h.secondary[i];
    var listed := SectorContents(disk, s)[..Filled(rest)];
    ClearFromOk(bits, listed, 0);
    assert listed[0..] == listed;
    if InUse(bits, s) {
      UnmarkedOneMore(bits, Elements(listed), s);
    }
  }

  /** Clearing `done` and then `later`, all of `later` still in use, clears
      their union, all of it in use before. */
  lemma ClearedInTurn(bits: seq<bool>, done: set<int>, b1: seq<bool>, later: set<int>, left: set<int>)
    requires (forall x :: x in done ==> InUse(bits, x)) && b1 == Unmarked(bits, done) && left == done + later
    requires forall x :: x in later ==> InUse(b1, x)
    ensures (forall x :: x in left ==> InUse(bits, x)) && Unmarked(b1, later) == Unmarked(bits, left)
  {
    UnmarkedTwice(bits, done, later);
    forall x | x in later ensures InUse(bits, x) {
      assert InUse(b1, x);
    }
  }

  /** IndexPassReads, with the bounds of the entries and the position of the index sector in `rec` named. */
  lemma IndexPassReadsAt(n: int, secondary: seq<int>, disk: map<int, seq<int>>, rec: seq<int>, i: int,
                         rest: int, rest1: int, lo: int, hi: int, at: int)
    requires NumPrimarySector < n <= MaxDataSectors && |secondary| == NumSecondarySector && |rec| == Needed(n)
    requires IndexSectorsList(n, secondary, disk, rec)
    requires 0 <= i < IndexSectors(n) && rest == RestFor(n, i) && rest1 == RestFor(n, i + 1)
    requires lo == n - rest && hi == n - rest1 && at == n + i
    ensures 0 <= rest && rest - Filled(rest) == rest1 && hi == lo + Filled(rest)
    ensures NumPrimarySector <= lo <= hi <= n <= at < |rec|
    ensures SectorContents(disk, secondary[i])[..Filled(rest)] == rec[lo..hi]
    ensures rec[at] == secondary[i]
  {
    assert RestAt(n, i, rest);
    IndexPassReads(n, secondary, disk, rec, i, rest);
  }

  /** What is left to clear before pass `i` is what that pass touches and
      what is left after it. */
  lemma IndexPassLeaves(h: Header, disk: map<int, seq<int>>, rec: seq<int>, i: nat, rest: int, i1: int, rest1: int)
    requires Shaped(h) && NumPrimarySector < h.numSectors <= MaxDataSectors && |rec| == Needed(h.numSectors)
    requires IndexSectorsList(h.numSectors, h.secondary, disk, rec)
    requires i < IndexSectors(h.numSectors) && rest == RestFor(h.numSectors, i)
    requires i1 == i + 1 && rest1 == RestFor(h.numSectors, i1)
    ensures 0 <= rest1 <= rest <= h.numSectors && rest - Filled(rest) == rest1 && h.numSectors + i1 <= |rec|
    ensures StillToClear(rec, h.numSectors, i, rest) ==
            (Elements(SectorContents(disk, h.secondary[i])[..Filled(rest)]) + {h.secondary[i]}) +
            StillToClear(rec, h.numSectors, i1, rest1)
  {
    var n := h.numSectors;
    var lo, hi, at := n - rest, n - rest1, n + i;
    IndexPassReadsAt(n, h.secondary, disk, rec, i, rest, rest1, lo, hi, at);
    IndexPassSets(rec, n, i, rest, i1, rest1, lo, hi, at, at + 1,
                  SectorContents(disk, h.secondary[i])[..Filled(rest)], h.secondary[i]);
  }

  /** A pass of the index loop that gets through hands its bitmap on to the
      next. */
  lemma ClearIndexFromStep(h: Header, bits: seq<bool>, disk: map<int, seq<int>>, i: nat, rest: int,
                           i1: nat, rest1: int)
    requires Shaped(h) && h.numSectors <= MaxDataSectors && 0 <= rest && i < IndexSectors(h.numSectors)
    requires i1 == i + 1 && rest1 == rest - Filled(rest)
    ensures IndexPass(h, bits, disk, i, rest).ok ==>
              ClearIndexFrom(h, bits, disk, i, rest) ==
              ClearIndexFrom(h, IndexPass(h, bits, disk, i, rest).freeMap, disk, i1, rest1)
  {
  }

  /** A pass that gets through with `after` leaves the rest of the loop
      to run from there. */
  lemma ClearIndexFromThrough(h: Header, bits: seq<bool>, disk: map<int, seq<int>>, i: nat, rest: int,
                              after: seq<bool>, r: Freed)
    requires Shaped(h) && h.numSectors <= MaxDataSectors && 0 <= rest && i < IndexSectors(h.numSectors)
    requires IndexPass(h, bits, disk, i, rest) == Freed(true, after)
    requires ClearIndexFrom(h, after, disk, i + 1, rest - Filled(rest)) == r
    ensures ClearIndexFrom(h, bits, disk, i, rest) == r
  {
  }

  /** Deallocate's index loop, from index sector `i` on, gets to the end
      only if every sector still to clear was in use, and then it has
      cleared exactly those. */
  lemma {:induction false} ClearIndexFromOk(h: Header, bits: seq<bool>, disk: map<int, seq<int>>, rec: seq<int>,
                                            i: nat, rest: int)
    requires Shaped(h) && NumPrimarySector < h.numSectors <= MaxDataSectors && |rec| == Needed(h.numSectors)
    requires IndexSectorsList(h.numSectors, h.secondary, disk, rec)
    requires i <= IndexSectors(h.numSectors) && rest == RestFor(h.numSectors, i)
    requires 0 <= rest <= h.numSectors - NumPrimarySector
    ensures var left := StillToClear(rec, h.numSectors, i, rest);
            var r := ClearIndexFrom(h, bits, disk, i, rest);
            r.ok ==> (forall x :: x in left ==> InUse(bits, x)) && r.freeMap == Unmarked(bits, left)
    decreases IndexSectors(h.numSectors) - i
  {
    var n := h.numSectors;
    if i == IndexSectors(n) {
      assert StillToClear(rec, n, i, rest) == {};
      assert forall k :: 0 <= k < |bits| ==> Unmarked(bits, {})[k] == bits[k];
    } else {
      var i1 := i + 1;
      var rest1 := RestFor(n, i1);
      IndexPassLeaves(h, disk, rec, i, rest, i1, rest1);
      IndexPassOk(h, bits, disk, i, rest);
      var p := IndexPass(h, bits, disk, i, rest);
      if p.ok {
        ClearIndexFromOk(h, p.freeMap, disk, rec, i1, rest1);
        ClearIndexFromStep(h, bits, disk, i, rest, i1, rest1);
        if ClearIndexFrom(h, p.freeMap, disk, i1, rest1).ok {
          ClearedInTurn(bits, Elements(SectorContents(disk, h.secondary[i])[..Filled(rest)]) + {h.secondary[i]},
                        p.freeMap, StillToClear(rec, n, i1, rest1), StillToClear(rec, n, i, rest));
        }
      }
    }
  }

  /** Under Deallocate's checks pass `i` of its index loop finds its sectors
      in use and moves both ends of what has been cleared. */
  lemma IndexPassUnderChecks(h: Header, b0: seq<bool>, bits: seq<bool>, disk: map<int, seq<int>>,
                             rec: seq<int>, i: nat, rest: int, lo: int, at: int, done: int, c: int)
    requires Shaped(h) && 0 <= i < NumSecondarySector && 0 <= rest
    requires 0 <= lo <= done <= h.numSectors <= at < |rec| && c == at + 1
    requires MarkedOnce(b0, rec)
    requires SectorContents(disk, h.secondary[i])[..Filled(rest)] == rec[lo..done]
    requires rec[at] == h.secondary[i]
    requires bits == Cleared(b0, rec, lo, h.numSectors, at)
    ensures IndexPass(h, bits, disk, i, rest) == Freed(true, Cleared(b0, rec, done, h.numSectors, c))
  {
    var listed, s := SectorContents(disk, h.secondary[i])[..Filled(rest)], h.secondary[i];
    PassClears(b0, bits, rec, lo, done, h.numSectors, at, c, listed, s);
    IndexPassIs(h, bits, disk, i, rest, listed, Unmarked(bits, Elements(listed)), Cleared(b0, rec, done, h.numSectors, c));
  }

  /** Entries `i` and `j` of `s`, when both exist and `i` comes first, differ. */
  ghost predicate Apart(s: seq<int>, i: int, j: int) {
    0 <= i < j < |s| ==> s[i] != s[j]
  }

  /** Entry `k` of `rec`, when it exists, is a sector still in use in `b0`. */
  ghost predicate MarkedAt(b0: seq<bool>, rec: seq<int>, k: int) {
    0 <= k < |rec| ==> 0 <= rec[k] < |b0| && b0[rec[k]]
  }

  /** Deallocate's checks on the recorded sectors `rec`, written so that
      they are used only where asked for. */
  ghost predicate MarkedOnce(b0: seq<bool>, rec: seq<int>) {
    (forall i, j {:trigger Apart(rec, i, j)} :: Apart(rec, i, j)) &&
    (forall k {:trigger MarkedAt(b0, rec, k)} :: MarkedAt(b0, rec, k))
  }

  lemma MarkedOnceIff(b0: seq<bool>, rec: seq<int>)
    ensures MarkedOnce(b0, rec) <==> Distinct(rec) && forall x :: x in rec ==> 0 <= x < |b0| && b0[x]
  {
    if Distinct(rec) && forall x :: x in rec ==> 0 <= x < |b0| && b0[x] {
      forall k ensures MarkedAt(b0, rec, k) {
        if 0 <= k < |rec| {
          assert rec[k] in rec;
        }
      }
    }
    if MarkedOnce(b0, rec) {
      forall i, j | 0 <= i < j < |rec| ensures rec[i] != rec[j] {
        assert Apart(rec, i, j);
      }
      forall x | x in rec ensures 0 <= x < |b0| && b0[x] {
        var k :| 0 <= k < |rec| && rec[k] == x;
        assert MarkedAt(b0, rec, k);
      }
    }
  }

  /** IndexPassUnderChecks, for a header whose index sectors list `rec`. */
  lemma IndexPassChecked(h: Header, b0: seq<bool>, bits: seq<bool>,
                         disk: map<int, seq<int>>, rec: seq<int>, i: nat, rest: int, rest1: int,
                         a0: int, c0: int, a1: int, c1: int)
    requires Shaped(h) && NumPrimarySector < h.numSectors <= MaxDataSectors && |rec| == Needed(h.numSectors)
    requires IndexSectorsList(h.numSectors, h.secondary, disk, rec)
    requires MarkedOnce(b0, rec)
    requires i < IndexSectors(h.numSectors) && rest == RestFor(h.numSectors, i) && rest1 == RestFor(h.numSectors, i + 1)
    requires a0 == h.numSectors - rest && c0 == h.numSectors + i && a1 == h.numSectors - rest1 && c1 == h.numSectors + (i + 1)
    requires bits == Cleared(b0, rec, a0, h.numSectors, c0)
    ensures 0 <= rest && rest - Filled(rest) == rest1
    ensures IndexPass(h, bits, disk, i, rest) == Freed(true, Cleared(b0, rec, a1, h.numSectors, c1))
  {
    IndexPassReadsAt(h.numSectors, h.secondary, disk, rec, i, rest, rest1, a0, a1, c0);
    IndexPassUnderChecks(h, b0, bits, disk, rec, i, rest, a0, c0, a1, c1);
  }

  /** IndexPass, once its index sector is in use and its entries clear. */
  lemma IndexPassIs(h: Header, bits: seq<bool>, disk: map<int, seq<int>>, i: int, rest: int,
                    listed: seq<int>, b: seq<bool>, after: seq<bool>)
    requires Shaped(h) && 0 <= i < NumSecondarySector && 0 <= rest
    requires listed == SectorContents(disk, h.secondary[i])[..Filled(rest)]
    requires InUse(bits, h.secondary[i]) && ClearFrom(bits, listed, 0) == Freed(true, b)
    requires after == b[h.secondary[i] := false]
    ensures IndexPass(h, bits, disk, i, rest) == Freed(true, after)
  {
  }

  /** Pass `i` of the index loop on the bitmap the checks lead to: the
      index sector `s`, which is `rec[n + i]`, and the entries `listed` it names are in
      use, and clearing them moves both ends of what has been cleared. */
  lemma PassClears(b0: seq<bool>, bits: seq<bool>, rec: seq<int>, lo: int, done: int, n: int, at: int,
                   c: int, listed: seq<int>, s: int)
    requires MarkedOnce(b0, rec)
    requires 0 <= lo <= done <= n <= at < |rec| && c == at + 1
    requires bits == Cleared(b0, rec, lo, n, at)
    requires listed == rec[lo..done] && s == rec[at]
    ensures InUse(bits, s)
    ensures ClearFrom(bits, listed, 0) == Freed(true, Unmarked(bits, Elements(listed)))
    ensures Cleared(b0, rec, done, n, c) == Unmarked(bits, Elements(listed))[s := false]
  {
    MarkedOnceIff(b0, rec);
    assert rec[at..c] == [s];
    StillMarked(b0, rec, lo, n, at, at, c, [s]);
    assert s in [s];
    StillMarked(b0, rec, lo, n, at, lo, done, listed);
    assert listed[0..] == listed;
    ClearFromMarked(bits, listed, 0);
    ClearFromOkAll(bits, listed);
    ClearedIndexSector(b0, rec, lo, done, n, at, c, listed);
  }

  /** The `rest` argument of pass `i` of Deallocate's index loop. */
  function RestFor(n: int, i: int): int {
    if i < IndexSectors(n) then n - NumPrimarySector - NumDirectPerSector * i else 0
  }

  /** Pass `j` of the index loop takes bitmap `states[j]` to `states[j + 1]`. */
  ghost predicate PassTakes(h: Header, disk: map<int, seq<int>>, states: seq<seq<bool>>, j: int)
    requires Shaped(h) && h.numSectors <= MaxDataSectors
    requires 0 <= j < IndexSectors(h.numSectors) && |states| == IndexSectors(h.numSectors) + 1
  {
    var rest := RestFor(h.numSectors, j);
    0 <= rest && rest - Filled(rest) == RestFor(h.numSectors, j + 1) &&
    IndexPass(h, states[j], disk, j, rest) == Freed(true, states[j + 1])
  }

  /** The index loop, run from pass `i` through bitmaps each pass takes to
      the next, gets to the end with the last of them. */
  lemma {:induction false} ClearIndexFromRuns(h: Header, disk: map<int, seq<int>>, states: seq<seq<bool>>, i: nat)
    requires Shaped(h) && h.numSectors <= MaxDataSectors
    requires i <= IndexSectors(h.numSectors) && |states| == IndexSectors(h.numSectors) + 1
    requires forall j :: i <= j < IndexSectors(h.numSectors) ==> PassTakes(h, disk, states, j)
    ensures ClearIndexFrom(h, states[i], disk, i, RestFor(h.numSectors, i))
            == Freed(true, states[IndexSectors(h.numSectors)])
    decreases IndexSectors(h.numSectors) - i
  {
    if i < IndexSectors(h.numSectors) {
      assert PassTakes(h, disk, states, i);
      ClearIndexFromRuns(h, disk, states, i + 1);
      ClearIndexFromThrough(h, states[i], disk, i, RestFor(h.numSectors, i), states[i + 1],
                            Freed(true, states[IndexSectors(h.numSectors)]));
    }
  }

  /** Under Deallocate's checks, the bitmap before pass `j` of the index
      loop: the direct sectors, the entries of the index sectors before `j`
      and those index sectors themselves cleared. */
  ghost function CheckedState(b0: seq<bool>, rec: seq<int>, n: int, j: int): seq<bool> {
    if 0 <= n - RestFor(n, j) <= n <= n + j <= |rec| then Cleared(b0, rec, n - RestFor(n, j), n, n + j) else b0
  }

  /** Under Deallocate's checks pass `j` takes CheckedState at `j` to
      CheckedState at `j + 1`. */
  lemma PassUnderChecksAt(h: Header, b0: seq<bool>, disk: map<int, seq<int>>, rec: seq<int>,
                          states: seq<seq<bool>>, j: int)
    requires Shaped(h) && NumPrimarySector < h.numSectors <= MaxDataSectors && |rec| == Needed(h.numSectors)
    requires IndexSectorsList(h.numSectors, h.secondary, disk, rec) && MarkedOnce(b0, rec)
    requires states == seq(IndexSectors(h.numSectors) + 1, k => CheckedState(b0, rec, h.numSectors, k))
    requires 0 <= j < IndexSectors(h.numSectors)
    ensures PassTakes(h, disk, states, j)
  {
    var n, j1 := h.numSectors, j + 1;
    var rest, rest1 := RestFor(n, j), RestFor(n, j1);
    var a0, c0, a1, c1 := n - rest, n + j, n - rest1, n + j1;
    CheckedStateIs(b0, rec, n, j, a0, c0);
    CheckedStateIs(b0, rec, n, j1, a1, c1);
    assert states[j] == CheckedState(b0, rec, n, j) && states[j1] == CheckedState(b0, rec, n, j1);
    IndexPassChecked(h, b0, states[j], disk, rec, j, rest, rest1, a0, c0, a1, c1);
    PassTakesFrom(h, disk, states, j, Cleared(b0, rec, a1, n, c1));
  }

  /** One pass of the chain, given the bitmap it leaves. */
  lemma PassTakesFrom(h: Header, disk: map<int, seq<int>>, states: seq<seq<bool>>, j: int, after: seq<bool>)
    requires Shaped(h) && h.numSectors <= MaxDataSectors
    requires 0 <= j < IndexSectors(h.numSectors) && |states| == IndexSectors(h.numSectors) + 1
    requires 0 <= RestFor(h.numSectors, j) && RestFor(h.numSectors, j) - Filled(RestFor(h.numSectors, j)) == RestFor(h.numSectors, j + 1)
    requires IndexPass(h, states[j], disk, j, RestFor(h.numSectors, j)) == Freed(true, after)
    requires after == states[j + 1]
    ensures PassTakes(h, disk, states, j)
  {
  }

  lemma ClearedFrom(b0: seq<bool>, rec: seq<int>, a: int, a': int, n: int, c: int, c': int)
    requires 0 <= a <= n <= c <= |rec| && a == a' && c == c'
    ensures Cleared(b0, rec, a, n, c) == Cleared(b0, rec, a', n, c')
  {
  }

  /** Where CheckedState is defined by Cleared. */
  lemma CheckedStateIs(b0: seq<bool>, rec: seq<int>, n: int, k: int, a: int, c: int)
    requires NumPrimarySector < n <= MaxDataSectors && |rec| == Needed(n) && 0 <= k <= IndexSectors(n)
    requires a == n - RestFor(n, k) && c == n + k
    ensures NumPrimarySector <= a <= n <= c <= |rec|
    ensures CheckedState(b0, rec, n, k) == Cleared(b0, rec, a, n, c)
  {
    assert 0 <= n - RestFor(n, k) <= n <= n + k <= |rec|;
    ClearedFrom(b0, rec, n - RestFor(n, k), a, n, n + k, c);
  }

  /** Under Deallocate's checks every pass of the index loop takes
      CheckedState to the next. */
  lemma PassesUnderChecks(h: Header, b0: seq<bool>, disk: map<int, seq<int>>, rec: seq<int>,
                          states: seq<seq<bool>>)
    requires Shaped(h) && NumPrimarySector < h.numSectors <= MaxDataSectors && |rec| == Needed(h.numSectors)
    requires IndexSectorsList(h.numSectors, h.secondary, disk, rec) && MarkedOnce(b0, rec)
    requires states == seq(IndexSectors(h.numSectors) + 1, k => CheckedState(b0, rec, h.numSectors, k))
    ensures forall j :: 0 <= j < IndexSectors(h.numSectors) ==> PassTakes(h, disk, states, j)
  {
    forall j | 0 <= j < IndexSectors(h.numSectors) ensures PassTakes(h, disk, states, j) {
      PassUnderChecksAt(h, b0, disk, rec, states, j);
    }
  }

  /** Deallocate of a file with index sectors: the direct sectors, then the index loop. */
  lemma DeallocateIndexed(h: Header, bits: seq<bool>, disk: map<int, seq<int>>, r1: Freed, rest: int)
    requires Shaped(h) && NumPrimarySector < h.numSectors <= MaxDataSectors
    requires r1 == ClearFrom(bits, h.primary, 0) && rest == h.numSectors - NumPrimarySector
    ensures Deallocate(h, bits, disk) == if r1.ok then ClearIndexFrom(h, r1.freeMap, disk, 0, rest) else r1
  {
  }

  /** DeallocateOkClearsRecorded for a file with index sectors, whose sectors are `rec`. */
  lemma IndexLoopOk(h: Header, bits: seq<bool>, disk: map<int, seq<int>>, rec: seq<int>)
    requires Shaped(h) && NumPrimarySector < h.numSectors <= MaxDataSectors && |rec| == Needed(h.numSectors)
    requires IndexSectorsList(h.numSectors, h.secondary, disk, rec) && h.primary == rec[..NumPrimarySector]
    ensures var r := Deallocate(h, bits, disk);
            r.ok ==> (forall x :: x in Elements(rec) ==> InUse(bits, x)) && r.freeMap == Unmarked(bits, Elements(rec))
  {
    var n := h.numSectors;
    var r1 := ClearFrom(bits, h.primary, 0);
    ClearFromOkAll(bits, h.primary);
    var rest := n - NumPrimarySector;
    assert RestFor(n, 0) == rest;
    ClearIndexFromOk(h, r1.freeMap, disk, rec, 0, rest);
    var later := StillToClear(rec, n, 0, rest);
    RecordedSplit(rec, n, h.primary);
    DeallocateIndexed(h, bits, disk, r1, rest);
    if Deallocate(h, bits, disk).ok {
      ClearedInTurn(bits, Elements(h.primary), r1.freeMap, later, Elements(rec));
    }
  }

  /** Deallocate gets to the end only if every sector the header accounts
      for was in use, and then it has cleared exactly those. */
  lemma DeallocateOkClearsRecorded(h: Header, bits: seq<bool>, disk: map<int, seq<int>>)
    requires Shaped(h) && h.numSectors <= MaxDataSectors
    ensures var r := Deallocate(h, bits, disk);
            r.ok ==> (forall x :: x in Recorded(h, disk) ==> InUse(bits, x)) &&
                     r.freeMap == Unmarked(bits, Elements(Recorded(h, disk)))
  {
    var n, rec := h.numSectors, Recorded(h, disk);
    if n <= NumPrimarySector {
      var count := if n < 0 then 0 else n;
      assert h.primary[..count] == rec;
      ClearFromOkAll(bits, rec);
    } else {
      IndexSectorsListed(h, disk);
      assert h.primary == rec[..NumPrimarySector];
      IndexLoopOk(h, bits, disk, rec);
    }
    forall x | x in rec && Deallocate(h, bits, disk).ok ensures InUse(bits, x) {
      assert x in Elements(rec);
    }
  }

  /** The recorded sectors are the direct ones and those the index loop
      has to clear. */
  lemma RecordedSplit(rec: seq<int>, n: int, direct: seq<int>)
    requires NumPrimarySector <= n <= |rec| && direct == rec[..NumPrimarySector]
    ensures Elements(rec) == Elements(direct) + StillToClear(rec, n, 0, n - NumPrimarySector)
  {
    ElementsSplit(rec, 0, NumPrimarySector, n);
    ElementsSplit(rec, 0, n, |rec|);
    assert rec[0..NumPrimarySector] == rec[..NumPrimarySector] && rec[0..|rec|] == rec && rec[n..] == rec[n..|rec|];
  }

  /** Under the checks, the loop over the index sectors clears every sector the header records. */
  lemma IndexLoopUnderChecks(h: Header, b0: seq<bool>, disk: map<int, seq<int>>, rec: seq<int>)
    requires Shaped(h) && NumPrimarySector < h.numSectors <= MaxDataSectors && |rec| == Needed(h.numSectors)
    requires IndexSectorsList(h.numSectors, h.secondary, disk, rec) && MarkedOnce(b0, rec)
    ensures ClearIndexFrom(h, Cleared(b0, rec, NumPrimarySector, h.numSectors, h.numSectors), disk, 0,
                           h.numSectors - NumPrimarySector)
         == Freed(true, Cleared(b0, rec, h.numSectors, h.numSectors, |rec|))
  {
    var n := h.numSectors;
    var states := seq(IndexSectors(n) + 1, k => CheckedState(b0, rec, n, k));
    PassesUnderChecks(h, b0, disk, rec, states);
    ClearIndexFromRuns(h, disk, states, 0);
    CheckedStateIs(b0, rec, n, 0, NumPrimarySector, n);
    CheckedStateIs(b0, rec, n, IndexSectors(n), n, |rec|);
    assert states[0] == CheckedState(b0, rec, n, 0);
    assert states[IndexSectors(n)] == CheckedState(b0, rec, n, IndexSectors(n));
    ClearIndexFromRest(h, states[0], disk, 0, RestFor(n, 0), n - NumPrimarySector);
  }

  /** ClearIndexFrom depends on `rest` only through its value. */
  lemma ClearIndexFromRest(h: Header, bits: seq<bool>, disk: map<int, seq<int>>, i: nat, rest: int, rest': int)
    requires Shaped(h) && h.numSectors <= MaxDataSectors && 0 <= rest && rest == rest'
    ensures ClearIndexFrom(h, bits, disk, i, rest) == ClearIndexFrom(h, bits, disk, i, rest')
  {
  }

  /** Under its checks (in particular after a successful Allocate) every
      ASSERT of Deallocate passes, and it clears exactly the sectors the
      header accounts for. */
  lemma DeallocateUnderChecks(h: Header, bits: seq<bool>, disk: map<int, seq<int>>)
    requires Shaped(h) && h.numSectors <= MaxDataSectors && DeallocateChecks(h, bits, disk)
    ensures Deallocate(h, bits, disk) == Freed(true, Unmarked(bits, Elements(Recorded(h, disk))))
  {
    var n, rec := h.numSectors, Recorded(h, disk);
    if n <= NumPrimarySector {
      var count := if n < 0 then 0 else n;
      assert h.primary[..count] == rec;
      assert rec[0..] == rec;
      ClearFromMarked(bits, rec, 0);
      ClearFromOk(bits, rec, 0);
    } else {
      DirectSectorsMarked(h, disk, bits);
      IndexSectorsListed(h, disk);
      IndexedUnderChecks(h, bits, disk, rec);
    }
  }

  /** DeallocateUnderChecks for a file with index sectors, whose sectors are `rec`. */
  lemma IndexedUnderChecks(h: Header, bits: seq<bool>, disk: map<int, seq<int>>, rec: seq<int>)
    requires Shaped(h) && NumPrimarySector < h.numSectors <= MaxDataSectors && |rec| == Needed(h.numSectors)
    requires IndexSectorsList(h.numSectors, h.secondary, disk, rec) && h.primary == rec[..NumPrimarySector]
    requires Distinct(h.primary) && forall x :: x in h.primary ==> 0 <= x < |bits| && bits[x]
    requires Distinct(rec) && forall x :: x in rec ==> 0 <= x < |bits| && bits[x]
    ensures Deallocate(h, bits, disk) == Freed(true, Unmarked(bits, Elements(rec)))
  {
    var n := h.numSectors;
    assert h.primary[0..] == h.primary;
    ClearFromMarked(bits, h.primary, 0);
    ClearFromOk(bits, h.primary, 0);
    ClearedDirect(bits, rec, n);
    MarkedOnceIff(bits, rec);
    IndexLoopUnderChecks(h, bits, disk, rec);
    ClearedAll(bits, rec, n);
  }

  /** The checks are not all Deallocate's ASSERTs allow: an index sector that
      lists its own number passes them, since it is tested first and cleared
      last. Here a six-sector file's index sector 5 names itself as the
      sixth data sector, and Deallocate clears the whole bitmap. */
  lemma DeallocateToleratesSelfListing()
    ensures var h := Header(6 * SectorSize, 6, [0, 1, 2, 3, 4], [5, 0, 0, 0, 0]);
            var disk := map[5 := [5] + seq(IntsPerSector - 1, _ => 0)];
            var bits := [true, true, true, true, true, true];
            !DeallocateChecks(h, bits, disk) && Deallocate(h, bits, disk) == Freed(true, [false, false, false, false, false, false])
  {
    var h := Header(6 * SectorSize, 6, [0, 1, 2, 3, 4], [5, 0, 0, 0, 0]);
    var disk := map[5 := [5] + seq(IntsPerSector - 1, _ => 0)];
    var bits := [true, true, true, true, true, true];
    var b1 := [false, false, false, false, false, true];
    var b2 := [false, false, false, false, false, false];
    assert ClearFrom(bits, [0, 1, 2, 3, 4], 0) == Freed(true, b1);
    assert ClearIndexFrom(h, b2, disk, 1, 0) == Freed(true, b2);
    assert SectorContents(disk, 5)[..Filled(1)] == [5];
    assert ClearFrom(b1, [5], 0) == Freed(true, b2);
    assert IndexPass(h, b1, disk, 0, 1) == Freed(true, b2);
    assert ClearIndexFrom(h, b1, disk, 0, 1) == Freed(true, b2);
    var rec := Recorded(h, disk);
    assert SlotOf(5) == Indirect(0, 0);
    assert rec[5] == 5 && rec[6] == 5;
  }

  /** Clearing the bits of `s`, all set and none repeated, adds |s| clear bits. */
  lemma {:induction false} UnmarkedCount(bits: seq<bool>, s: seq<int>)
    requires Distinct(s) && forall x :: x in s ==> 0 <= x < |bits| && bits[x]
    ensures CountClear(Unmarked(bits, Elements(s))) == CountClear(bits) + |s|
  {
    if s != [] {
      var init := s[..|s| - 1];
      var x := s[|s| - 1];
      assert forall y :: y in init ==> y in s;
      UnmarkedCount(bits, init);
      var before := Unmarked(bits, Elements(init));
      assert x !in init;
      assert Elements(s) == Elements(init) + {x};
      assert Unmarked(bits, Elements(s)) == before[x := false];
      assert before[x := false][x := true] == before;
      CountClearSet(before[x := false], x);
    } else {
      assert Unmarked(bits, Elements(s)) == bits;
    }
  }

  /** Deallocate frees every sector the header accounts for, changes no
      other bit, and adds Needed(numSectors) clear bits. */
  lemma DeallocateFrees(h: Header, bits: seq<bool>, disk: map<int, seq<int>>)
    requires Shaped(h) && h.numSectors <= MaxDataSectors && DeallocateChecks(h, bits, disk)
    ensures var r := Deallocate(h, bits, disk).freeMap;
            (forall x :: x in Recorded(h, disk) ==> !r[x]) &&
            (forall i :: 0 <= i < |bits| && i !in Recorded(h, disk) ==> r[i] == bits[i]) &&
            CountClear(r) == CountClear(bits) + Needed(h.numSectors)
  {
    DeallocateUnderChecks(h, bits, disk);
    UnmarkedCount(bits, Recorded(h, disk));
  }

  // ExtentAllocate

  /** Whether Find has anything to hand out. */
  lemma FindFailsOnlyWhenFull(bits: seq<bool>)
    ensures FirstClear(bits) == -1 <==> CountClear(bits) == 0
  {
    FirstClearIsLowest(bits);
    CountClearZero(bits);
  }

  /** `after` has `k` fewer clear bits than `before` when `ok`, none at all
      otherwise, and keeps every bit `before` had set. */
  predicate Took(before: seq<bool>, after: seq<bool>, k: int, ok: bool) {
    |after| == |before| &&
    (ok ==> CountClear(after) == CountClear(before) - k) &&
    (!ok ==> CountClear(after) == 0) &&
    (forall i :: 0 <= i < |before| && before[i] ==> after[i])
  }

  lemma AddEntryTakes(h: Header, bits: seq<bool>, disk: map<int, seq<int>>, v: int, buffer: seq<int>)
    requires Shaped(h) && NumPrimarySector <= v < MaxDataSectors && |buffer| == NumDirectPerSector
    ensures var r := AddEntry(h, bits, disk, v, buffer);
            Took(bits, r.freeMap, 1, r.ok)
  {
    var t := Take(bits);
    TakeCounts(bits);
    if t.0 != -1 {
      assert t.1 == bits[t.0 := true];
    }
  }

  /** One pass of the loop takes one data sector, plus one index sector when
      `v` starts an index sector, and fails only when the bitmap is full. */
  lemma ExtendSectorTakes(h: Header, bits: seq<bool>, disk: map<int, seq<int>>, v: int)
    requires Shaped(h) && 0 <= v < MaxDataSectors
    ensures var r := ExtendSector(h, bits, disk, v);
            Took(bits, r.freeMap, if StartsIndexSector(v) then 2 else 1, r.ok)
  {
    var r := ExtendSector(h, bits, disk, v);
    var t := Take(bits);
    TakeCounts(bits);
    if v < NumPrimarySector {
      assert r.freeMap == t.1 && (r.ok <==> t.0 != -1);
    } else if StartsIndexSector(v) {
      if t.0 != -1 {
        var zeros := seq(NumDirectPerSector, _ => 0);
        var rest := v - NumPrimarySector;
        var h1 := if rest < NumSecondarySector then h.(secondary := h.secondary[rest := t.0]) else h;
        assert r == AddEntry(h1, t.1, disk, v, zeros);
        AddEntryTakes(h1, t.1, disk, v, zeros);
      }
    } else {
      var buffer := SectorContents(disk, h.secondary[(v - NumPrimarySector) / NumDirectPerSector]);
      assert r == AddEntry(h, bits, disk, v, buffer);
      AddEntryTakes(h, bits, disk, v, buffer);
    }
  }

  /** Crossing virtual sector `w` adds an index sector exactly when `w`
      starts one. */
  lemma IndexSectorsStep(w: int)
    requires 0 <= w
    ensures Needed(w + 1) == Needed(w) + 1 + (if StartsIndexSector(w) then 1 else 0)
  {
    if w > NumPrimarySector {
      var k0 := IndexSectors(w);
      var k1 := IndexSectors(w + 1);
      assert k0 <= k1 <= k0 + 1;
      assert k1 == k0 + 1 <==> w - NumPrimarySector == NumDirectPerSector * k0;
    }
  }

  lemma TookInTurn(a: seq<bool>, b: seq<bool>, c: seq<bool>, k: int, l: int, ok: bool)
    requires Took(a, b, k, true) && Took(b, c, l, ok)
    ensures Took(a, c, k + l, ok)
  {
  }

  /** What ExtendFromTakes states about a run `r` of the loop from `v`. */
  predicate LoopTook(h: Header, bits: seq<bool>, v: int, newNumSectors: int, r: FileOp) {
    r.header.numBytes == h.numBytes &&
    (r.ok ==> r.header.numSectors == newNumSectors) &&
    (!r.ok ==> r.header.numSectors == h.numSectors) &&
    Took(bits, r.freeMap, Needed(newNumSectors) - Needed(v), r.ok)
  }

  /** ExtentAllocate's loop: a complete run sets the sector count and takes
      Needed(newNumSectors) - Needed(v) sectors; a run cut short keeps the
      old count and leaves the bitmap full. */
  lemma {:induction false} ExtendFromTakes(
    h: Header, bits: seq<bool>, disk: map<int, seq<int>>, v: int, newNumSectors: int)
    requires Shaped(h) && 0 <= v <= newNumSectors <= MaxDataSectors
    ensures LoopTook(h, bits, v, newNumSectors, ExtendFrom(h, bits, disk, v, newNumSectors))
    decreases newNumSectors - v
  {
    var r := ExtendFrom(h, bits, disk, v, newNumSectors);
    if v < newNumSectors {
      var step := ExtendSector(h, bits, disk, v);
      ExtendSectorTakes(h, bits, disk, v);
      if step.ok {
        assert r == ExtendFrom(step.header, step.freeMap, step.disk, v + 1, newNumSectors);
        ExtendFromTakes(step.header, step.freeMap, step.disk, v + 1, newNumSectors);
        assert LoopTook(step.header, step.freeMap, v + 1, newNumSectors, r);
        IndexSectorsStep(v);
        TookInTurn(bits, step.freeMap, r.freeMap, if StartsIndexSector(v) then 2 else 1,
                   Needed(newNumSectors) - Needed(v + 1), r.ok);
      }
    } else {
      assert r.freeMap == bits;
    }
  }

  /** Past the free end of the last sector, ExtentAllocate is its loop. */
  lemma ExtentAllocateRunsLoop(h: Header, bits: seq<bool>, disk: map<int, seq<int>>, fileSize: int)
    requires Shaped(h) && ExtentFits(h, fileSize)
    requires fileSize - (SectorSize - CMod(h.numBytes, SectorSize)) > 0
    ensures var extBytes := fileSize - (SectorSize - CMod(h.numBytes, SectorSize));
            ExtentAllocate(h, bits, disk, fileSize)
            == ExtendFrom(h.(numBytes := h.numBytes + fileSize), bits, disk, h.numSectors,
                          h.numSectors + DivRoundUp(extBytes, SectorSize))
  {
  }

  /** When the growth fits in what ExtentAllocate takes to be the free end
      of the last sector, it only adds `fileSize` to the length. */
  lemma ExtentAllocateWithinSlack(h: Header, bits: seq<bool>, disk: map<int, seq<int>>, fileSize: int)
    requires Shaped(h)
    requires fileSize - (SectorSize - CMod(h.numBytes, SectorSize)) <= 0
    ensures ExtentFits(h, fileSize)
    ensures ExtentAllocate(h, bits, disk, fileSize)
            == FileOp(true, h.(numBytes := h.numBytes + fileSize), bits, disk)
  {
  }

  /** A header left with a negative count by Allocate of a negative size
      still grows within the slack: with numBytes == -300, C's remainder is
      -44, so 100 more bytes give extBytes == -72 and only the length
      changes. */
  lemma ExtentAllocateNegativeCount(h: Header, bits: seq<bool>, disk: map<int, seq<int>>)
    requires Shaped(h) && h.numBytes == -300 && h.numSectors == -2
    ensures ExtentFits(h, 100)
    ensures ExtentAllocate(h, bits, disk, 100) == FileOp(true, h.(numBytes := -200), bits, disk)
  {
    assert CMod(h.numBytes, SectorSize) == -44;
  }

  /** Otherwise ExtentAllocate adds `fileSize` to the length; on success
      the file has DivRoundUp(extBytes, SectorSize) more data sectors and
      the bitmap exactly the extra data and index sectors more in use; on
      failure the count of data sectors is unchanged and the bitmap is full. */
  lemma ExtentAllocateAccounting(h: Header, bits: seq<bool>, disk: map<int, seq<int>>, fileSize: int)
    requires Shaped(h) && ExtentFits(h, fileSize)
    requires fileSize - (SectorSize - CMod(h.numBytes, SectorSize)) > 0
    ensures var r := ExtentAllocate(h, bits, disk, fileSize);
            var extBytes := fileSize - (SectorSize - CMod(h.numBytes, SectorSize));
            var newNumSectors := h.numSectors + DivRoundUp(extBytes, SectorSize);
            r.header.numBytes == h.numBytes + fileSize &&
            (r.ok ==> r.header.numSectors == newNumSectors) &&
            (!r.ok ==> r.header.numSectors == h.numSectors) &&
            Took(bits, r.freeMap, Needed(newNumSectors) - Needed(h.numSectors), r.ok)
  {
    var extBytes := fileSize - (SectorSize - CMod(h.numBytes, SectorSize));
    ExtentAllocateRunsLoop(h, bits, disk, fileSize);
    ExtendFromTakes(h.(numBytes := h.numBytes + fileSize), bits, disk, h.numSectors,
                    h.numSectors + DivRoundUp(extBytes, SectorSize));
  }

  /** When the length is not a multiple of SectorSize and the sector count
      covers it, a successful ExtentAllocate keeps the count covering the
      new length. */
  lemma ExtentAllocateCoversLength(h: Header, bits: seq<bool>, disk: map<int, seq<int>>, fileSize: int)
    requires Shaped(h) && ExtentFits(h, fileSize)
    requires 0 <= h.numBytes && 0 <= fileSize && CMod(h.numBytes, SectorSize) != 0
    requires h.numSectors == DivRoundUp(h.numBytes, SectorSize)
    requires ExtentAllocate(h, bits, disk, fileSize).ok
    ensures var r := ExtentAllocate(h, bits, disk, fileSize);
            r.header.numSectors == DivRoundUp(r.header.numBytes, SectorSize)
  {
    var q := h.numBytes / SectorSize;
    var rem := h.numBytes % SectorSize;
    assert h.numSectors == q + 1;
    var extBytes := fileSize - (SectorSize - rem);
    assert h.numBytes + fileSize == (q + 1) * SectorSize + extBytes;
    if extBytes > 0 {
      ExtentAllocateAccounting(h, bits, disk, fileSize);
      var e := DivRoundUp(extBytes, SectorSize);
      assert (e - 1) * SectorSize < extBytes <= e * SectorSize;
      assert (q + e) * SectorSize < h.numBytes + fileSize <= (q + 1 + e) * SectorSize;
      DivRoundUpUnique(h.numBytes + fileSize, q + 1 + e);
    } else {
      ExtentAllocateWithinSlack(h, bits, disk, fileSize);
      assert q * SectorSize < h.numBytes + fileSize <= (q + 1) * SectorSize;
      DivRoundUpUnique(h.numBytes + fileSize, q + 1);
    }
  }

  /** The only `q` with `(q - 1) * SectorSize < n <= q * SectorSize`. */
  lemma DivRoundUpUnique(n: int, q: int)
    requires 0 < n && (q - 1) * SectorSize < n <= q * SectorSize
    ensures DivRoundUp(n, SectorSize) == q
  {
    var d := DivRoundUp(n, SectorSize);
    assert (d - 1) * SectorSize < n <= d * SectorSize;
  }

  /** As written, when the length is a multiple of SectorSize (an empty file
      included) ExtentAllocate takes the last sector to have SectorSize free
      bytes: growing by up to SectorSize bytes allocates nothing, so the
      sector count no longer covers the length. */
  lemma ExtentAllocateAtSectorBoundary(h: Header, bits: seq<bool>, disk: map<int, seq<int>>, fileSize: int)
    requires Shaped(h)
    requires CMod(h.numBytes, SectorSize) == 0 && 0 < fileSize <= SectorSize
    ensures ExtentFits(h, fileSize)
    ensures ExtentAllocate(h, bits, disk, fileSize)
            == FileOp(true, h.(numBytes := h.numBytes + fileSize), bits, disk)
    ensures 0 <= h.numBytes && h.numSectors == DivRoundUp(h.numBytes, SectorSize) ==>
              h.numSectors < DivRoundUp(h.numBytes + fileSize, SectorSize)
  {
    if 0 <= h.numBytes && h.numSectors == DivRoundUp(h.numBytes, SectorSize) {
      var q := h.numBytes / SectorSize;
      assert h.numBytes == q * SectorSize;
      if q > 0 {
        DivRoundUpUnique(h.numBytes, q);
      }
      DivRoundUpUnique(h.numBytes + fileSize, q + 1);
    }
  }

  /** As written, the second index sector is lost: growing a 37-sector file
      by one sector takes a fresh index sector from the bitmap but stores it
      at `secondary[32]`, outside the table, so the header still names the
      old `secondary[1]`, and the new entry is written there. */
  lemma ExtentSecondIndexSectorIsLost(h: Header, bits: seq<bool>, disk: map<int, seq<int>>)
    requires Shaped(h) && h.numSectors == 37 && h.numBytes == 37 * SectorSize - 1
    requires 2 <= CountClear(bits)
    ensures ExtentFits(h, SectorSize)
    ensures var r := ExtentAllocate(h, bits, disk, SectorSize);
            var f := FirstClear(bits);
            0 <= f < |bits| && !bits[f] &&
            var g := FirstClear(bits[f := true]);
            0 <= g < |bits| && !bits[g] && g != f &&
            r.ok && r.header.numSectors == 38 &&
            r.header.secondary == h.secondary &&
            r.freeMap == bits[f := true][g := true] &&
            r.disk == disk[h.secondary[1] := seq(NumDirectPerSector, _ => 0)[0 := g]]
  {
    var f := FirstClear(bits);
    FindFailsOnlyWhenFull(bits);
    CountClearSet(bits, f);
    FindFailsOnlyWhenFull(bits[f := true]);
    var g := FirstClear(bits[f := true]);
    assert CMod(h.numBytes, SectorSize) == SectorSize - 1;
    assert DivRoundUp(SectorSize - 1, SectorSize) == 1;
    assert StartsIndexSector(37);
    var grown := h.(numBytes := h.numBytes + SectorSize);
    assert ExtentAllocate(h, bits, disk, SectorSize) == ExtendFrom(grown, bits, disk, 37, 38);
    var step := ExtendSector(grown, bits, disk, 37);
    assert step == FileOp(true, grown, bits[f := true][g := true],
                          disk[h.secondary[1] := seq(NumDirectPerSector, _ => 0)[0 := g]]);
  }

  /** Allocate's calls of Find for index sector `i` and its entries end
      where those for the next index sector begin, or at the last call. */
  lemma IndexBlockEnd(n: int, i: int)
    requires 0 <= i < IndexSectors(n)
    ensures 0 < EntriesIn(n, i) <= NumDirectPerSector
    ensures EntriesIn(n, i) == if n - NumPrimarySector - NumDirectPerSector * i < NumDirectPerSector
                               then n - NumPrimarySector - NumDirectPerSector * i else NumDirectPerSector
    ensures IndexPos(i) + 1 + EntriesIn(n, i) ==
              if i + 1 < IndexSectors(n) then IndexPos(i + 1) else Needed(n)
  {
  }
}
