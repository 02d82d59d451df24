/** The simulated disk as the core sees it (disk.h and synchdisk.h are not
    part of this model): its sector size, and a synchronous sector store that
    holds the secondary index sectors of file headers as arrays of sector
    numbers. */
module Disk {

  /** Bytes per disk sector (Nachos' SectorSize). */
  const SectorSize: int := 128

  /** sizeof(int) on the simulated host. */
  const IntSize: int := 4

  /** How many sector numbers one sector holds: SectorSize / IntSize. */
  const IntsPerSector: int := 32

  /** The content a read of `sector` returns from the store `sectors`. */
  function SectorContents(sectors: map<int, seq<int>>, sector: int): (r: seq<int>)
    ensures |r| == IntsPerSector
    ensures sector in sectors && |sectors[sector]| == IntsPerSector ==> r == sectors[sector]
  {
    if sector in sectors && |sectors[sector]| == IntsPerSector then sectors[sector]
    else seq(IntsPerSector, _ => 0)
  }

  /** SynchDisk: reads and writes whole sectors. Only the index sectors that
      file headers write are kept; a sector never written reads as zeros. */
  class SynchDisk {
    var sectors: map<int, seq<int>>

    constructor ()
      ensures sectors == map[]
    {
      sectors := map[];
    }

    method ReadSector(sector: int) returns (data: seq<int>)
      ensures data == SectorContents(sectors, sector)
    {
      data := SectorContents(sectors, sector);
    }

    method WriteSector(sector: int, data: seq<int>)
      requires |data| == IntsPerSector
      modifies this
      ensures sectors == old(sectors)[sector := data]
    {
      sectors := sectors[sector := data];
    }
  }
}
