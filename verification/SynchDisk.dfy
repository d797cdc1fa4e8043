/** filesys/synchdisk.h over machine/disk.h: NumSectors sectors of SectorSize bytes, read and written whole and one
    at a time. */
module SynchDisks {
  import opened Words

  const SECTOR_SIZE := 4096
  const NUM_SECTORS := 1024

  type Sector = s: seq<byte> | |s| == 4096 witness seq(4096, _ => 0)

  class SynchDisk {
    var sectors: seq<Sector>

    ghost predicate Valid()
      reads this
    {
      |sectors| == NUM_SECTORS
    }

    constructor (image: seq<Sector>)
      requires |image| == NUM_SECTORS
      ensures Valid() && sectors == image
    {
      sectors := image;
    }

    method ReadSector(n: int, into: array<byte>, at: nat)
      requires Valid() && 0 <= n < NUM_SECTORS
      requires at + SECTOR_SIZE <= into.Length
      modifies into
      ensures forall k :: 0 <= k < into.Length ==>
                into[k] == if at <= k < at + SECTOR_SIZE then sectors[n][k - at] else old(into[k])
    {
      forall k | 0 <= k < SECTOR_SIZE {
        into[at + k] := sectors[n][k];
      }
    }

    method WriteSector(n: int, from: array<byte>, at: nat)
      requires Valid() && 0 <= n < NUM_SECTORS
      requires at + SECTOR_SIZE <= from.Length
      modifies this
      ensures Valid() && sectors == old(sectors)[n := from[at..at + SECTOR_SIZE]]
    {
      sectors := sectors[n := from[at..at + SECTOR_SIZE]];
    }
  }
}
