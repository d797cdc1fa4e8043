/** filesys/filesys.cc: format, Create, Open and Remove over a disk. */
module FileSystems {
  import opened Words
  import opened BitMaps
  import opened SynchDisks
  import opened FileHeaders
  import opened OpenFiles
  import opened Directories
  import opened Volumes
  import opened FsLaws

  /** BitMap::FetchFrom and BitMap::WriteBack, which filesys.cc calls: the map's words are the file's bytes. */
  method FetchMap(bits: BitMap, file: OpenFile)
    requires bits.Valid() && bits.numBits == NUM_SECTORS && file.Valid() && file.hdr.numBytes == FREE_MAP_FILE_SIZE
    modifies bits.words
    ensures bits.Bits() == SpelledMap(file.Bytes())
  {
    var raw := new byte[4 * bits.words.Length];
    var _ := file.ReadAt(raw, 0, raw.Length, 0);
    assert raw[..] == file.Bytes();
    var ws := BytesToWords(raw[..]);
    forall i | 0 <= i < bits.words.Length {
      bits.words[i] := ws[i];
    }
    assert bits.words[..] == ws;
  }

  method WriteMap(bits: BitMap, file: OpenFile)
    requires bits.Valid() && bits.numBits == NUM_SECTORS
    requires file.Valid() && file.hdr.numBytes == FREE_MAP_FILE_SIZE && file.hdr.Value().Distinct()
    modifies file.disk
    ensures file.Valid() && SpelledMap(file.Bytes()) == bits.Bits()
    ensures WritesOnly(old(file.disk.sectors), file.disk.sectors, file.hdr.Value().Blocks())
  {
    var raw := WordsToBytes(bits.words[..]);
    var _ := file.WriteAt(raw, |raw|, 0);
    assert file.Bytes() == raw;
    WordsRoundTrip(bits.words[..]);
  }

  /** What Create has built in memory when nothing stands in its way: a header over first-fit sectors,
      the directory with the name in its first free slot, and the map with exactly those sectors marked. */
  ghost predicate Reserved(bits: seq<bool>, table: seq<DirEntry>, key: seq<byte>, size: int32, sector: int,
                           h: Header, bits2: seq<bool>, table2: seq<DirEntry>)
  {
    var i, n, q := FreeSlot(table), SectorsNeeded(size), [sector] + h.Blocks();
    && i < |table| == |table2| && table2 == table[i := table2[i]]
    && table2[i].inUse && table2[i].Key() == key && table2[i].sector == sector && 0 <= sector < NUM_SECTORS
    && h.WellFormed() && h.numBytes == size
    && n <= CountClear(bits) && q == Picks(bits, n) && bits2 == Painted(bits, q, true)
  }

  lemma ReservedSector(bits: seq<bool>, table: seq<DirEntry>, key: seq<byte>, size: int32, sector: int,
                       h: Header, bits2: seq<bool>, table2: seq<DirEntry>)
    requires Reserved(bits, table, key, size, sector, h, bits2, table2)
    ensures 0 <= sector < NUM_SECTORS && h.WellFormed()
  {
  }

  lemma ReservedHeader(bits: seq<bool>, h: Header, sector: int, n: nat)
    requires |bits| == NUM_SECTORS && 0 < n <= CountClear(bits) && [sector] + h.Blocks() == Picks(bits, n)
    requires |h.dataSectors| == NUM_DIRECT && h.numSectors == DivRoundUp(h.numBytes, SECTOR_SIZE)
             && h.numSectors <= NUM_DIRECT
    ensures h.WellFormed() && 0 <= sector < NUM_SECTORS
  {
    PicksAreFresh(bits, n);
    var q: seq<int> := [sector] + h.Blocks();
    assert q[0] == sector;
    assert forall i :: 0 <= i < h.numSectors ==> h.dataSectors[i] == q[i + 1];
  }

  lemma WritesAgree(d1: Image, d2: Image, d3: Image, d4: Image, h: Header, sector: int)
    requires Rooted(d1) && |d3| == |d4| == NUM_SECTORS && 0 <= sector < NUM_SECTORS && |h.dataSectors| == NUM_DIRECT
    requires d2 == d1[sector := HeaderSector(h)]
    requires WritesOnly(d2, d3, HeaderAt(d1, 1).Blocks())
    requires WritesOnly(d3, d4, HeaderAt(d1, 0).Blocks())
    requires sector !in HeaderAt(d1, 0).Blocks() && sector !in HeaderAt(d1, 1).Blocks()
    ensures AgreeBut(d1, d4, [sector] + h.Blocks())
    ensures d4[sector] == HeaderSector(h)
  {
    hide SectorHeader, HeaderSector, Header.Blocks;
    assert ([sector] + h.Blocks())[0] == sector;
  }

  lemma SecondWriteSpares(d1: Image, d3: Image, d4: Image)
    requires Sound(d1) && |d3| == |d4| == NUM_SECTORS && WritesOnly(d3, d4, HeaderAt(d1, 0).Blocks())
    ensures FileBytes(d3, HeaderAt(d1, 1)) == FileBytes(d4, HeaderAt(d1, 1))
  {
    hide FileBytes, SectorHeader, Table, FreeMap;
    RootsIsolated(d1);
    FileBytesFrame(d3, d4, HeaderAt(d1, 1));
  }

  /** The three writes of a successful Create -- new header, directory, free map -- seen as one change of the disk. */
  lemma CreateWrites(d1: Image, d2: Image, d3: Image, d4: Image, h: Header, key: seq<byte>, sector: int,
                     bits2: seq<bool>, table2: seq<DirEntry>)
    requires Sound(d1) && |d3| == |d4| == NUM_SECTORS && !HasKey(Table(d1), key)
    requires Reserved(FreeMap(d1), Table(d1), key, h.numBytes, sector, h, bits2, table2)
    requires d2 == d1[sector := HeaderSector(h)]
    requires WritesOnly(d2, d3, HeaderAt(d1, 1).Blocks())
    requires WritesOnly(d3, d4, HeaderAt(d1, 0).Blocks())
    requires SpelledTable(FileBytes(d3, HeaderAt(d1, 1))) == table2
    requires SpelledMap(FileBytes(d4, HeaderAt(d1, 0))) == bits2
    ensures Created(d1, d4, key, h.numBytes)
    ensures HeaderAt(d4, 0) == HeaderAt(d1, 0) && HeaderAt(d4, 1) == HeaderAt(d1, 1)
  {
    hide FileBytes, SectorHeader, HeaderSector, Picks, Painted, SpelledMap, SpelledTable, DivRoundUp, AgreeBut, Sound,
      Created, Avoids, RootOwns, Owned, CountClear, WritesOnly, HasKey;
    RootFilesAreSound(d1);
    var q: seq<int>, i := [sector] + h.Blocks(), FreeSlot(Table(d1));
    RootsIsolated(d1);
    RootHeadersOwned(d1);
    PicksUnowned(d1, SectorsNeeded(h.numBytes));
    PicksAreFresh(FreeMap(d1), SectorsNeeded(h.numBytes));
    assert q[0] == sector;
    assert sector in q && sector !in HeaderAt(d1, 0).Blocks() && sector !in HeaderAt(d1, 1).Blocks();
    WritesAgree(d1, d2, d3, d4, h, sector);
    HeaderRoundTrip(h);
    RootHeadersKept(d1, d4, q);
    SecondWriteSpares(d1, d3, d4);
    CreateKeepsSound(d1, d4, i, table2[i], q);
  }

  /** The two writes of a Remove -- free map, directory -- seen as one change of the disk. */
  lemma RemoveWrites(d1: Image, d2: Image, d3: Image, key: seq<byte>, bits2: seq<bool>, table2: seq<DirEntry>)
    requires Sound(d1) && |d2| == |d3| == NUM_SECTORS && HasKey(Table(d1), key)
    requires bits2 == Painted(FreeMap(d1), SectorsOf(d1, key), false)
    requires var i := IndexFor(Table(d1), key); table2 == Table(d1)[i := Table(d1)[i].(inUse := false)]
    requires WritesOnly(d1, d2, HeaderAt(d1, 0).Blocks())
    requires WritesOnly(d2, d3, HeaderAt(d1, 1).Blocks())
    requires SpelledMap(FileBytes(d2, HeaderAt(d1, 0))) == bits2
    requires SpelledTable(FileBytes(d3, HeaderAt(d1, 1))) == table2
    ensures Removed(d1, d3, key)
    ensures HeaderAt(d3, 0) == HeaderAt(d1, 0) && HeaderAt(d3, 1) == HeaderAt(d1, 1)
  {
    hide FileBytes, SectorHeader, Painted, SpelledMap, SpelledTable, TableOwns, Owned, IndexFor;
    RootsIsolated(d1);
    RootHeadersKept(d1, d3, []);
    FileBytesFrame(d2, d3, HeaderAt(d1, 0));
    RemoveKeepsSound(d1, d3, key);
  }

  /** A disk whose directory is empty and whose map marks the two headers and their one data sector each is sound. */
  lemma FormattedIsSound(d: Image)
    requires Rooted(d) && HeaderAt(d, 0).Blocks() == [2] && HeaderAt(d, 1).Blocks() == [3]
    requires forall i :: 0 <= i < NUM_DIR_ENTRIES ==> !Table(d)[i].inUse
    requires forall s :: 0 <= s < NUM_SECTORS ==> (FreeMap(d)[s] <==> s < 4)
    ensures Sound(d)
  {
    hide Table, FreeMap, SectorHeader;
    NothingOwned(d, Table(d));
    assert RootOwns(d) == multiset{0, 1, 2, 3};
  }

  lemma {:induction false} NothingOwned(d: Image, table: seq<DirEntry>)
    requires |d| == NUM_SECTORS && forall i :: 0 <= i < |table| ==> !table[i].inUse
    ensures TableOwns(d, table) == multiset{}
    decreases |table|
  {
    if table != [] {
      NothingOwned(d, table[..|table| - 1]);
    }
  }

  class FileSystem {
    const disk: SynchDisk
    const freeMapFile: OpenFile
    const directoryFile: OpenFile

    /** The disk is sound, and the two files held open are the ones on it. */
    ghost predicate Valid()
      reads disk, freeMapFile.hdr, freeMapFile.hdr.dataSectors, directoryFile.hdr, directoryFile.hdr.dataSectors
    {
      && freeMapFile.disk == disk && directoryFile.disk == disk
      && freeMapFile.hdr.Valid() && directoryFile.hdr.Valid()
      && disk.Valid() && Sound(disk.sectors)
      && freeMapFile.hdr.Value() == HeaderAt(disk.sectors, FREE_MAP_SECTOR)
      && directoryFile.hdr.Value() == HeaderAt(disk.sectors, DIRECTORY_SECTOR)
    }

    /** format == false: open the bitmap and directory of a disk that was formatted before. */
    constructor Mount(disk: SynchDisk)
      requires disk.Valid() && Sound(disk.sectors)
      ensures Valid() && this.disk == disk
    {
      this.disk := disk;
      freeMapFile := new OpenFile(disk, FREE_MAP_SECTOR);
      directoryFile := new OpenFile(disk, DIRECTORY_SECTOR);
    }

    /** format == true: whatever the disk held, it becomes an empty file system. */
    constructor Format(disk: SynchDisk)
      requires disk.Valid()
      modifies disk
      ensures Valid() && this.disk == disk
      ensures forall key :: !HasKey(Table(disk.sectors), key)
      ensures forall s :: 0 <= s < NUM_SECTORS ==> (FreeMap(disk.sectors)[s] <==> s < 4)
    {
      this.disk := disk;
      var freeMap := new BitMap(NUM_SECTORS);
      var directory := new Directory(NUM_DIR_ENTRIES);
      var mapHdr := new FileHeader();
      var dirHdr := new FileHeader();
      AllocateRoots(freeMap, mapHdr, dirHdr);
      var f, g := WriteRoots(disk, freeMap, directory, mapHdr, dirHdr);
      FormattedIsSound(disk.sectors);
      freeMapFile := f;
      directoryFile := g;
    }

    /** First the two header sectors, then one data sector for each of the two files; neither ASSERT can fire. */
    static method AllocateRoots(freeMap: BitMap, mapHdr: FileHeader, dirHdr: FileHeader)
      requires freeMap.Valid() && freeMap.numBits == NUM_SECTORS && freeMap.Bits() == seq(NUM_SECTORS, _ => false)
      requires mapHdr.Valid() && dirHdr.Valid() && mapHdr != dirHdr && mapHdr.dataSectors != dirHdr.dataSectors
      modifies freeMap.words, mapHdr, mapHdr.dataSectors, dirHdr, dirHdr.dataSectors
      ensures forall s :: 0 <= s < NUM_SECTORS ==> (freeMap.Bits()[s] <==> s < 4)
      ensures mapHdr.Value().WellFormed() && mapHdr.numBytes == FREE_MAP_FILE_SIZE && mapHdr.Value().Blocks() == [2]
      ensures dirHdr.Value().WellFormed() && dirHdr.numBytes == DIRECTORY_FILE_SIZE && dirHdr.Value().Blocks() == [3]
    {
      assert DivRoundUp(FREE_MAP_FILE_SIZE, SECTOR_SIZE) == 1 && DivRoundUp(DIRECTORY_FILE_SIZE, SECTOR_SIZE) == 1;
      hide BitsOf, DivRoundUp;
      freeMap.Mark(FREE_MAP_SECTOR);
      freeMap.Mark(DIRECTORY_SECTOR);
      AllocateOne(freeMap, mapHdr, FREE_MAP_FILE_SIZE, 2);
      AllocateOne(freeMap, dirHdr, DIRECTORY_FILE_SIZE, 3);
    }

    /** On a map whose first k sectors are taken, a file of one sector gets sector k. */
    static method AllocateOne(freeMap: BitMap, hdr: FileHeader, size: int32, ghost k: nat)
      requires freeMap.Valid() && freeMap.numBits == NUM_SECTORS && hdr.Valid()
      requires k < NUM_SECTORS && (forall s :: 0 <= s < NUM_SECTORS ==> (freeMap.Bits()[s] <==> s < k))
      requires DivRoundUp(size, SECTOR_SIZE) == 1
      modifies freeMap.words, hdr, hdr.dataSectors
      ensures forall s :: 0 <= s < NUM_SECTORS ==> (freeMap.Bits()[s] <==> s < k + 1)
      ensures hdr.Value().WellFormed() && hdr.numBytes == size && hdr.Value().Blocks() == [k]
    {
      hide Picks, FirstClear, CountClear, Painted, BitsOf, DivRoundUp;
      PickFirst(freeMap.Bits(), k);
      var fits := hdr.Allocate(freeMap, size);
      assert fits && hdr.Value().Blocks() == [k];
      assert hdr.dataSectors[0] == hdr.Value().Blocks()[0];
    }

    /** The headers go to their sectors, the two files are opened through them, and both get their first contents. */
    static method WriteRoots(disk: SynchDisk, freeMap: BitMap, directory: Directory, mapHdr: FileHeader,
                             dirHdr: FileHeader)
      returns (f: OpenFile, g: OpenFile)
      requires disk.Valid() && freeMap.Valid() && freeMap.numBits == NUM_SECTORS
               && directory.table.Length == NUM_DIR_ENTRIES
      requires mapHdr.Valid() && mapHdr.Value().WellFormed() && mapHdr.numBytes == FREE_MAP_FILE_SIZE
               && mapHdr.Value().Blocks() == [2]
      requires dirHdr.Valid() && dirHdr.Value().WellFormed() && dirHdr.numBytes == DIRECTORY_FILE_SIZE
               && dirHdr.Value().Blocks() == [3]
      modifies disk
      ensures disk.Valid() && Rooted(disk.sectors) && f.disk == g.disk == disk && f.hdr.Valid() && g.hdr.Valid()
      ensures HeaderAt(disk.sectors, 0) == mapHdr.Value() == f.hdr.Value()
              && HeaderAt(disk.sectors, 1) == dirHdr.Value() == g.hdr.Value()
      ensures FreeMap(disk.sectors) == freeMap.Bits() && Table(disk.sectors) == directory.Table()
    {
      hide FileBytes, SectorHeader, HeaderSector, SpelledMap, BitsOf, DivRoundUp;
      f, g := WriteHeaders(disk, mapHdr, dirHdr);
      ghost var d1 := disk.sectors;
      WriteMap(freeMap, f);
      ghost var d2 := disk.sectors;
      directory.WriteBack(g);
      assert disk.sectors[0] == d1[0] && disk.sectors[1] == d1[1];
      FileBytesFrame(d2, disk.sectors, f.hdr.Value());
    }

    static method WriteHeaders(disk: SynchDisk, mapHdr: FileHeader, dirHdr: FileHeader)
      returns (f: OpenFile, g: OpenFile)
      requires disk.Valid() && mapHdr.Valid() && mapHdr.Value().WellFormed() && dirHdr.Valid()
               && dirHdr.Value().WellFormed()
      modifies disk
      ensures disk.Valid() && f.disk == g.disk == disk && f.hdr.Valid() && g.hdr.Valid()
      ensures HeaderAt(disk.sectors, 0) == mapHdr.Value() == f.hdr.Value()
              && HeaderAt(disk.sectors, 1) == dirHdr.Value() == g.hdr.Value()
      ensures fresh(f) && fresh(f.hdr) && fresh(f.hdr.dataSectors) && fresh(g) && fresh(g.hdr)
              && fresh(g.hdr.dataSectors)
    {
      hide SectorHeader, HeaderSector, DivRoundUp;
      HeaderRoundTrip(mapHdr.Value());
      HeaderRoundTrip(dirHdr.Value());
      mapHdr.WriteBack(disk, FREE_MAP_SECTOR);
      dirHdr.WriteBack(disk, DIRECTORY_SECTOR);
      f := new OpenFile(disk, FREE_MAP_SECTOR);
      g := new OpenFile(disk, DIRECTORY_SECTOR);
    }

    method Create(name: CString, initialSize: int32) returns (success: bool)
      requires Valid()
      modifies disk
      ensures Valid()
      ensures success <==> old(CanCreate(disk.sectors, NameKey(name), initialSize))
      ensures !success ==> disk.sectors == old(disk.sectors)
      ensures success ==> Created(old(disk.sectors), disk.sectors, NameKey(name), initialSize)
    {
      hide FileBytes, SectorHeader, Picks, Painted, SpelledMap, CountClear, IndexFor, FreeSlot, TableOwns, Created,
           SectorsNeeded, DivRoundUp;
      ghost var d1, key := disk.sectors, NameKey(name);
      var directory := new Directory(NUM_DIR_ENTRIES);
      directory.FetchFrom(directoryFile);
      assert directory.Table() == Table(d1);
      var found := directory.Find(name);
      if found != -1 {
        return false;
      }
      var freeMap := new BitMap(NUM_SECTORS);
      FetchMap(freeMap, freeMapFile);
      assert freeMap.Bits() == FreeMap(d1);
      success := PlaceFile(name, initialSize, directory, freeMap);
    }

    method Open(name: CString) returns (file: OpenFile?)
      requires Valid()
      ensures file == null <==> !HasKey(Table(disk.sectors), NameKey(name))
      ensures file != null ==>
                && fresh(file) && fresh(file.hdr) && fresh(file.hdr.dataSectors)
                && file.disk == disk && file.Valid() && file.seekPosition == 0
                && file.hdr.Value() == HeaderFor(disk.sectors, NameKey(name))
    {
      hide FileBytes, SectorHeader, SpelledMap, IndexFor, TableOwns, Owned, FreeMap;
      var directory := new Directory(NUM_DIR_ENTRIES);
      directory.FetchFrom(directoryFile);
      assert directory.Table() == Table(disk.sectors);
      var sector := directory.Find(name);
      file := null;
      if HasKey(directory.Table(), NameKey(name)) {
        NamedFileIsSound(disk.sectors, NameKey(name));
      }
      if sector >= 0 {
        file := new OpenFile(disk, sector);
      }
    }

    method Remove(name: CString) returns (success: bool)
      requires Valid()
      modifies disk
      ensures Valid()
      ensures success <==> old(HasKey(Table(disk.sectors), NameKey(name)))
      ensures !success ==> disk.sectors == old(disk.sectors)
      ensures success ==> Removed(old(disk.sectors), disk.sectors, NameKey(name))
    {
      hide FileBytes, SectorHeader, SpelledMap, IndexFor, TableOwns, Owned, Removed;
      var directory := new Directory(NUM_DIR_ENTRIES);
      directory.FetchFrom(directoryFile);
      assert directory.Table() == Table(disk.sectors);
      var sector := directory.Find(name);
      if HasKey(directory.Table(), NameKey(name)) {
        NamedFileIsSound(disk.sectors, NameKey(name));
      }
      if sector == -1 {
        return false;
      }
      DropFile(name, sector, directory);
      return true;
    }

    /** The rest of Remove, for a name the directory holds. */
    method DropFile(name: CString, sector: int, directory: Directory)
      requires Valid() && directory.table.Length == NUM_DIR_ENTRIES && directory.Table() == Table(disk.sectors)
      requires HasKey(Table(disk.sectors), NameKey(name)) && sector == SectorFor(Table(disk.sectors), NameKey(name))
      modifies disk, directory.table
      ensures Valid() && Removed(old(disk.sectors), disk.sectors, NameKey(name))
    {
      hide FileBytes, SectorHeader, SpelledMap, IndexFor, TableOwns, Owned, Painted, Removed, DivRoundUp, FreeMap,
           Table, Sound, HasKey;
      var freeMap := FreeSectors(sector, NameKey(name));
      var _ := directory.Remove(name);
      FlushRemoval(directory, freeMap, NameKey(name));
    }

    /** The free map without the named file's sectors; nothing is written yet. */
    method FreeSectors(sector: int, ghost key: seq<byte>) returns (freeMap: BitMap)
      requires Valid() && HasKey(Table(disk.sectors), key) && sector == SectorFor(Table(disk.sectors), key)
      ensures fresh(freeMap) && fresh(freeMap.words) && freeMap.Valid() && freeMap.numBits == NUM_SECTORS
      ensures freeMap.Bits() == Painted(FreeMap(disk.sectors), SectorsOf(disk.sectors, key), false)
    {
      ghost var d := disk.sectors;
      hide FileBytes, SectorHeader, SpelledMap, IndexFor, TableOwns, Owned, Painted, DivRoundUp, FreeMap, Table,
           Sound, HasKey;
      NamedFileIsSound(d, key);
      hide Header.WellFormed, Header.Distinct, Header.Blocks, FileHeader.Value;
      var fileHdr;
      fileHdr, freeMap := FetchHeaderAndMap(sector);
      ReleaseSectors(fileHdr, sector, freeMap, HeaderFor(d, key));
    }

    method FetchHeaderAndMap(sector: int) returns (fileHdr: FileHeader, freeMap: BitMap)
      requires Valid() && 0 <= sector < NUM_SECTORS
      ensures fresh(fileHdr) && fresh(fileHdr.dataSectors) && fileHdr.Valid()
              && fileHdr.Value() == HeaderAt(disk.sectors, sector)
      ensures fresh(freeMap) && fresh(freeMap.words) && freeMap.Valid() && freeMap.numBits == NUM_SECTORS
      ensures freeMap.Bits() == FreeMap(disk.sectors)
    {
      hide FileBytes, SectorHeader, SpelledMap, TableOwns, Owned, DistinctKeys, DivRoundUp;
      fileHdr := new FileHeader();
      fileHdr.FetchFrom(disk, sector);
      freeMap := new BitMap(NUM_SECTORS);
      FetchMap(freeMap, freeMapFile);
    }

    /** Data blocks first, then the header's own sector. */
    static method ReleaseSectors(fileHdr: FileHeader, sector: int, freeMap: BitMap, ghost h: Header)
      requires freeMap.Valid() && freeMap.numBits == NUM_SECTORS && 0 <= sector < NUM_SECTORS
      requires fileHdr.Valid() && fileHdr.Value() == h && h.WellFormed() && h.Distinct()
      requires forall b :: b in h.Blocks() ==> freeMap.Bits()[b]
      modifies freeMap.words
      ensures freeMap.Bits() == Painted(old(freeMap.Bits()), [sector] + h.Blocks(), false)
    {
      hide BitsOf, DivRoundUp;
      fileHdr.Deallocate(freeMap);
      freeMap.Clear(sector);
    }

    method FlushRemoval(directory: Directory, freeMap: BitMap, ghost key: seq<byte>)
      requires Valid() && HasKey(Table(disk.sectors), key)
      requires freeMap.Valid() && freeMap.numBits == NUM_SECTORS && directory.table.Length == NUM_DIR_ENTRIES
      requires freeMap.Bits() == Painted(FreeMap(disk.sectors), SectorsOf(disk.sectors, key), false)
      requires var i := IndexFor(Table(disk.sectors), key);
               directory.Table() == Table(disk.sectors)[i := Table(disk.sectors)[i].(inUse := false)]
      modifies disk
      ensures Valid() && Removed(old(disk.sectors), disk.sectors, key)
    {
      hide FileBytes, SectorHeader, Painted, TableOwns, Owned, DivRoundUp, SpelledMap, IndexFor, Removed, Sound,
           FreeMap, Table, HasKey, WritesOnly;
      ghost var d1 := disk.sectors;
      RootFilesAreSound(d1);
      WriteMap(freeMap, freeMapFile);
      ghost var d2 := disk.sectors;
      directory.WriteBack(directoryFile);
      RemoveWrites(d1, d2, disk.sectors, key, freeMap.Bits(), directory.Table());
      RemovedIsSound(d1, disk.sectors, key);
    }

    /** The rest of Create, for a name the directory does not hold yet. */
    method PlaceFile(name: CString, initialSize: int32, directory: Directory, freeMap: BitMap) returns (success: bool)
      requires Valid() && freeMap.Valid() && freeMap.numBits == NUM_SECTORS && directory.table.Length == NUM_DIR_ENTRIES
      requires directory.Table() == Table(disk.sectors) && freeMap.Bits() == FreeMap(disk.sectors)
      requires !HasKey(directory.Table(), NameKey(name))
      modifies disk, directory.table, freeMap.words
      ensures Valid()
      ensures success <==> old(CanCreate(disk.sectors, NameKey(name), initialSize))
      ensures !success ==> disk.sectors == old(disk.sectors)
      ensures success ==> Created(old(disk.sectors), disk.sectors, NameKey(name), initialSize)
    {
      hide FileBytes, SectorHeader, Picks, Painted, SpelledMap, CountClear, IndexFor, TableOwns, Created, Owned,
           DivRoundUp, DistinctKeys;
      ghost var d1, key := disk.sectors, NameKey(name);
      assert CountClear(FreeMap(d1)) <= NUM_DIRECT by { SpaceIsConserved(d1); }
      assert SectorsNeeded(initialSize) <= CountClear(FreeMap(d1)) <==>
               1 <= CountClear(FreeMap(d1)) && DivRoundUp(initialSize, SECTOR_SIZE) <= CountClear(FreeMap(d1)) - 1;
      var hdr := new FileHeader();
      var sector := Reserve(name, initialSize, directory, freeMap, hdr);
      if sector == -1 {
        return false;
      }
      FlushNewFile(hdr, sector, directory, freeMap, key);
      return true;
    }

    /** The in-memory part of Create: a sector for the header, a directory entry, and sectors for the data.
        On failure the three objects are left half changed, and the caller drops them. */
    static method Reserve(name: CString, initialSize: int32, directory: Directory, freeMap: BitMap, hdr: FileHeader)
      returns (sector: int32)
      requires freeMap.Valid() && freeMap.numBits == NUM_SECTORS && hdr.Valid()
      requires CountClear(freeMap.Bits()) <= NUM_DIRECT && !HasKey(directory.Table(), NameKey(name))
      modifies directory.table, freeMap.words, hdr, hdr.dataSectors
      ensures var bits, table := old(freeMap.Bits()), old(directory.Table());
              && (sector != -1 <==> FreeSlot(table) < |table| && SectorsNeeded(initialSize) <= CountClear(bits))
              && (sector != -1 ==> Reserved(bits, table, NameKey(name), initialSize, sector, hdr.Value(),
                 freeMap.Bits(), directory.Table()))
    {
      hide Picks, Painted, CountClear, IndexFor, HasKey, CopiedName, BitsOf, DivRoundUp;
      ghost var bits, table, n := freeMap.Bits(), directory.Table(), SectorsNeeded(initialSize);
      sector := ReserveEntry(name, directory, freeMap);
      if sector == -1 {
        return;
      }
      FirstPick(bits, n);
      var fits := hdr.Allocate(freeMap, initialSize);
      if !fits {
        return -1;
      }
      ReservedHeader(bits, hdr.Value(), sector, n);
    }

    static method ReserveEntry(name: CString, directory: Directory, freeMap: BitMap) returns (sector: int32)
      requires freeMap.Valid() && freeMap.numBits == NUM_SECTORS && !HasKey(directory.Table(), NameKey(name))
      modifies directory.table, freeMap.words
      ensures var bits, table, i := old(freeMap.Bits()), old(directory.Table()), FreeSlot(old(directory.Table()));
              && (sector != -1 <==> i < |table| && 1 <= CountClear(bits))
              && (sector != -1 ==>
                    && sector == FirstClear(bits) < NUM_SECTORS && freeMap.Bits() == bits[sector := true]
                    && |directory.Table()| == |table| && directory.Table() == table[i := directory.Table()[i]]
                    && directory.Table()[i].inUse && directory.Table()[i].sector == sector
                       && directory.Table()[i].Key() == NameKey(name))
    {
      hide CountClear, IndexFor, HasKey, CopiedName, BitsOf;
      ghost var table := directory.Table();
      CountClearZero(freeMap.Bits());
      sector := freeMap.Find();
      if sector == -1 {
        return;
      }
      var added := directory.Add(name, sector);
      if !added {
        return -1;
      }
      CopiedNameKey(table[FreeSlot(table)].name, name);
    }

    /** The end of a Create in which everything worked: header, directory and free map go back to disk, in that
        order. */
    method FlushNewFile(hdr: FileHeader, sector: int, directory: Directory, freeMap: BitMap, ghost key: seq<byte>)
      requires Valid()
      requires hdr.Valid() && freeMap.Valid() && freeMap.numBits == NUM_SECTORS
               && directory.table.Length == NUM_DIR_ENTRIES
      requires !HasKey(Table(disk.sectors), key)
      requires Reserved(FreeMap(disk.sectors), Table(disk.sectors), key, hdr.numBytes, sector, hdr.Value(),
               freeMap.Bits(), directory.Table())
      modifies disk
      ensures Valid() && Created(old(disk.sectors), disk.sectors, key, hdr.numBytes)
    {
      hide FileBytes, SectorHeader, HeaderSector, Picks, Painted, TableOwns, Owned, DivRoundUp, SpelledMap,
        CountClear, IndexFor, Created, Significant, Sound, FreeMap, Table, SectorsNeeded, WritesOnly, Header.Blocks,
        Header.Distinct, HasKey, Reserved;
      ghost var d1 := disk.sectors;
      RootFilesAreSound(d1);
      ReservedSector(FreeMap(d1), Table(d1), key, hdr.numBytes, sector, hdr.Value(), freeMap.Bits(), directory.Table());
      hdr.WriteBack(disk, sector);
      ghost var d2 := disk.sectors;
      ghost var d3 := WriteDirectoryThenMap(directory, freeMap);
      CreateWrites(d1, d2, d3, disk.sectors, hdr.Value(), key, sector, freeMap.Bits(), directory.Table());
      CreatedIsSound(d1, disk.sectors, key, hdr.numBytes);
    }

    method WriteDirectoryThenMap(directory: Directory, freeMap: BitMap) returns (ghost d: Image)
      requires freeMapFile.disk == directoryFile.disk == disk
      requires freeMapFile.Valid() && freeMapFile.hdr.numBytes == FREE_MAP_FILE_SIZE
               && freeMapFile.hdr.Value().Distinct()
      requires directoryFile.Valid() && directoryFile.hdr.numBytes == DIRECTORY_FILE_SIZE
               && directoryFile.hdr.Value().Distinct()
      requires freeMap.Valid() && freeMap.numBits == NUM_SECTORS && directory.table.Length == NUM_DIR_ENTRIES
      modifies disk
      ensures freeMapFile.Valid() && directoryFile.Valid() && |d| == NUM_SECTORS
      ensures WritesOnly(old(disk.sectors), d, directoryFile.hdr.Value().Blocks())
      ensures WritesOnly(d, disk.sectors, freeMapFile.hdr.Value().Blocks())
      ensures SpelledTable(FileBytes(d, directoryFile.hdr.Value())) == directory.Table()
      ensures SpelledMap(FileBytes(disk.sectors, freeMapFile.hdr.Value())) == freeMap.Bits()
    {
      hide FileBytes, SpelledMap, WritesOnly, DivRoundUp;
      directory.WriteBack(directoryFile);
      d := disk.sectors;
      WriteMap(freeMap, freeMapFile);
    }
  }
}
