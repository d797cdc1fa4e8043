/** Files that stay open: filesys/openfile.cc keeps its own copy of a header, which Remove does not take away.  When
    what is written through such a file still harms nobody. */
module HeldFiles {
  import opened Words
  import opened BitMaps
  import opened SynchDisks
  import opened FileHeaders
  import opened OpenFiles
  import opened Directories
  import opened Volumes
  import opened FsLaws
  import opened FileSystems

  // ---- the volume ----

  /** Writing through a header is safe, whatever is written, exactly when it spares the headers of the files. */
  lemma HarmlessIff(d: Image, h: Header)
    requires Sound(d) && Holds(d, h)
    ensures (forall d2 :: WritesOnly(d, d2, h.Blocks()) ==> Sound(d2)) <==> SparesHeaders(d, h)
  {
    hide Table, FreeMap, SectorHeader, FileBytes, RootOwns, TableOwns, Sound, WritesOnly, Holds, Header.Blocks;
    RootFilesAreSound(d);
    if SparesHeaders(d, h) {
      forall d2 | WritesOnly(d, d2, h.Blocks())
        ensures Sound(d2)
      {
        WriteKeepsHeaders(d, d2, h);
      }
    } else {
      var i :| 0 <= i < NUM_DIR_ENTRIES && Table(d)[i].inUse && Table(d)[i].sector in h.Blocks();
      HeaderOverwritten(d, h, i);
    }
  }

  /** A block of bytes that spell no header: one block, and no bytes in it. */
  function NoHeader(): (h: Header)
    ensures |h.dataSectors| == NUM_DIRECT && !h.WellFormed()
  {
    Header(0, 1, seq(NUM_DIRECT, _ => 0))
  }

  /** With those where a file's header was the volume is not sound.  A request that covers the block writes them; one
      that covers it in part, at the end of the file, fills the rest from a buffer that nothing was put in. */
  lemma HeaderOverwritten(d: Image, h: Header, i: nat)
    requires Sound(d) && Holds(d, h) && i < NUM_DIR_ENTRIES && Table(d)[i].inUse && Table(d)[i].sector in h.Blocks()
    ensures 0 <= Table(d)[i].sector < NUM_SECTORS
    ensures var d2 := d[Table(d)[i].sector := HeaderSector(NoHeader())];
            WritesOnly(d, d2, h.Blocks()) && !Sound(d2)
  {
    hide Table, FreeMap, SectorHeader, FileBytes, RootOwns, TableOwns, Holds, Header.Blocks, HeaderSector;
    var s, bad := Table(d)[i].sector, NoHeader();
    assert GoodEntry(d, Table(d)[i]);
    var d2 := d[s := HeaderSector(bad)];
    WriteSparesRoots(d, d2, h);
    HeaderRoundTrip(bad);
    assert !GoodEntry(d2, Table(d2)[i]);
  }

  // ---- the other files ----

  ghost predicate Disjoint(g: Header, h: Header) {
    forall b :: b in g.Blocks() ==> b !in h.Blocks()
  }

  /** Whatever is written through the header leaves the volume sound and this file's bytes alone exactly when it spares
      the headers of the files and shares no block with this one. */
  lemma IsolatedIff(d: Image, h: Header, i: nat)
    requires Sound(d) && Holds(d, h) && i < NUM_DIR_ENTRIES && Table(d)[i].inUse
    ensures GoodEntry(d, Table(d)[i])
    ensures var g := HeaderAt(d, Table(d)[i].sector);
            (forall d2 :: WritesOnly(d, d2, h.Blocks()) ==> Sound(d2) && FileBytes(d2, g) == FileBytes(d, g))
            <==> SparesHeaders(d, h) && Disjoint(g, h)
  {
    hide Table, FreeMap, SectorHeader, FileBytes, RootOwns, TableOwns, Holds, SparesHeaders, Header.Blocks,
      Header.WellFormed;
    assert GoodEntry(d, Table(d)[i]);
    var g := HeaderAt(d, Table(d)[i].sector);
    HarmlessIff(d, h);
    if SparesHeaders(d, h) && Disjoint(g, h) {
      forall d2 | WritesOnly(d, d2, h.Blocks())
        ensures FileBytes(d2, g) == FileBytes(d, g)
      {
        DisjointKept(d, d2, g, h);
      }
    } else if !Disjoint(g, h) {
      var b :| b in g.Blocks() && b in h.Blocks();
      var d2 := SharedBlockChanged(d, g, h, b);
    }
  }

  lemma DisjointKept(d: Image, d2: Image, g: Header, h: Header)
    requires |d| == NUM_SECTORS && g.WellFormed() && WritesOnly(d, d2, h.Blocks()) && Disjoint(g, h)
    ensures FileBytes(d2, g) == FileBytes(d, g)
  {
    hide FileBytes;
    assert forall b :: b in g.Blocks() ==> 0 <= b < NUM_SECTORS;
    FileBytesFrame(d, d2, g);
  }

  /** Every block of a file has a byte of the file at its front. */
  lemma SharedBlockChanged(d: Image, g: Header, h: Header, b: int) returns (d2: Image)
    requires |d| == NUM_SECTORS && g.WellFormed() && b in g.Blocks() && b in h.Blocks()
    ensures WritesOnly(d, d2, h.Blocks()) && FileBytes(d2, g) != FileBytes(d, g)
  {
    var i :| 0 <= i < |g.Blocks()| && g.Blocks()[i] == b;
    assert g.dataSectors[i] == b;
    d2 := d[b := d[b][0 := if d[b][0] == 0 then 1 else 0]];
    DivRoundUpIsLeast(g.numBytes, SECTOR_SIZE);
    FrontOfBlock(d, g, i);
    FrontOfBlock(d2, g, i);
  }

  lemma FrontOfBlock(d: Image, g: Header, i: nat)
    requires |d| == NUM_SECTORS && g.WellFormed() && i < g.numSectors
    ensures i * 4096 < |FileBytes(d, g)| && FileBytes(d, g)[i * 4096] == d[g.dataSectors[i]][0]
  {
    DivRoundUpIsLeast(g.numBytes, SECTOR_SIZE);
    BlockByteAt(d, g, i, 0);
    hide BlockByte;
  }

  /** The same by name: the name keeps its header, its place and its bytes. */
  lemma NameIsolatedIff(d: Image, h: Header, key: seq<byte>)
    requires Sound(d) && Holds(d, h) && HasKey(Table(d), key)
    ensures (forall d2 :: WritesOnly(d, d2, h.Blocks()) ==> Sound(d2) && Untouched(d, d2, key))
            <==> SparesHeaders(d, h) && Disjoint(HeaderFor(d, key), h)
  {
    hide Table, FreeMap, SectorHeader, FileBytes, RootOwns, TableOwns, Holds, SparesHeaders, Header.Blocks, Disjoint,
      WritesOnly, Sound;
    RootFilesAreSound(d);
    IsolatedIff(d, h, IndexFor(Table(d), key));
    HarmlessIff(d, h);
    var g := HeaderFor(d, key);
    forall d2 | WritesOnly(d, d2, h.Blocks()) && SparesHeaders(d, h)
      ensures Sound(d2) && |d2| == NUM_SECTORS && (Untouched(d, d2, key) <==> FileBytes(d2, g) == FileBytes(d, g))
    {
      WriteKeepsHeaders(d, d2, h);
      RootFilesAreSound(d2);
    }
  }

  // ---- names that come and go ----

  /** A file held open while its name is removed and another is created, on any sound volume: writing through it
      keeps the volume sound exactly when the new file's header is not among the sectors it gave up. */
  lemma HarmlessAfterReuse(d1: Image, d2: Image, d3: Image, key: seq<byte>, newKey: seq<byte>, size: int32)
    requires Removed(d1, d2, key) && Created(d2, d3, newKey, size)
    ensures Sound(d3) && HasKey(Table(d3), newKey) && Holds(d3, HeaderFor(d1, key))
    ensures var h := HeaderFor(d1, key);
            (forall d4 :: WritesOnly(d3, d4, h.Blocks()) ==> Sound(d4))
            <==> SectorFor(Table(d3), newKey) !in h.Blocks()
  {
    hide Table, FreeMap, SectorHeader, FileBytes, RootOwns, TableOwns, WritesOnly, Header.Blocks, Picks, Painted;
    var h := HeaderFor(d1, key);
    NamedFileHolds(d1, key);
    HarmlessIff(d3, h);
    forall i | 0 <= i < NUM_DIR_ENTRIES && Table(d3)[i].inUse && Table(d3)[i].Key() != newKey
      ensures Table(d3)[i].sector !in h.Blocks()
    {
      StillSpared(d1, d2, d3, key, newKey, size, i);
    }
    var n := IndexFor(Table(d3), newKey);
    assert Table(d3)[n].inUse && Table(d3)[n].Key() == newKey;
    forall i | 0 <= i < NUM_DIR_ENTRIES && Table(d3)[i].inUse && Table(d3)[i].Key() == newKey
      ensures i == n
    {
      IndexForUnique(Table(d3), i, newKey);
    }
  }

  lemma StillSpared(d1: Image, d2: Image, d3: Image, key: seq<byte>, newKey: seq<byte>, size: int32, i: nat)
    requires Removed(d1, d2, key) && Created(d2, d3, newKey, size)
    requires i < NUM_DIR_ENTRIES && Table(d3)[i].inUse && Table(d3)[i].Key() != newKey
    ensures Table(d3)[i].sector !in HeaderFor(d1, key).Blocks()
  {
    hide Table, FreeMap, SectorHeader, FileBytes, RootOwns, TableOwns, Header.Blocks, Picks, Painted;
    var k := Table(d3)[i].Key();
    IndexForUnique(Table(d3), i, k);
    assert HasKey(Table(d3), k);
    assert Untouched(d2, d3, k);
    assert k != key && Untouched(d1, d2, k);
    EntrySpared(d1, IndexFor(Table(d1), key), IndexFor(Table(d1), k));
  }

  /** For a file that Create made, it is not: its header lies before its blocks, and the next header no later.  So
      after one Remove and one Create, writing through it never harms the volume. */
  lemma OneReuseIsHarmless(d0: Image, d1: Image, d2: Image, d3: Image, key: seq<byte>, newKey: seq<byte>, size: int32,
                           newSize: int32)
    requires Created(d0, d1, key, size) && Removed(d1, d2, key) && Created(d2, d3, newKey, newSize)
    ensures forall d4 :: WritesOnly(d3, d4, HeaderFor(d1, key).Blocks()) ==> Sound(d4)
  {
    hide Table, FreeMap, SectorHeader, FileBytes, RootOwns, TableOwns, WritesOnly, Header.Blocks, Picks, Painted,
      IndexFor, SectorsNeeded, FirstClear, CountClear;
    HarmlessAfterReuse(d1, d2, d3, key, newKey, newSize);
    RemoveUndoesCreate(d0, d1, d2, key, size);
    CreatedInOrder(d0, d1, key, size);
    CreatedInOrder(d2, d3, newKey, newSize);
  }

  /** First fit puts a file's header on the first clear sector and its blocks behind it. */
  lemma CreatedInOrder(d1: Image, d2: Image, key: seq<byte>, size: int32)
    requires Created(d1, d2, key, size)
    ensures HasKey(Table(d2), key) && SectorFor(Table(d2), key) == FirstClear(FreeMap(d1)) < NUM_SECTORS
    ensures forall b :: b in HeaderFor(d2, key).Blocks() ==> FirstClear(FreeMap(d1)) < b
  {
    hide Table, FreeMap, SectorHeader, FileBytes, RootOwns, TableOwns, Header.Blocks, Picks, Painted, IndexFor,
      CountClear, SectorsNeeded, FirstClear;
    CreatedFits(d1, d2, key, size);
    PicksInOrder(FreeMap(d1), SectorsNeeded(size));
    var q := SectorsOf(d2, key);
    assert SectorFor(Table(d2), key) == q[0];
    assert forall i :: 0 <= i < |HeaderFor(d2, key).Blocks()| ==> HeaderFor(d2, key).Blocks()[i] == q[i + 1];
  }

  lemma SecondPick(d1: Image, d2: Image, key: seq<byte>, size: int32)
    requires Created(d1, d2, key, size) && 0 < size
    ensures var f := FreeMap(d1); var k := FirstClear(f);
            && k < |f| && HeaderFor(d2, key).Blocks() != []
            && HeaderFor(d2, key).Blocks()[0] == FirstClear(f[k := true])
  {
    hide Table, FreeMap, SectorHeader, FileBytes, RootOwns, TableOwns, Header.Blocks, Painted, IndexFor, CountClear,
      FirstClear;
    var f, n, q := FreeMap(d1), SectorsNeeded(size), SectorsOf(d2, key);
    CreatedFits(d1, d2, key, size);
    PicksInOrder(f, n);
    FirstPick(f, n);
    PicksInOrder(f[FirstClear(f) := true], n - 1);
    assert HeaderFor(d2, key).Blocks()[0] == q[1];
  }

  lemma OneSector()
    ensures SectorsNeeded(0) == 1
  {
    assert DivRoundUp(0, SECTOR_SIZE) == 0;
  }

  /** An empty file takes one sector. */
  lemma OneTaken(d1: Image, d2: Image, key: seq<byte>)
    requires Created(d1, d2, key, 0)
    ensures var f := FreeMap(d1);
            && FirstClear(f) < |f| && FreeMap(d2) == f[FirstClear(f) := true]
            && CountClear(f) == CountClear(FreeMap(d2)) + 1
  {
    hide Table, FreeMap, SectorHeader, FileBytes, RootOwns, TableOwns, Header.Blocks, IndexFor, CountClear, FirstClear,
      SectorsNeeded, SectorsOf, Picks, Painted, Untouched, HeaderFor;
    OneSector();
    CreatedFits(d1, d2, key, 0);
    var f := FreeMap(d1);
    PicksInOrder(f, 1);
    PickFirst(f, FirstClear(f));
    CountClearUpdate(f, FirstClear(f), true);
  }

  /** A name's header lies in the first block listed. */
  ghost predicate HeaderInFirstBlock(d: Image, h: Header, key: seq<byte>) {
    && Sound(d) && Holds(d, h) && HasKey(Table(d), key)
    && h.Blocks() != [] && SectorFor(Table(d), key) == h.Blocks()[0]
  }

  /** With two Creates it can be: on any volume, an empty file takes the freed header sector, and the next file's
      header is put on the first block of the file held open. */
  lemma TwoReusesHarm(d0: Image, d1: Image, d2: Image, d3: Image, d4: Image, key: seq<byte>, emptyKey: seq<byte>,
                      newKey: seq<byte>, size: int32, newSize: int32)
    requires Created(d0, d1, key, size) && 0 < size && Removed(d1, d2, key)
    requires Created(d2, d3, emptyKey, 0) && Created(d3, d4, newKey, newSize)
    ensures HeaderInFirstBlock(d4, HeaderFor(d1, key), newKey)
  {
    hide Table, FreeMap, SectorHeader, FileBytes, RootOwns, TableOwns, Header.Blocks, Picks, Painted, IndexFor,
      CountClear, FirstClear, SectorsNeeded;
    NamedFileHolds(d1, key);
    RemoveUndoesCreate(d0, d1, d2, key, size);
    SecondPick(d0, d1, key, size);
    OneTaken(d2, d3, emptyKey);
    CreatedInOrder(d3, d4, newKey, newSize);
  }

  /** After one Remove and one Create the new file's own bytes are safe only when one of the two files is empty:
      otherwise they have their first block in common. */
  lemma NextFileIsSafeIff(d0: Image, d1: Image, d2: Image, d3: Image, key: seq<byte>, newKey: seq<byte>, size: int32,
                          newSize: int32)
    requires Created(d0, d1, key, size) && Removed(d1, d2, key) && Created(d2, d3, newKey, newSize)
    ensures (forall d4 :: WritesOnly(d3, d4, HeaderFor(d1, key).Blocks()) ==> Sound(d4) && Untouched(d3, d4, newKey))
            <==> size <= 0 || newSize <= 0
  {
    hide Table, FreeMap, SectorHeader, FileBytes, RootOwns, TableOwns, WritesOnly, Header.Blocks, Picks, Painted,
      IndexFor, SectorsNeeded, FirstClear, CountClear, Untouched;
    var h, g := HeaderFor(d1, key), HeaderFor(d3, newKey);
    HarmlessAfterReuse(d1, d2, d3, key, newKey, newSize);
    OneReuseIsHarmless(d0, d1, d2, d3, key, newKey, size, newSize);
    HarmlessIff(d3, h);
    NameIsolatedIff(d3, h, newKey);
    RemoveUndoesCreate(d0, d1, d2, key, size);
    NoBlocksIff(d1, key);
    NoBlocksIff(d3, newKey);
    if 0 < size && 0 < newSize {
      SecondPick(d0, d1, key, size);
      SecondPick(d2, d3, newKey, newSize);
      assert h.Blocks()[0] in h.Blocks() && g.Blocks()[0] in g.Blocks();
    }
  }

  lemma NoBlocksIff(d: Image, key: seq<byte>)
    requires Sound(d) && HasKey(Table(d), key)
    ensures HeaderFor(d, key).Blocks() == [] <==> HeaderFor(d, key).numBytes <= 0
  {
    hide Table, FreeMap, SectorHeader, FileBytes, RootOwns, TableOwns;
    NamedFileIsSound(d, key);
    DivRoundUpIsLeast(HeaderFor(d, key).numBytes, SECTOR_SIZE);
  }

  /** A new file of the size of the one just removed gets its very sectors: what is written through a file left open on
      the old name is what the new one reads. */
  lemma OpenFileSharesTheNext(d1: Image, d2: Image, d3: Image, d4: Image, d5: Image, key: seq<byte>, newKey: seq<byte>,
                              size: int32)
    requires Created(d1, d2, key, size) && Removed(d2, d3, key) && Created(d3, d4, newKey, size)
    requires WritesOnly(d4, d5, HeaderFor(d2, key).Blocks())
    ensures SectorsOf(d4, newKey) == SectorsOf(d2, key)
    ensures Sound(d5) && HasKey(Table(d5), newKey) && HeaderFor(d2, key).WellFormed()
    ensures Contents(d5, newKey) == FileBytes(d5, HeaderFor(d2, key))
  {
    hide Table, FreeMap, SectorHeader, FileBytes, RootOwns, TableOwns, Picks, Painted, CountClear, IndexFor;
    RemoveUndoesCreate(d1, d2, d3, key, size);
    var h, next := HeaderFor(d2, key), HeaderFor(d4, newKey);
    assert SectorsOf(d4, newKey)[1..] == next.Blocks() && SectorsOf(d2, key)[1..] == h.Blocks();
    WriteKeepsSound(d4, d5, newKey);
    NamedFileIsSound(d2, key);
    NamedFileIsSound(d4, newKey);
    SameBlocksSameBytes(d5, h, next);
  }

  lemma SameBlocksSameBytes(d: Image, h1: Header, h2: Header)
    requires |d| == NUM_SECTORS && h1.WellFormed() && h2.WellFormed()
    requires h1.numBytes == h2.numBytes && h1.Blocks() == h2.Blocks()
    ensures FileBytes(d, h1) == FileBytes(d, h2)
  {
    forall k | 0 <= k < h1.numBytes
      ensures FileBytes(d, h1)[k] == FileBytes(d, h2)[k]
    {
      DivRoundUpIsLeast(h1.numBytes, SECTOR_SIZE);
      assert h1.dataSectors[k / 4096] == h1.Blocks()[k / 4096] == h2.Blocks()[k / 4096] == h2.dataSectors[k / 4096];
    }
  }

  // ---- a run ----

  lemma EntryHasKey(table: seq<DirEntry>, i: nat)
    requires DistinctKeys(table) && i < |table| && table[i].inUse
    ensures HasKey(table, table[i].Key())
  {
    IndexForUnique(table, i, table[i].Key());
  }

  lemma SlotIsFree(table: seq<DirEntry>, other: seq<byte>)
    requires DistinctKeys(table) && |table| == NUM_DIR_ENTRIES && forall k :: HasKey(table, k) ==> k == other
    ensures FreeSlot(table) < NUM_DIR_ENTRIES
  {
    hide HasKey;
    if table[0].inUse && table[1].inUse {
      EntryHasKey(table, 0);
      EntryHasKey(table, 1);
    }
  }

  /** Room for a file of up to one block when no name, or one other name, is there. */
  lemma RoomForOne(d: Image, key: seq<byte>, other: seq<byte>, size: int32)
    requires Sound(d) && key != other && (forall k :: HasKey(Table(d), k) ==> k == other)
    requires size <= 4096 && 2 <= CountClear(FreeMap(d))
    ensures CanCreate(d, key, size)
  {
    hide FreeMap, Table, SectorHeader, CountClear, RootOwns, TableOwns, Owned, HasKey, FreeSlot;
    SlotIsFree(Table(d), other);
  }

  lemma ThreeClear(bits: seq<bool>)
    requires |bits| == NUM_SECTORS && forall s :: 0 <= s < NUM_SECTORS ==> (bits[s] <==> s < 4)
    ensures CountClear(bits) >= 3
  {
    hide CountClear;
    CountClearUpdate(bits, 4, true);
    CountClearUpdate(bits[4 := true], 5, true);
    CountClearZero(bits[4 := true][5 := true]);
    assert !bits[4 := true][5 := true][6];
  }

  lemma OnlyName(d1: Image, d2: Image, key: seq<byte>, size: int32)
    requires Created(d1, d2, key, size) && forall k :: !HasKey(Table(d1), k)
    ensures Sound(d2) && HasKey(Table(d2), key) && forall k :: HasKey(Table(d2), k) ==> k == key
    ensures HeaderFor(d2, key).numBytes == size && HeaderFor(d2, key).WellFormed() && HeaderFor(d2, key).Distinct()
  {
    hide FreeMap, Table, SectorHeader, FileBytes, RootOwns, TableOwns, Picks, Painted, IndexFor;
    NamedFileIsSound(d2, key);
    forall k | k != key
      ensures !HasKey(Table(d2), k)
    {
      assert Untouched(d1, d2, k);
    }
  }

  lemma NoName(d1: Image, d2: Image, key: seq<byte>)
    requires Removed(d1, d2, key) && forall k :: HasKey(Table(d1), k) ==> k == key
    ensures Sound(d2) && forall k :: !HasKey(Table(d2), k)
  {
    hide FreeMap, Table, SectorHeader, FileBytes, RootOwns, TableOwns, Picks, Painted, IndexFor;
    forall k | k != key
      ensures !HasKey(Table(d2), k)
    {
      assert Untouched(d1, d2, k);
    }
  }

  lemma OneBlockWritten(d: Image, d2: Image, h: Header, image: Sector)
    requires |d| == NUM_SECTORS && h.WellFormed() && h.numBytes == 4096
    requires WritesOnly(d, d2, h.Blocks()) && FileBytes(d2, h) == image
    ensures h.Blocks() != [] && d2 == d[h.Blocks()[0] := image]
  {
    assert DivRoundUp(4096, SECTOR_SIZE) == 1;
    assert h.Blocks() == [h.dataSectors[0]];
    forall k | 0 <= k < 4096
      ensures d2[h.dataSectors[0]][k] == image[k]
    {
      BlockByteAt(d2, h, 0, k);
      assert FileBytes(d2, h)[k] == BlockByte(d2, h, k);
    }
    assert d2[h.dataSectors[0]] == image;
  }

  lemma FirstBlockLost(d: Image, d2: Image, h: Header, key: seq<byte>)
    requires HeaderInFirstBlock(d, h, key) && h.WellFormed() && h.numBytes == 4096
    requires WritesOnly(d, d2, h.Blocks()) && FileBytes(d2, h) == HeaderSector(NoHeader())
    ensures !Sound(d2)
  {
    hide FreeMap, Table, SectorHeader, HeaderSector, FileBytes, IndexFor, Holds, Sound, Header.Blocks, WritesOnly;
    RootFilesAreSound(d);
    OneBlockWritten(d, d2, h, HeaderSector(NoHeader()));
    HeaderOverwritten(d, h, IndexFor(Table(d), key));
  }

  /** From a freshly formatted disk: create a file of one block, open it, remove it, create an empty file and then
      another one, and write a block through the file still open.  The volume is not sound any more: the last file is
      lost. */
  method FileLost(disk: SynchDisk, held: CString, empty: CString, last: CString)
    requires disk.Valid() && NameKey(last) != NameKey(empty)
    modifies disk
    ensures !Sound(disk.sectors)
  {
    hide FreeMap, Table, SectorHeader, HeaderSector, FileBytes, CountClear, IndexFor, Created, Removed, CanCreate,
      HasKey, HeaderInFirstBlock, Untouched, Holds, Sound, Header.Blocks;
    var fs := new FileSystem.Format(disk);
    ghost var d0 := disk.sectors;
    RootFilesAreSound(d0);
    ThreeClear(FreeMap(d0));
    RoomForOne(d0, NameKey(held), NameKey(held) + [1], 4096);
    var created := fs.Create(held, 4096);
    ghost var d1 := disk.sectors;
    OnlyName(d0, d1, NameKey(held), 4096);
    var file := fs.Open(held);
    ghost var h := file.hdr.Value();
    var removed := fs.Remove(held);
    ghost var d2 := disk.sectors;
    NoName(d1, d2, NameKey(held));
    RemoveUndoesCreate(d0, d1, d2, NameKey(held), 4096);
    RoomForOne(d2, NameKey(empty), NameKey(empty) + [1], 0);
    created := fs.Create(empty, 0);
    ghost var d3 := disk.sectors;
    OnlyName(d2, d3, NameKey(empty), 0);
    OneTaken(d2, d3, NameKey(empty));
    RoomForOne(d3, NameKey(last), NameKey(empty), 1);
    created := fs.Create(last, 1);
    TwoReusesHarm(d0, d1, d2, d3, disk.sectors, NameKey(held), NameKey(empty), NameKey(last), 4096, 1);
    OverwriteFirstBlock(file, NameKey(last));
  }

  method OverwriteFirstBlock(file: OpenFile, ghost key: seq<byte>)
    requires file.Valid() && file.hdr.Value().Distinct() && file.hdr.numBytes == 4096
    requires HeaderInFirstBlock(file.disk.sectors, file.hdr.Value(), key)
    modifies file.disk
    ensures !Sound(file.disk.sectors)
  {
    hide HeaderInFirstBlock, HeaderSector, FileBytes, DivRoundUp, Sound, Header.Distinct;
    ghost var d, h := file.disk.sectors, file.hdr.Value();
    var image := HeaderSector(NoHeader());
    assert EndFits(4096, 4096, 0);
    var n := file.WriteAt(image, 4096, 0);
    FirstBlockLost(d, file.disk.sectors, h, key);
  }
}
