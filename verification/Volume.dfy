/** What a disk image means as a file system: the free map, the directory and who owns which sector.
    filesys/filesys.cc keeps these in step; this module says what "in step" is and what each update does to it. */
module Volumes {
  import opened Words
  import opened BitMaps
  import opened SynchDisks
  import opened FileHeaders
  import opened OpenFiles
  import opened Directories

  const FREE_MAP_SECTOR := 0
  const DIRECTORY_SECTOR := 1
  const FREE_MAP_FILE_SIZE := 128
  const NUM_DIR_ENTRIES := 10
  const DIRECTORY_FILE_SIZE := 200

  type Image = seq<Sector>

  function HeaderAt(d: Image, s: int): Header
    requires |d| == NUM_SECTORS && 0 <= s < NUM_SECTORS
  {
    SectorHeader(d[s])
  }

  /** The two well-known files are in place. */
  ghost predicate Rooted(d: Image) {
    && |d| == NUM_SECTORS
    && HeaderAt(d, 0).WellFormed() && HeaderAt(d, 0).numBytes == FREE_MAP_FILE_SIZE
    && HeaderAt(d, 1).WellFormed() && HeaderAt(d, 1).numBytes == DIRECTORY_FILE_SIZE
  }

  /** A free map, and a directory, as the bytes of a file spell them. */
  function SpelledMap(bytes: seq<byte>): (bits: seq<bool>)
    requires |bytes| == FREE_MAP_FILE_SIZE
    ensures |bits| == NUM_SECTORS
  {
    BitsOf(BytesToWords(bytes), NUM_SECTORS)
  }

  function SpelledTable(bytes: seq<byte>): (table: seq<DirEntry>)
    requires |bytes| == DIRECTORY_FILE_SIZE
    ensures |table| == NUM_DIR_ENTRIES
  {
    BytesTable(bytes)
  }

  ghost function FreeMap(d: Image): (bits: seq<bool>)
    requires Rooted(d)
    ensures |bits| == NUM_SECTORS
  {
    SpelledMap(FileBytes(d, HeaderAt(d, 0)))
  }

  ghost function Table(d: Image): (table: seq<DirEntry>)
    requires Rooted(d)
    ensures |table| == NUM_DIR_ENTRIES
  {
    SpelledTable(FileBytes(d, HeaderAt(d, 1)))
  }

  // ---- ownership ----

  ghost predicate GoodEntry(d: Image, e: DirEntry)
    requires |d| == NUM_SECTORS
  {
    e.inUse ==> 0 <= e.sector < NUM_SECTORS && HeaderAt(d, e.sector).WellFormed()
  }

  /** A file owns its header sector and every block the header lists, with multiplicity. */
  ghost function EntryOwns(d: Image, e: DirEntry): multiset<int>
    requires |d| == NUM_SECTORS && GoodEntry(d, e)
  {
    if e.inUse then multiset([e.sector] + HeaderAt(d, e.sector).Blocks()) else multiset{}
  }

  ghost predicate GoodTable(d: Image, table: seq<DirEntry>)
    requires |d| == NUM_SECTORS
  {
    forall i :: 0 <= i < |table| ==> GoodEntry(d, table[i])
  }

  ghost function TableOwns(d: Image, table: seq<DirEntry>): multiset<int>
    requires |d| == NUM_SECTORS && GoodTable(d, table)
  {
    if table == [] then multiset{} else TableOwns(d, table[..|table| - 1]) + EntryOwns(d, table[|table| - 1])
  }

  ghost function RootOwns(d: Image): multiset<int>
    requires Rooted(d)
  {
    multiset([FREE_MAP_SECTOR, DIRECTORY_SECTOR] + HeaderAt(d, 0).Blocks() + HeaderAt(d, 1).Blocks())
  }

  ghost function Owned(d: Image): multiset<int>
    requires Rooted(d) && GoodTable(d, Table(d))
  {
    RootOwns(d) + TableOwns(d, Table(d))
  }

  /** `owned` holds each marked sector once and nothing else: ownership is disjoint and the map records exactly it. */
  ghost predicate Accounts(owned: multiset<int>, bits: seq<bool>) {
    forall s: int :: owned[s] == if 0 <= s < |bits| && bits[s] then 1 else 0
  }

  /** The invariant of the file system. */
  ghost predicate Sound(d: Image) {
    && Rooted(d)
    && DistinctKeys(Table(d))
    && GoodTable(d, Table(d))
    && Accounts(Owned(d), FreeMap(d))
  }

  // ---- counting and comparing owners ----

  lemma {:induction false} TableOwnsAt(d: Image, table: seq<DirEntry>, i: int, s: int)
    requires |d| == NUM_SECTORS && GoodTable(d, table) && 0 <= i < |table|
    ensures TableOwns(d, table)[s] >= EntryOwns(d, table[i])[s]
    decreases |table|
  {
    if i < |table| - 1 {
      TableOwnsAt(d, table[..|table| - 1], i, s);
    }
  }

  lemma {:induction false} TableOwnsTwo(d: Image, table: seq<DirEntry>, i: int, j: int, s: int)
    requires |d| == NUM_SECTORS && GoodTable(d, table) && 0 <= i < j < |table|
    ensures TableOwns(d, table)[s] >= EntryOwns(d, table[i])[s] + EntryOwns(d, table[j])[s]
    decreases |table|
  {
    if j < |table| - 1 {
      TableOwnsTwo(d, table[..|table| - 1], i, j, s);
    } else {
      TableOwnsAt(d, table[..|table| - 1], i, s);
    }
  }

  lemma {:induction false} TableOwnsUpdate(d: Image, table: seq<DirEntry>, i: int, e: DirEntry)
    requires |d| == NUM_SECTORS && GoodTable(d, table) && 0 <= i < |table| && GoodEntry(d, e)
    ensures GoodTable(d, table[i := e])
    ensures TableOwns(d, table[i := e]) + EntryOwns(d, table[i]) == TableOwns(d, table) + EntryOwns(d, e)
    decreases |table|
  {
    hide EntryOwns, GoodEntry;
    var n := |table| - 1;
    if i < n {
      TableOwnsUpdate(d, table[..n], i, e);
      assert table[i := e][..n] == table[..n][i := e];
      var last, x := EntryOwns(d, table[n]), EntryOwns(d, table[i]);
      assert TableOwns(d, table[i := e]) + x == (TableOwns(d, table[..n][i := e]) + x) + last;
    } else {
      assert table[i := e][..n] == table[..n];
    }
  }

  lemma {:induction false} TableOwnsFrame(d1: Image, d2: Image, table: seq<DirEntry>)
    requires |d1| == |d2| == NUM_SECTORS && GoodTable(d1, table)
    requires forall i :: 0 <= i < |table| && table[i].inUse ==> d1[table[i].sector] == d2[table[i].sector]
    ensures GoodTable(d2, table) && TableOwns(d2, table) == TableOwns(d1, table)
    decreases |table|
  {
    if table != [] {
      TableOwnsFrame(d1, d2, table[..|table| - 1]);
      assert GoodEntry(d2, table[|table| - 1]);
    }
  }

  lemma InMultiset(q: seq<int>, i: int)
    requires 0 <= i < |q|
    ensures multiset(q)[q[i]] >= 1
  {
    assert q[i] in q;
  }

  lemma {:induction false} OnceMeansDistinct(q: seq<int>, i: int, j: int)
    requires forall s :: multiset(q)[s] <= 1
    requires 0 <= i < j < |q|
    ensures q[i] != q[j]
  {
    assert q == q[..j] + q[j..];
    InMultiset(q[..j], i);
    InMultiset(q[j..], 0);
    assert multiset(q)[q[j]] == multiset(q[..j])[q[j]] + multiset(q[j..])[q[j]];
  }

  /** An allocated sector sequence: distinct, in range, disjoint from everything else that is owned. */
  lemma EntryIsolated(d: Image, i: int)
    requires Sound(d) && 0 <= i < NUM_DIR_ENTRIES && Table(d)[i].inUse
    ensures var e := Table(d)[i]; var h := HeaderAt(d, e.sector);
            && h.Distinct()
            && (forall s :: s in [e.sector] + h.Blocks() ==>
               0 <= s < NUM_SECTORS && FreeMap(d)[s] && RootOwns(d)[s] == 0)
            && e.sector !in h.Blocks()
  {
    hide Table, FreeMap, SectorHeader, TableOwns, RootOwns;
    var e := Table(d)[i];
    var q: seq<int> := [e.sector] + HeaderAt(d, e.sector).Blocks();
    forall s
      ensures multiset(q)[s] <= 1 && (s in q ==> 0 <= s < NUM_SECTORS && FreeMap(d)[s] && RootOwns(d)[s] == 0)
    {
      TableOwnsAt(d, Table(d), i, s);
      assert Owned(d)[s] <= 1;
    }
    forall j, k | 0 <= j < k < |q|
      ensures q[j] != q[k]
    {
      OnceMeansDistinct(q, j, k);
    }
    var h := HeaderAt(d, e.sector);
    assert forall j :: 0 <= j < |h.Blocks()| ==> h.Blocks()[j] == q[j + 1] && q[j + 1] != q[0];
    assert h.Distinct() by {
      assert forall j :: 0 <= j < h.numSectors ==> h.dataSectors[j] == q[j + 1];
    }
  }

  lemma EntriesDisjoint(d: Image, i: int, j: int, s: int)
    requires Sound(d) && 0 <= i < NUM_DIR_ENTRIES && 0 <= j < NUM_DIR_ENTRIES && i != j
    requires Table(d)[i].inUse && Table(d)[j].inUse
    requires s in [Table(d)[i].sector] + HeaderAt(d, Table(d)[i].sector).Blocks()
    ensures s !in [Table(d)[j].sector] + HeaderAt(d, Table(d)[j].sector).Blocks()
  {
    hide Table, FreeMap, SectorHeader, TableOwns, RootOwns;
    TableOwnsTwo(d, Table(d), if i < j then i else j, if i < j then j else i, s);
    assert Owned(d)[s] <= 1;
  }

  lemma RootsIsolated(d: Image)
    requires Sound(d)
    ensures HeaderAt(d, 0).Distinct() && HeaderAt(d, 1).Distinct()
    ensures forall s :: s in HeaderAt(d, 0).Blocks() ==> s != 0 && s != 1 && s !in HeaderAt(d, 1).Blocks()
    ensures forall s :: s in HeaderAt(d, 1).Blocks() ==> s != 0 && s != 1
    ensures forall s :: 0 <= s < NUM_SECTORS && !FreeMap(d)[s] ==> Owned(d)[s] == 0 && RootOwns(d)[s] == 0
    ensures FreeMap(d)[0] && FreeMap(d)[1]
  {
    hide Table, FreeMap, SectorHeader, TableOwns;
    var a: seq<int>, b: seq<int> := HeaderAt(d, 0).Blocks(), HeaderAt(d, 1).Blocks();
    forall s: int
      ensures multiset([0, 1])[s] + multiset(a)[s] + multiset(b)[s] == RootOwns(d)[s] <= 1
    {
      assert multiset([0, 1] + a + b) == multiset([0, 1]) + multiset(a) + multiset(b);
      assert Owned(d)[s] <= 1;
    }
    assert multiset([0, 1])[0] == 1 && multiset([0, 1])[1] == 1;
    assert Owned(d)[0] == 1 && Owned(d)[1] == 1;
  }
}
