/** What Create, Remove and writing to a file do to a sound disk image, and the laws that follow. */
module FsLaws {
  import opened Words
  import opened BitMaps
  import opened SynchDisks
  import opened FileHeaders
  import opened OpenFiles
  import opened Directories
  import opened Volumes

  // ---- files by name ----

  ghost function HeaderFor(d: Image, key: seq<byte>): Header
    requires Sound(d) && HasKey(Table(d), key)
  {
    HeaderAt(d, SectorFor(Table(d), key))
  }

  ghost function Contents(d: Image, key: seq<byte>): seq<byte>
    requires Sound(d) && HasKey(Table(d), key)
  {
    FileBytes(d, HeaderFor(d, key))
  }

  /** The sectors a named file holds: its header's and its data's. */
  ghost function SectorsOf(d: Image, key: seq<byte>): seq<int>
    requires Sound(d) && HasKey(Table(d), key)
  {
    [SectorFor(Table(d), key)] + HeaderFor(d, key).Blocks()
  }

  /** The name means in d2 what it meant in d1: absent in both, or the same header in the same place with the same
      bytes. */
  ghost predicate Untouched(d1: Image, d2: Image, key: seq<byte>)
    requires Sound(d1) && Sound(d2)
  {
    && (HasKey(Table(d1), key) <==> HasKey(Table(d2), key))
    && (HasKey(Table(d1), key) ==>
          && SectorFor(Table(d1), key) == SectorFor(Table(d2), key)
          && HeaderFor(d1, key) == HeaderFor(d2, key)
          && Contents(d1, key) == Contents(d2, key))
  }

  ghost predicate CanCreate(d: Image, key: seq<byte>, size: int32)
    requires Sound(d)
  {
    && !HasKey(Table(d), key)
    && FreeSlot(Table(d)) < NUM_DIR_ENTRIES
    && 1 <= CountClear(FreeMap(d)) && DivRoundUp(size, SECTOR_SIZE) <= CountClear(FreeMap(d)) - 1
  }

  /** No entry in use has the name, some entry is not in use, and the clear sectors hold a header and the data. */
  lemma CanCreateIff(d: Image, key: seq<byte>, size: int32)
    requires Sound(d)
    ensures var t, clear := Table(d), CountClear(FreeMap(d));
            CanCreate(d, key, size)
            <==> && (forall i :: 0 <= i < 10 && t[i].inUse ==> t[i].Key() != key)
                 && (exists i :: 0 <= i < 10 && !t[i].inUse)
                 && 1 <= clear && size <= 4096 * (clear - 1)
  {
    hide Table, FreeMap, CountClear, DivRoundUp, RootOwns, TableOwns, SectorHeader, FileBytes, DirEntry.Key;
    DivRoundUpIsLeast(size, SECTOR_SIZE);
    var t, clear := Table(d), CountClear(FreeMap(d));
    assert HasKey(t, key) <==> exists i :: 0 <= i < 10 && Matches(t[i], key);
    assert FreeSlot(t) < 10 <==> exists i :: 0 <= i < 10 && !t[i].inUse;
    assert 1 <= clear ==> (DivRoundUp(size, SECTOR_SIZE) <= clear - 1 <==> size <= 4096 * (clear - 1));
  }

  function SectorsNeeded(size: int32): (n: nat)
    ensures n >= 1
  {
    1 + if DivRoundUp(size, SECTOR_SIZE) < 0 then 0 else DivRoundUp(size, SECTOR_SIZE)
  }

  /** d2 is d1 plus one file, on first-fit sectors, and every other name is untouched. */
  ghost predicate Created(d1: Image, d2: Image, key: seq<byte>, size: int32) {
    && Sound(d1) && Sound(d2)
    && !HasKey(Table(d1), key) && HasKey(Table(d2), key)
    && HeaderFor(d2, key).numBytes == size
    && SectorsOf(d2, key) == Picks(FreeMap(d1), SectorsNeeded(size))
    && FreeMap(d2) == Painted(FreeMap(d1), SectorsOf(d2, key), true)
    && RootOwns(d2) == RootOwns(d1)
    && forall k :: k != key ==> Untouched(d1, d2, k)
  }

  /** d2 is d1 without one file: its sectors are free again and every other name is untouched. */
  ghost predicate Removed(d1: Image, d2: Image, key: seq<byte>) {
    && Sound(d1) && Sound(d2)
    && HasKey(Table(d1), key) && !HasKey(Table(d2), key)
    && FreeMap(d2) == Painted(FreeMap(d1), SectorsOf(d1, key), false)
    && RootOwns(d2) == RootOwns(d1)
    && forall k :: k != key ==> Untouched(d1, d2, k)
  }

  lemma CreatedIsSound(d1: Image, d2: Image, key: seq<byte>, size: int32)
    requires Created(d1, d2, key, size)
    ensures Sound(d1) && Sound(d2)
  {
  }

  lemma RemovedIsSound(d1: Image, d2: Image, key: seq<byte>)
    requires Removed(d1, d2, key)
    ensures Sound(d1) && Sound(d2)
  {
  }

  /** The header of a named file is fit to be opened and written through. */
  lemma NamedFileIsSound(d: Image, key: seq<byte>)
    requires Sound(d) && HasKey(Table(d), key)
    ensures 2 <= SectorFor(Table(d), key) < NUM_SECTORS
    ensures HeaderFor(d, key).WellFormed() && HeaderFor(d, key).Distinct()
    ensures forall s :: s in SectorsOf(d, key) ==> 0 <= s < NUM_SECTORS && FreeMap(d)[s]
    ensures forall s :: s in HeaderFor(d, key).Blocks() ==> 0 <= s < NUM_SECTORS && FreeMap(d)[s]
  {
    hide Table, FreeMap, SectorHeader, FileBytes;
    var i := IndexFor(Table(d), key);
    EntryIsolated(d, i);
    var s := Table(d)[i].sector;
    assert s in [s] + HeaderAt(d, s).Blocks();
    RootHeadersOwned(d);
  }

  lemma RootFilesAreSound(d: Image)
    requires Sound(d)
    ensures Rooted(d)
    ensures HeaderAt(d, 0).WellFormed() && HeaderAt(d, 0).Distinct() && HeaderAt(d, 0).numBytes == FREE_MAP_FILE_SIZE
    ensures HeaderAt(d, 1).WellFormed() && HeaderAt(d, 1).Distinct() && HeaderAt(d, 1).numBytes == DIRECTORY_FILE_SIZE
  {
    hide Table, FreeMap, SectorHeader, TableOwns, RootOwns;
    RootsIsolated(d);
  }

  lemma RootHeadersOwned(d: Image)
    requires Rooted(d)
    ensures RootOwns(d)[0] >= 1 && RootOwns(d)[1] >= 1
    ensures forall s :: s in HeaderAt(d, 0).Blocks() || s in HeaderAt(d, 1).Blocks() ==>
              0 <= s < NUM_SECTORS && RootOwns(d)[s] >= 1
  {
    var q: seq<int> := [FREE_MAP_SECTOR, DIRECTORY_SECTOR] + HeaderAt(d, 0).Blocks() + HeaderAt(d, 1).Blocks();
    assert q[0] == 0 && q[1] == 1;
    assert forall s :: s in q ==> multiset(q)[s] >= 1;
  }

  // ---- what survives a write elsewhere ----

  lemma FileBytesFrame(d1: Image, d2: Image, h: Header)
    requires |d1| == |d2| == NUM_SECTORS && h.WellFormed()
    requires forall s :: s in h.Blocks() ==> d1[s] == d2[s]
    ensures FileBytes(d1, h) == FileBytes(d2, h)
  {
    forall k | 0 <= k < h.numBytes
      ensures FileBytes(d1, h)[k] == FileBytes(d2, h)[k]
    {
      DivRoundUpIsLeast(h.numBytes, SECTOR_SIZE);
      assert h.Blocks()[k / 4096] == h.dataSectors[k / 4096];
    }
  }

  /** The old and new image agree outside the two root files' data and the listed sectors. */
  ghost predicate AgreeBut(d1: Image, d2: Image, except: seq<int>)
    requires Rooted(d1) && |d2| == NUM_SECTORS
  {
    forall s :: 0 <= s < NUM_SECTORS ==>
      s in HeaderAt(d1, 0).Blocks() || s in HeaderAt(d1, 1).Blocks() || s in except || d1[s] == d2[s]
  }

  lemma RootHeadersKept(d1: Image, d2: Image, except: seq<int>)
    requires Sound(d1) && |d2| == NUM_SECTORS && AgreeBut(d1, d2, except)
    requires 0 !in except && 1 !in except
    ensures Rooted(d2) && HeaderAt(d1, 0) == HeaderAt(d2, 0) && HeaderAt(d1, 1) == HeaderAt(d2, 1)
    ensures RootOwns(d1) == RootOwns(d2)
  {
    RootsIsolated(d1);
  }

  /** None of the entry's sectors is in the list. */
  ghost predicate Avoids(d: Image, e: DirEntry, except: seq<int>)
    requires |d| == NUM_SECTORS && GoodEntry(d, e) && e.inUse
  {
    forall s :: s in [e.sector] + HeaderAt(d, e.sector).Blocks() ==> s !in except
  }

  /** A directory entry none of whose sectors is excepted keeps its header and its bytes. */
  lemma EntryKept(d1: Image, d2: Image, except: seq<int>, i: int)
    requires Sound(d1) && |d2| == NUM_SECTORS && AgreeBut(d1, d2, except)
    requires 0 <= i < NUM_DIR_ENTRIES && Table(d1)[i].inUse
    requires Avoids(d1, Table(d1)[i], except)
    ensures var s := Table(d1)[i].sector;
            d1[s] == d2[s] && FileBytes(d1, HeaderAt(d1, s)) == FileBytes(d2, HeaderAt(d2, s))
  {
    hide Table, FreeMap, SectorHeader, FileBytes;
    var e := Table(d1)[i];
    EntryIsolated(d1, i);
    RootHeadersOwned(d1);
    var q: seq<int> := [e.sector] + HeaderAt(d1, e.sector).Blocks();
    assert e.sector == q[0];
    assert forall s :: s in q ==> s !in HeaderAt(d1, 0).Blocks() && s !in HeaderAt(d1, 1).Blocks() && d1[s] == d2[s];
    FileBytesFrame(d1, d2, HeaderAt(d1, e.sector));
  }

  /** So a name whose directory answer did not change, and whose sectors were spared, means the same file. */
  lemma NameKept(d1: Image, d2: Image, except: seq<int>, key: seq<byte>)
    requires Sound(d1) && Sound(d2) && AgreeBut(d1, d2, except)
    requires HasKey(Table(d1), key) <==> HasKey(Table(d2), key)
    requires HasKey(Table(d1), key) ==>
               && SectorFor(Table(d1), key) == SectorFor(Table(d2), key)
               && Avoids(d1, Table(d1)[IndexFor(Table(d1), key)], except)
    ensures Untouched(d1, d2, key)
  {
    hide Table, FreeMap, SectorHeader, FileBytes;
    if HasKey(Table(d1), key) {
      EntryKept(d1, d2, except, IndexFor(Table(d1), key));
    }
  }

  lemma {:induction false} DistinctOnce(q: seq<int>, s: int)
    requires forall i, j :: 0 <= i < j < |q| ==> q[i] != q[j]
    ensures multiset(q)[s] == if s in q then 1 else 0
    decreases |q|
  {
    if q != [] {
      DistinctOnce(q[1..], s);
      assert q == [q[0]] + q[1..];
    }
  }

  /** The books still balance after marking fresh sectors and owning them. */
  lemma AccountsPlus(owned: multiset<int>, bits: seq<bool>, q: seq<int>)
    requires Accounts(owned, bits)
    requires forall i, j :: 0 <= i < j < |q| ==> q[i] != q[j]
    requires forall s :: s in q ==> 0 <= s < |bits| && !bits[s]
    ensures Accounts(owned + multiset(q), Painted(bits, q, true))
  {
    forall s {
      DistinctOnce(q, s);
    }
  }

  lemma AccountsMinus(owned: multiset<int>, rest: multiset<int>, bits: seq<bool>, q: seq<int>)
    requires Accounts(owned, bits) && owned == rest + multiset(q)
    ensures Accounts(rest, Painted(bits, q, false))
  {
    forall s
      ensures rest[s] == if 0 <= s < |bits| && Painted(bits, q, false)[s] then 1 else 0
    {
      assert owned[s] == rest[s] + multiset(q)[s];
      assert multiset(q)[s] >= 1 <==> s in q;
    }
  }

  // ---- the three updates ----

  /** The picks of a sound map: distinct, clear, and no sector anyone owns. */
  lemma PicksUnowned(d: Image, n: nat)
    requires Sound(d) && n <= CountClear(FreeMap(d))
    ensures var q := Picks(FreeMap(d), n);
            && (forall i, j :: 0 <= i < j < |q| ==> q[i] != q[j])
            && (forall s :: s in q ==> 2 <= s < NUM_SECTORS && !FreeMap(d)[s])
            && (forall i :: 0 <= i < NUM_DIR_ENTRIES && Table(d)[i].inUse ==> Avoids(d, Table(d)[i], q))
  {
    hide Table, FreeMap, SectorHeader, FileBytes, Picks, CountClear, TableOwns, RootOwns, Owned, Painted;
    PicksAreFresh(FreeMap(d), n);
    RootsIsolated(d);
    var q := Picks(FreeMap(d), n);
    forall i | 0 <= i < NUM_DIR_ENTRIES && Table(d)[i].inUse
      ensures Avoids(d, Table(d)[i], q)
    {
      EntryIsolated(d, i);
    }
  }

  /** Ownership after a directory update: whatever the update adds or drops is the only difference. */
  lemma OwnedAfter(d1: Image, d2: Image, except: seq<int>, i: int)
    requires Sound(d1) && Rooted(d2) && AgreeBut(d1, d2, except) && 0 !in except && 1 !in except
    requires forall j :: 0 <= j < NUM_DIR_ENTRIES && Table(d1)[j].inUse ==> Avoids(d1, Table(d1)[j], except)
    requires 0 <= i < NUM_DIR_ENTRIES && Table(d2) == Table(d1)[i := Table(d2)[i]] && GoodEntry(d2, Table(d2)[i])
    ensures GoodTable(d2, Table(d2))
    ensures Owned(d2) + EntryOwns(d1, Table(d1)[i]) == Owned(d1) + EntryOwns(d2, Table(d2)[i])
  {
    hide Table, FreeMap, SectorHeader, FileBytes, RootOwns, Avoids, AgreeBut;
    var t1, t2 := Table(d1), Table(d2);
    RootHeadersKept(d1, d2, except);
    forall j | 0 <= j < NUM_DIR_ENTRIES && t1[j].inUse
      ensures d1[t1[j].sector] == d2[t1[j].sector]
    {
      EntryKept(d1, d2, except, j);
    }
    TableOwnsFrame(d1, d2, t1);
    TableOwnsUpdate(d2, t1, i, t2[i]);
    var r, a, b, x, y := RootOwns(d1), TableOwns(d1, t1), TableOwns(d2, t2), EntryOwns(d1, t1[i]), EntryOwns(d2, t2[i]);
    assert EntryOwns(d2, t1[i]) == x;
    assert (r + b) + x == r + (b + x) && (r + a) + y == r + (a + y);
  }

  lemma CreateBalances(d1: Image, d2: Image, i: int, e: DirEntry, q: seq<int>)
    requires Sound(d1) && Rooted(d2) && |q| <= CountClear(FreeMap(d1)) && q == Picks(FreeMap(d1), |q|)
             && AgreeBut(d1, d2, q)
    requires 0 <= i < NUM_DIR_ENTRIES && !Table(d1)[i].inUse && e.inUse && GoodEntry(d2, e)
    requires [e.sector] + HeaderAt(d2, e.sector).Blocks() == q
    requires Table(d2) == Table(d1)[i := e] && FreeMap(d2) == Painted(FreeMap(d1), q, true)
    ensures GoodTable(d2, Table(d2)) && Accounts(Owned(d2), FreeMap(d2))
  {
    hide Table, FreeMap, SectorHeader, FileBytes, Picks, RootOwns, TableOwns, Avoids, AgreeBut, Painted;
    PicksUnowned(d1, |q|);
    OwnedAfter(d1, d2, q, i);
    assert Owned(d2) == Owned(d1) + multiset(q);
    AccountsPlus(Owned(d1), FreeMap(d1), q);
  }

  lemma CreateKeepsSound(d1: Image, d2: Image, i: int, e: DirEntry, q: seq<int>)
    requires Sound(d1) && Rooted(d2) && |q| <= CountClear(FreeMap(d1)) && q == Picks(FreeMap(d1), |q|)
             && AgreeBut(d1, d2, q)
    requires 0 <= i < NUM_DIR_ENTRIES && !Table(d1)[i].inUse && e.inUse && GoodEntry(d2, e)
             && !HasKey(Table(d1), e.Key())
    requires [e.sector] + HeaderAt(d2, e.sector).Blocks() == q
    requires Table(d2) == Table(d1)[i := e] && FreeMap(d2) == Painted(FreeMap(d1), q, true)
    ensures Created(d1, d2, e.Key(), HeaderAt(d2, e.sector).numBytes)
  {
    hide Table, FreeMap, SectorHeader, FileBytes, Picks, Owned, Avoids, AgreeBut, Painted, Accounts, IndexFor, RootOwns,
      DivRoundUp, CountClear, TableOwns;
    CreateBalances(d1, d2, i, e, q);
    PicksUnowned(d1, |q|);
    AddExtendsMap(Table(d1), i, e);
    DivRoundUpIsLeast(HeaderAt(d2, e.sector).numBytes, SECTOR_SIZE);
    RootHeadersKept(d1, d2, q);
    forall k | k != e.Key()
      ensures Untouched(d1, d2, k)
    {
      NameKept(d1, d2, q, k);
    }
  }

  lemma RemoveKeepsSound(d1: Image, d2: Image, key: seq<byte>)
    requires Sound(d1) && Rooted(d2) && HasKey(Table(d1), key) && AgreeBut(d1, d2, [])
    requires var i := IndexFor(Table(d1), key); Table(d2) == Table(d1)[i := Table(d1)[i].(inUse := false)]
    requires FreeMap(d2) == Painted(FreeMap(d1), SectorsOf(d1, key), false)
    ensures Removed(d1, d2, key)
  {
    hide Table, FreeMap, SectorHeader, FileBytes, RootOwns, TableOwns, AgreeBut, Painted;
    var t1, t2, i := Table(d1), Table(d2), IndexFor(Table(d1), key);
    OwnedAfter(d1, d2, [], i);
    AccountsMinus(Owned(d1), Owned(d2), FreeMap(d1), SectorsOf(d1, key));
    RemoveShrinksMap(t1, i);
    RootHeadersKept(d1, d2, []);
    forall k | k != key
      ensures Untouched(d1, d2, k)
    {
      NameKept(d1, d2, [], k);
    }
  }

  // ---- writing through an open file ----

  /** The header an open file keeps: well formed, and over no sector of the two root files. */
  ghost predicate Holds(d: Image, h: Header)
    requires Rooted(d)
  {
    h.WellFormed() && forall s :: s in h.Blocks() ==> RootOwns(d)[s] == 0
  }

  /** No file's header lies in the header's blocks. */
  ghost predicate SparesHeaders(d: Image, h: Header)
    requires Rooted(d)
  {
    forall i :: 0 <= i < NUM_DIR_ENTRIES && Table(d)[i].inUse ==> Table(d)[i].sector !in h.Blocks()
  }

  lemma WriteSparesRoots(d1: Image, d2: Image, h: Header)
    requires Sound(d1) && Holds(d1, h) && WritesOnly(d1, d2, h.Blocks())
    ensures Rooted(d2) && HeaderAt(d1, 0) == HeaderAt(d2, 0) && HeaderAt(d1, 1) == HeaderAt(d2, 1)
    ensures FreeMap(d2) == FreeMap(d1) && Table(d2) == Table(d1) && RootOwns(d1) == RootOwns(d2)
  {
    hide FileBytes, SectorHeader, Sound, RootOwns, Header.Blocks, Header.WellFormed, SpelledMap, SpelledTable;
    RootFilesAreSound(d1);
    RootHeadersOwned(d1);
    FileBytesFrame(d1, d2, HeaderAt(d1, 0));
    FileBytesFrame(d1, d2, HeaderAt(d1, 1));
    SameRootOwns(d1, d2);
  }

  lemma SameRootOwns(d1: Image, d2: Image)
    requires Rooted(d1) && Rooted(d2) && HeaderAt(d1, 0) == HeaderAt(d2, 0) && HeaderAt(d1, 1) == HeaderAt(d2, 1)
    ensures RootOwns(d1) == RootOwns(d2)
  {
  }

  /** A write that spares the headers of the files leaves the free map and the directory alone too. */
  lemma WriteKeepsHeaders(d1: Image, d2: Image, h: Header)
    requires Sound(d1) && Holds(d1, h) && SparesHeaders(d1, h) && WritesOnly(d1, d2, h.Blocks())
    ensures Sound(d2) && FreeMap(d2) == FreeMap(d1) && Table(d2) == Table(d1) && RootOwns(d2) == RootOwns(d1)
    ensures forall i :: 0 <= i < NUM_DIR_ENTRIES && Table(d1)[i].inUse ==>
              d1[Table(d1)[i].sector] == d2[Table(d1)[i].sector]
  {
    hide Table, FreeMap, SectorHeader, FileBytes, RootOwns, TableOwns, Holds, Header.Blocks;
    var t := Table(d1);
    WriteSparesRoots(d1, d2, h);
    forall i | 0 <= i < NUM_DIR_ENTRIES && t[i].inUse
      ensures d1[t[i].sector] == d2[t[i].sector]
    {
      assert GoodEntry(d1, t[i]);
    }
    TableOwnsFrame(d1, d2, t);
    assert Owned(d2) == Owned(d1);
  }

  /** The data of entry i holds no entry's header and no other entry's data. */
  lemma EntrySpared(d: Image, i: int, j: int)
    requires Sound(d) && 0 <= i < NUM_DIR_ENTRIES && 0 <= j < NUM_DIR_ENTRIES && Table(d)[i].inUse && Table(d)[j].inUse
    ensures var q := HeaderAt(d, Table(d)[i].sector).Blocks();
            Table(d)[j].sector !in q && (j != i ==> Avoids(d, Table(d)[j], q))
  {
    hide Table, FreeMap, SectorHeader, RootOwns, TableOwns;
    EntryIsolated(d, i);
    var e := Table(d)[j];
    if j != i {
      forall s | s in [e.sector] + HeaderAt(d, e.sector).Blocks()
        ensures s !in HeaderAt(d, Table(d)[i].sector).Blocks()
      {
        EntriesDisjoint(d, j, i, s);
      }
      assert e.sector in [e.sector] + HeaderAt(d, e.sector).Blocks();
    }
  }

  lemma NamedFileHolds(d: Image, key: seq<byte>)
    requires Sound(d) && HasKey(Table(d), key)
    ensures Holds(d, HeaderFor(d, key)) && SparesHeaders(d, HeaderFor(d, key))
  {
    hide Table, FreeMap, SectorHeader, RootOwns, TableOwns;
    var i := IndexFor(Table(d), key);
    EntryIsolated(d, i);
    forall j | 0 <= j < NUM_DIR_ENTRIES && Table(d)[j].inUse
      ensures Table(d)[j].sector !in HeaderFor(d, key).Blocks()
    {
      EntrySpared(d, i, j);
    }
  }

  /** Writing inside one file's data leaves the free map, the directory, every header and every other file alone. */
  lemma WriteKeepsSound(d1: Image, d2: Image, key: seq<byte>)
    requires Sound(d1) && |d2| == NUM_SECTORS && HasKey(Table(d1), key)
    requires forall s :: 0 <= s < NUM_SECTORS && s !in HeaderFor(d1, key).Blocks() ==> d1[s] == d2[s]
    ensures Sound(d2) && FreeMap(d2) == FreeMap(d1) && Table(d2) == Table(d1)
    ensures HeaderFor(d2, key) == HeaderFor(d1, key)
    ensures forall k :: k != key ==> Untouched(d1, d2, k)
  {
    hide Table, FreeMap, SectorHeader, FileBytes, RootOwns, TableOwns, Sound, Holds, SparesHeaders, Header.Blocks;
    RootFilesAreSound(d1);
    var t, i := Table(d1), IndexFor(Table(d1), key);
    var q: seq<int> := HeaderFor(d1, key).Blocks();
    NamedFileHolds(d1, key);
    WriteKeepsHeaders(d1, d2, HeaderFor(d1, key));
    forall k | k != key
      ensures Untouched(d1, d2, k)
    {
      if HasKey(t, k) {
        EntrySpared(d1, i, IndexFor(t, k));
      }
      NameKept(d1, d2, q, k);
    }
  }

  // ---- laws ----

  /** A file that was created got all the sectors it needs. */
  lemma CreatedFits(d1: Image, d2: Image, key: seq<byte>, size: int32)
    requires Created(d1, d2, key, size)
    ensures SectorsNeeded(size) <= CountClear(FreeMap(d1))
  {
    hide Table, FreeMap, SectorHeader, FileBytes, Picks, Painted, RootOwns, TableOwns, IndexFor;
    NamedFileIsSound(d2, key);
    assert |SectorsOf(d2, key)| == SectorsNeeded(size);
    PicksFit(FreeMap(d1), SectorsNeeded(size));
  }

  /** Create then Remove restores the exact set of free sectors and the meaning of every name. */
  lemma RemoveUndoesCreate(d1: Image, d2: Image, d3: Image, key: seq<byte>, size: int32)
    requires Created(d1, d2, key, size) && Removed(d2, d3, key)
    ensures FreeMap(d3) == FreeMap(d1)
    ensures forall k :: Untouched(d1, d3, k)
  {
    hide Table, FreeMap, SectorHeader, FileBytes, Picks, Painted, RootOwns, TableOwns, SectorsNeeded, IndexFor;
    CreatedFits(d1, d2, key, size);
    ReleaseUndoesPicks(FreeMap(d1), SectorsNeeded(size));
    assert SectorsOf(d2, key) == Picks(FreeMap(d1), SectorsNeeded(size));
    forall k
      ensures Untouched(d1, d3, k)
    {
      if k != key {
        assert Untouched(d1, d2, k) && Untouched(d2, d3, k);
      }
    }
  }

  /** Conservation: the clear bits and the owned sectors always add up to the disk. */
  lemma {:induction false} MarkedPlusClear(owned: multiset<int>, bits: seq<bool>)
    requires Accounts(owned, bits)
    ensures |owned| + CountClear(bits) == |bits|
    decreases |bits|
  {
    if bits == [] {
      assert forall s :: s !in owned;
      assert owned == multiset{};
    } else {
      var n := |bits| - 1;
      var front := if bits[n] then owned - multiset{n} else owned;
      MarkedPlusClear(front, bits[..n]);
    }
  }

  lemma SpaceIsConserved(d: Image)
    requires Sound(d)
    ensures |Owned(d)| + CountClear(FreeMap(d)) == NUM_SECTORS
    ensures CountClear(FreeMap(d)) <= NUM_DIRECT
  {
    hide Table, FreeMap, SectorHeader, TableOwns, RootOwns, CountClear, FileBytes;
    MarkedPlusClear(Owned(d), FreeMap(d));
    RootsIsolated(d);
    assert Owned(d)[0] == 1 && Owned(d)[1] == 1;
    assert Owned(d) == multiset{0, 1} + (Owned(d) - multiset{0, 1});
  }
}
