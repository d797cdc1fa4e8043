/** filesys/directory.cc: a fixed table of <in use, header sector, name>, kept on disk as an ordinary file. */
module Directories {
  import opened Words
  import opened SynchDisks
  import opened FileHeaders
  import opened OpenFiles

  const FILE_NAME_MAX_LEN := 9
  const ENTRY_BYTES := 20

  /** A C string, without its terminator, and the character array inside an entry. */
  type CString = s: seq<byte> | 0 !in s
  type NameField = s: seq<byte> | |s| == 10 witness seq(10, _ => 0)

  datatype DirEntry = DirEntry(inUse: bool, sector: int32, name: NameField) {
    function Key(): seq<byte> {
      Significant(name, FILE_NAME_MAX_LEN)
    }
  }

  // ---- strncmp and strncpy ----

  /** strncmp(a, b, n) == 0: equal up to a common NUL or for n characters. */
  predicate SameName(a: seq<byte>, b: seq<byte>, n: nat) {
    n == 0 ||
    var x := if a == [] then 0 else a[0];
    var y := if b == [] then 0 else b[0];
    x == y && (x == 0 || SameName(a[1..], b[1..], n - 1))
  }

  /** strncpy(field, s, 9): copied, then padded with NULs; the tenth byte keeps its old value. */
  function CopiedName(field: NameField, s: CString): NameField {
    seq(9, k requires 0 <= k < 9 => if k < |s| then s[k] else 0) + [field[9]]
  }

  /** The part of a name that counts: what precedes the first NUL, cut at n characters. */
  function Significant(s: seq<byte>, n: nat): seq<byte> {
    if n == 0 || s == [] || s[0] == 0 then [] else [s[0]] + Significant(s[1..], n - 1)
  }

  lemma {:induction false} SameNameIsSameKey(a: seq<byte>, b: seq<byte>, n: nat)
    ensures SameName(a, b, n) <==> Significant(a, n) == Significant(b, n)
    decreases n
  {
    if n > 0 && a != [] && b != [] && a[0] == b[0] != 0 {
      SameNameIsSameKey(a[1..], b[1..], n - 1);
      assert Significant(a, n)[1..] == Significant(a[1..], n - 1);
      assert Significant(b, n)[1..] == Significant(b[1..], n - 1);
    }
  }

  lemma {:induction false} SignificantOfPadded(a: seq<byte>, s: CString, n: nat)
    requires n <= |a| && forall k :: 0 <= k < n ==> a[k] == if k < |s| then s[k] else 0
    ensures Significant(a, n) == Significant(s, n)
    decreases n
  {
    if n > 0 && s != [] {
      assert s[0] in s;
      assert forall b :: b in s[1..] ==> b in s;
      SignificantOfPadded(a[1..], s[1..], n - 1);
    }
  }

  /** A stored name answers to exactly the names that agree with it on their first nine characters. */
  lemma CopiedNameKey(field: NameField, s: CString)
    ensures Significant(CopiedName(field, s), FILE_NAME_MAX_LEN) == Significant(s, FILE_NAME_MAX_LEN)
  {
    SignificantOfPadded(CopiedName(field, s), s, FILE_NAME_MAX_LEN);
  }

  // ---- the table, and the name-to-sector map it stands for ----

  function NameKey(name: CString): seq<byte> {
    Significant(name, FILE_NAME_MAX_LEN)
  }

  /** Character k of a string in an array that ends in NULs. */
  function CharAt(s: seq<byte>, k: nat): byte {
    if k < |s| then s[k] else 0
  }

  lemma {:induction false} SignificantIs(s: CString, n: nat)
    ensures Significant(s, n) == if |s| <= n then s else s[..n]
    decreases n
  {
    if n > 0 && s != [] {
      assert s[0] in s && forall b :: b in s[1..] ==> b in s;
      SignificantIs(s[1..], n - 1);
      assert s == [s[0]] + s[1..];
    }
  }

  /** Names count up to nine characters: two have the same key exactly when those agree. */
  lemma SameKeyIff(a: CString, b: CString)
    ensures NameKey(a) == NameKey(b) <==> forall k :: 0 <= k < 9 ==> CharAt(a, k) == CharAt(b, k)
  {
    SignificantIs(a, 9);
    SignificantIs(b, 9);
    var x, y := NameKey(a), NameKey(b);
    assert forall k :: 0 <= k < |x| ==> x[k] == CharAt(a, k) && x[k] == a[k] && a[k] in a;
    assert forall k :: 0 <= k < |y| ==> y[k] == CharAt(b, k) && y[k] == b[k] && b[k] in b;
    hide NameKey, Significant;
    if forall k :: 0 <= k < 9 ==> CharAt(a, k) == CharAt(b, k) {
      var m := if |x| < |y| then |x| else |y|;
      assert m < 9 ==> CharAt(a, m) == CharAt(b, m);
      assert forall k :: 0 <= k < |x| ==> CharAt(a, k) == CharAt(b, k);
    }
  }

  /** So names of at most nine characters have the same key only if they are the same. */
  lemma ShortNamesAreKeys(a: CString, b: CString)
    requires |a| <= 9 && |b| <= 9
    ensures NameKey(a) == NameKey(b) <==> a == b
  {
    SignificantIs(a, 9);
    SignificantIs(b, 9);
  }

  predicate Matches(e: DirEntry, key: seq<byte>) {
    e.inUse && e.Key() == key
  }

  ghost predicate DistinctKeys(table: seq<DirEntry>) {
    forall i, j :: 0 <= i < j < |table| && table[i].inUse && table[j].inUse ==> table[i].Key() != table[j].Key()
  }

  /** The first entry that answers to the key, or |table|. */
  function IndexFor(table: seq<DirEntry>, key: seq<byte>): (k: nat)
    ensures k <= |table|
    ensures forall i :: 0 <= i < k ==> !Matches(table[i], key)
    ensures k < |table| ==> Matches(table[k], key)
  {
    if table == [] || Matches(table[0], key) then 0 else 1 + IndexFor(table[1..], key)
  }

  /** The first unused entry, or |table|. */
  function FreeSlot(table: seq<DirEntry>): (k: nat)
    ensures k <= |table|
    ensures forall i :: 0 <= i < k ==> table[i].inUse
    ensures k < |table| ==> !table[k].inUse
  {
    if table == [] || !table[0].inUse then 0 else 1 + FreeSlot(table[1..])
  }

  predicate HasKey(table: seq<DirEntry>, key: seq<byte>) {
    IndexFor(table, key) < |table|
  }

  function SectorFor(table: seq<DirEntry>, key: seq<byte>): int
    requires HasKey(table, key)
  {
    table[IndexFor(table, key)].sector
  }

  /** With distinct keys the table is a map: every entry in use is the one its key finds. */
  lemma IndexForUnique(table: seq<DirEntry>, i: int, key: seq<byte>)
    requires DistinctKeys(table) && 0 <= i < |table| && Matches(table[i], key)
    ensures IndexFor(table, key) == i
  {
  }

  /** Two tables that differ only in an entry which answers to `key` in neither give `key` the same answer. */
  lemma OtherKeysKept(table: seq<DirEntry>, t: seq<DirEntry>, i: int, key: seq<byte>)
    requires |table| == |t| && 0 <= i < |t| && t == table[i := t[i]] && !Matches(table[i], key) && !Matches(t[i], key)
    ensures IndexFor(t, key) == IndexFor(table, key)
    ensures HasKey(t, key) <==> HasKey(table, key)
    ensures HasKey(t, key) ==> SectorFor(t, key) == SectorFor(table, key)
  {
    var j, k := IndexFor(table, key), IndexFor(t, key);
    assert j < |t| ==> Matches(t[j], key);
    assert k < |t| ==> Matches(table[k], key);
  }

  /** Filling a free slot with a new name adds that one name and changes the answer for no other. */
  lemma AddExtendsMap(table: seq<DirEntry>, i: int, e: DirEntry)
    requires DistinctKeys(table) && 0 <= i < |table| && !table[i].inUse && e.inUse && !HasKey(table, e.Key())
    ensures var t := table[i := e];
            && DistinctKeys(t)
            && HasKey(t, e.Key()) && SectorFor(t, e.Key()) == e.sector
            && forall key :: key != e.Key() ==>
                 (HasKey(t, key) <==> HasKey(table, key))
                 && (HasKey(t, key) ==> SectorFor(t, key) == SectorFor(table, key))
  {
    var t := table[i := e];
    assert forall j :: 0 <= j < |table| && table[j].inUse ==> !Matches(table[j], e.Key());
    IndexForUnique(t, i, e.Key());
    forall key | key != e.Key()
      ensures HasKey(t, key) <==> HasKey(table, key)
      ensures HasKey(t, key) ==> SectorFor(t, key) == SectorFor(table, key)
    {
      OtherKeysKept(table, t, i, key);
    }
  }

  lemma AddedMeans(table: seq<DirEntry>, i: nat, name: CString, sector: int32)
    requires DistinctKeys(table) && i < |table| && !table[i].inUse && !HasKey(table, NameKey(name))
    ensures var t := table[i := DirEntry(true, sector, CopiedName(table[i].name, name))];
            && DistinctKeys(t)
            && HasKey(t, NameKey(name)) && SectorFor(t, NameKey(name)) == sector
            && forall key :: key != NameKey(name) ==>
                 (HasKey(t, key) <==> HasKey(table, key))
                 && (HasKey(t, key) ==> SectorFor(t, key) == SectorFor(table, key))
  {
    CopiedNameKey(table[i].name, name);
    AddExtendsMap(table, i, DirEntry(true, sector, CopiedName(table[i].name, name)));
  }

  /** Clearing an entry forgets its name and changes the answer for no other. */
  lemma RemoveShrinksMap(table: seq<DirEntry>, i: int)
    requires DistinctKeys(table) && 0 <= i < |table| && table[i].inUse
    ensures var t := table[i := table[i].(inUse := false)];
            && DistinctKeys(t)
            && !HasKey(t, table[i].Key())
            && forall key :: key != table[i].Key() ==>
                 (HasKey(t, key) <==> HasKey(table, key))
                 && (HasKey(t, key) ==> SectorFor(t, key) == SectorFor(table, key))
  {
    var t := table[i := table[i].(inUse := false)];
    forall key | key != table[i].Key()
      ensures HasKey(t, key) <==> HasKey(table, key)
      ensures HasKey(t, key) ==> SectorFor(t, key) == SectorFor(table, key)
    {
      OtherKeysKept(table, t, i, key);
    }
  }

  // ---- the table as bytes, in the layout of the original's structure ----

  function EntryBytes(e: DirEntry): (bs: seq<byte>)
    ensures |bs| == ENTRY_BYTES
  {
    [if e.inUse then 1 else 0, 0, 0, 0] + WordBytes(Unsigned(e.sector)) + e.name + [0, 0]
  }

  function BytesEntry(bs: seq<byte>): DirEntry
    requires |bs| == ENTRY_BYTES
  {
    DirEntry(bs[0] != 0, Signed(WordOf(bs[4..8])), bs[8..18])
  }

  function TableBytes(table: seq<DirEntry>): (bs: seq<byte>)
    ensures |bs| == 20 * |table|
  {
    seq(20 * |table|, k requires 0 <= k < 20 * |table| => EntryBytes(table[k / 20])[k % 20])
  }

  function BytesTable(bs: seq<byte>): (table: seq<DirEntry>)
    ensures |table| == |bs| / 20
  {
    seq(|bs| / 20, i requires 0 <= i < |bs| / 20 => BytesEntry(bs[20 * i..20 * i + 20]))
  }

  /** One byte for inUse, three of padding, four for the sector, least significant first, ten for the name and two
      more of padding. */
  lemma EntryLayout(table: seq<DirEntry>, i: nat)
    requires i < |table|
    ensures var bs, e := TableBytes(table), table[i];
            && (bs[20 * i] != 0 <==> e.inUse)
            && (e.sector - (bs[20 * i + 4] + 0x100 * (bs[20 * i + 5] as int) + 0x1_0000 * (bs[20 * i + 6] as int)
                + 0x100_0000 * (bs[20 * i + 7] as int))) % 0x1_0000_0000 == 0
            && bs[20 * i + 8..20 * i + 18] == e.name
  {
    hide EntryBytes, TableBytes;
    EntryBytesAre(table[i]);
    TableBytesSlice(table, i);
    var bs, x := TableBytes(table), EntryBytes(table[i]);
    assert bs[20 * i..20 * i + 20] == x;
    assert bs[20 * i] == x[0] && bs[20 * i + 4] == x[4] && bs[20 * i + 5] == x[5] && bs[20 * i + 6] == x[6]
           && bs[20 * i + 7] == x[7];
    assert bs[20 * i..20 * i + 20][8..18] == bs[20 * i + 8..20 * i + 18];
  }

  lemma EntryBytesAre(e: DirEntry)
    ensures var x := EntryBytes(e);
            && (x[0] != 0 <==> e.inUse)
            && (e.sector - (x[4] + 0x100 * (x[5] as int) + 0x1_0000 * (x[6] as int) + 0x100_0000 * (x[7] as int)))
               % 0x1_0000_0000 == 0
            && x[8..18] == e.name
  {
    hide WordBytes;
    var x, w := EntryBytes(e), WordBytes(Unsigned(e.sector));
    assert x[4] == w[0] && x[5] == w[1] && x[6] == w[2] && x[7] == w[3];
    WordBytesAre(Unsigned(e.sector));
  }

  lemma EntryRoundTrip(e: DirEntry)
    ensures BytesEntry(EntryBytes(e)) == e
  {
    var bs := EntryBytes(e);
    assert bs[4..8] == WordBytes(Unsigned(e.sector)) && bs[8..18] == e.name;
    WordRoundTrip(Unsigned(e.sector));
    SignedUnsigned(e.sector);
  }

  lemma TableBytesSlice(table: seq<DirEntry>, i: int)
    requires 0 <= i < |table|
    ensures TableBytes(table)[20 * i..20 * i + 20] == EntryBytes(table[i])
  {
    hide EntryBytes;
    forall j | 0 <= j < 20
      ensures TableBytes(table)[20 * i + j] == EntryBytes(table[i])[j]
    {
      assert (20 * i + j) / 20 == i && (20 * i + j) % 20 == j;
    }
  }

  lemma TableRoundTrip(table: seq<DirEntry>)
    ensures BytesTable(TableBytes(table)) == table
  {
    hide EntryBytes, TableBytes, BytesEntry;
    var bs := TableBytes(table);
    forall i | 0 <= i < |table|
      ensures BytesEntry(bs[20 * i..20 * i + 20]) == table[i]
    {
      TableBytesSlice(table, i);
      EntryRoundTrip(table[i]);
    }
  }

  class Directory {
    const table: array<DirEntry>

    ghost function Table(): seq<DirEntry>
      reads table
    {
      table[..]
    }

    constructor (size: nat)
      ensures fresh(table) && table.Length == size
      ensures forall i :: 0 <= i < size ==> !table[i].inUse
    {
      table := new DirEntry[size];
      new;
      for i := 0 to size
        invariant forall j :: 0 <= j < i ==> !table[j].inUse
      {
        table[i] := table[i].(inUse := false);
      }
    }

    method FetchFrom(file: OpenFile)
      requires file.Valid() && file.hdr.numBytes == 20 * table.Length
      modifies table
      ensures Table() == BytesTable(file.Bytes())
    {
      var raw := new byte[20 * table.Length];
      var _ := file.ReadAt(raw, 0, 20 * table.Length, 0);
      assert raw[..] == file.Bytes();
      var t := BytesTable(raw[..]);
      forall i | 0 <= i < table.Length {
        table[i] := t[i];
      }
      assert table[..] == t;
    }

    method WriteBack(file: OpenFile)
      requires file.Valid() && file.hdr.numBytes == 20 * table.Length && file.hdr.Value().Distinct()
      modifies file.disk
      ensures file.Valid() && BytesTable(file.Bytes()) == Table()
      ensures WritesOnly(old(file.disk.sectors), file.disk.sectors, file.hdr.Value().Blocks())
    {
      var raw := TableBytes(table[..]);
      var n := file.WriteAt(raw, 20 * table.Length, 0);
      assert file.Bytes() == raw;
      TableRoundTrip(table[..]);
    }

    method FindIndex(name: CString) returns (found: int)
      ensures found == if HasKey(Table(), NameKey(name)) then IndexFor(Table(), NameKey(name)) else -1
    {
      ghost var key := NameKey(name);
      for i := 0 to table.Length
        invariant forall j :: 0 <= j < i ==> !Matches(table[j], key)
      {
        SameNameIsSameKey(table[i].name, name, FILE_NAME_MAX_LEN);
        if table[i].inUse && SameName(table[i].name, name, FILE_NAME_MAX_LEN) {
          assert Matches(Table()[i], key);
          return i;
        }
      }
      return -1;
    }

    method Find(name: CString) returns (sector: int)
      ensures sector == if HasKey(Table(), NameKey(name)) then SectorFor(Table(), NameKey(name)) else -1
    {
      var i := FindIndex(name);
      if i != -1 {
        return table[i].sector;
      }
      return -1;
    }

    method Add(name: CString, newSector: int32) returns (ok: bool)
      modifies table
      ensures var before := old(Table()); var k := FreeSlot(before);
              && (ok <==> !HasKey(before, NameKey(name)) && k < |before|)
              && Table() == if ok then before[k := DirEntry(true, newSector, CopiedName(before[k].name, name))]
                 else before
    {
      var i := FindIndex(name);
      if i != -1 {
        return false;
      }
      for k := 0 to table.Length
        invariant Table() == old(Table())
        invariant forall j :: 0 <= j < k ==> table[j].inUse
      {
        if !table[k].inUse {
          table[k] := DirEntry(true, newSector, CopiedName(table[k].name, name));
          return true;
        }
      }
      return false;
    }

    /** A name is found under itself after it was added, and every name that differs from it within nine characters is
        found where it was. */
    method AddThenFind(name: CString, newSector: int32, other: CString) returns (ok: bool, before: int, after: int)
      requires DistinctKeys(Table())
      modifies table
      ensures DistinctKeys(Table())
      ensures ok && (forall k :: 0 <= k < 9 ==> CharAt(other, k) == CharAt(name, k)) ==>
                before == -1 && after == newSector
      ensures (exists k :: 0 <= k < 9 && CharAt(other, k) != CharAt(name, k)) ==> after == before
    {
      hide NameKey, DirEntry.Key, CopiedName, IndexFor, DistinctKeys;
      SameKeyIff(other, name);
      before := Find(other);
      ghost var t := Table();
      ok := Add(name, newSector);
      if ok {
        AddedMeans(t, FreeSlot(t), name, newSector);
      }
      after := Find(other);
    }

    method Remove(name: CString) returns (ok: bool)
      modifies table
      ensures var before := old(Table()); var i := IndexFor(before, NameKey(name));
              && ok == HasKey(before, NameKey(name))
              && Table() == if ok then before[i := before[i].(inUse := false)] else before
    {
      var i := FindIndex(name);
      if i == -1 {
        return false;
      }
      table[i] := table[i].(inUse := false);
      return true;
    }
  }
}
