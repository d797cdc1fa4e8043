/** filesys/fstest.cc: Copy brings a host file in, Print reads a file out, both ten bytes at a time. */
module FsTests {
  import opened Words
  import opened SynchDisks
  import opened FileHeaders
  import opened OpenFiles
  import opened Directories
  import opened Volumes
  import opened FsLaws
  import opened FileSystems

  const TRANSFER_SIZE := 10

  /** Extending a written prefix by the next chunk. */
  lemma PatchPrefix(bytes: seq<byte>, source: seq<byte>, p: nat, n: nat)
    requires |bytes| == |source| && p + n <= |source| && bytes[..p] == source[..p]
    ensures Patched(bytes, p, source[p..p + n])[..p + n] == source[..p + n]
  {
  }

  /** The host file is the value `source`; `fread` hands over the next chunk of it. */
  method Copy(fs: FileSystem, source: seq<byte>, to: CString) returns (ok: bool)
    requires fs.Valid() && |source| < TWO31
    modifies fs.disk
    ensures fs.Valid()
    ensures ok <==> old(CanCreate(fs.disk.sectors, NameKey(to), |source|))
    ensures !ok ==> fs.disk.sectors == old(fs.disk.sectors)
    ensures ok ==> HasKey(Table(fs.disk.sectors), NameKey(to)) && Contents(fs.disk.sectors, NameKey(to)) == source
    ensures ok ==> forall k :: k != NameKey(to) ==> Untouched(old(fs.disk.sectors), fs.disk.sectors, k)
  {
    hide FileBytes, SectorHeader, FreeMap, Table, IndexFor, HasKey, Sound, CanCreate, Untouched, DivRoundUp,
         Header.Distinct;
    ghost var d0, key := fs.disk.sectors, NameKey(to);
    ok := fs.Create(to, |source|);
    if !ok {
      return;
    }
    var openFile := fs.Open(to);
    ghost var d1 := fs.disk.sectors;
    NamedFileIsSound(d1, key);
    CopyChunks(openFile, source);
    WriteKeepsSound(d1, fs.disk.sectors, key);
    UntouchedTrans(d0, d1, fs.disk.sectors, key);
    WriteSparesHeaders(d1, key);
  }

  /** The transfer loop of Copy. */
  method CopyChunks(file: OpenFile, source: seq<byte>)
    requires file.Valid() && file.seekPosition == 0 && file.hdr.numBytes == |source| && file.hdr.Value().Distinct()
    modifies file.disk, file
    ensures file.Valid() && file.Bytes() == source
    ensures WritesOnly(old(file.disk.sectors), file.disk.sectors, file.hdr.Value().Blocks())
  {
    hide FileBytes, Patched, DivRoundUp;
    var p := 0;
    while p < |source|
      invariant 0 <= p <= |source| && file.seekPosition == p
      invariant file.Valid() && file.Bytes()[..p] == source[..p]
      invariant forall s :: 0 <= s < NUM_SECTORS && s !in file.hdr.Value().Blocks() ==>
                  file.disk.sectors[s] == old(file.disk.sectors[s])
    {
      var amountRead := if |source| - p < TRANSFER_SIZE then |source| - p else TRANSFER_SIZE;
      var chunk := source[p..p + amountRead];
      assert chunk[..amountRead] == chunk;
      PatchPrefix(file.Bytes(), source, p, amountRead);
      var _ := file.Write(chunk, amountRead);
      p := p + amountRead;
    }
    assert file.Bytes()[..p] == file.Bytes() && source[..p] == source;
  }

  lemma WriteSparesHeaders(d: Image, key: seq<byte>)
    requires Sound(d) && HasKey(Table(d), key)
    ensures 0 !in HeaderFor(d, key).Blocks() && 1 !in HeaderFor(d, key).Blocks()
  {
    hide FileBytes, SectorHeader, FreeMap, Table;
    EntryIsolated(d, IndexFor(Table(d), key));
    RootHeadersOwned(d);
    assert forall s :: s in HeaderFor(d, key).Blocks() ==> s in SectorsOf(d, key);
  }

  lemma UntouchedTrans(d1: Image, d2: Image, d3: Image, key: seq<byte>)
    requires Sound(d1) && Sound(d2) && Sound(d3)
    requires forall k :: k != key ==> Untouched(d1, d2, k)
    requires forall k :: k != key ==> Untouched(d2, d3, k)
    ensures forall k :: k != key ==> Untouched(d1, d3, k)
  {
    hide FileBytes, SectorHeader, FreeMap, Table, IndexFor;
    forall k | k != key
      ensures Untouched(d1, d3, k)
    {
      assert Untouched(d1, d2, k) && Untouched(d2, d3, k);
    }
  }

  method Print(fs: FileSystem, name: CString) returns (printed: seq<byte>)
    requires fs.Valid()
    ensures printed == if HasKey(Table(fs.disk.sectors), NameKey(name))
            then Contents(fs.disk.sectors, NameKey(name)) else []
  {
    var openFile := fs.Open(name);
    if openFile == null {
      return [];
    }
    printed := PrintChunks(openFile);
  }

  /** The transfer loop of Print. */
  method PrintChunks(file: OpenFile) returns (printed: seq<byte>)
    requires file.Valid() && file.seekPosition == 0
    modifies file
    ensures printed == file.Bytes()
  {
    hide FileBytes, DivRoundUp;
    printed := [];
    ghost var bytes := file.Bytes();
    var buffer := new byte[TRANSFER_SIZE];
    var amountRead := ReadChunk(file, buffer, bytes, 0);
    while amountRead > 0
      invariant file.Valid() && file.Bytes() == bytes
      invariant 0 <= amountRead <= TRANSFER_SIZE && file.seekPosition == |printed| + amountRead <= |bytes|
      invariant printed == bytes[..|printed|]
      invariant buffer[..amountRead] == bytes[|printed|..|printed| + amountRead]
      invariant amountRead == 0 ==> |printed| == |bytes|
      decreases |bytes| - |printed|
    {
      ChunkAppended(bytes, |printed|, amountRead);
      printed := printed + buffer[..amountRead];
      amountRead := ReadChunk(file, buffer, bytes, |printed|);
    }
  }

  lemma ChunkAppended(bytes: seq<byte>, p: nat, n: nat)
    requires p + n <= |bytes|
    ensures bytes[..p] + bytes[p..p + n] == bytes[..p + n]
  {
  }

  method ReadChunk(file: OpenFile, buffer: array<byte>, ghost bytes: seq<byte>, ghost p: nat) returns (n: int)
    requires file.Valid() && file.Bytes() == bytes && file.seekPosition == p <= |bytes|
             && buffer.Length == TRANSFER_SIZE
    modifies file, buffer
    ensures file.Valid() && file.Bytes() == bytes && file.seekPosition == p + n
    ensures 0 <= n <= TRANSFER_SIZE && p + n <= |bytes| && (n == 0 ==> p == |bytes|)
    ensures buffer[..n] == bytes[p..p + n]
  {
    hide FileBytes, DivRoundUp;
    FilesAreShort(file.hdr.Value());
    n := file.Read(buffer, TRANSFER_SIZE);
  }

  /** What goes in comes out: a copied file prints as its source, for every source that fits. */
  method CopyThenPrint(fs: FileSystem, source: seq<byte>, name: CString) returns (ok: bool, printed: seq<byte>)
    requires fs.Valid() && |source| < TWO31
    modifies fs.disk
    ensures fs.Valid() && (ok <==> old(CanCreate(fs.disk.sectors, NameKey(name), |source|)))
    ensures ok ==> printed == source
  {
    ok := Copy(fs, source, name);
    printed := Print(fs, name);
  }
}
