/** filesys/openfile.cc: byte-granular reads and writes over whole-sector disk transfers. */
module OpenFiles {
  import opened Words
  import opened SynchDisks
  import opened FileHeaders

  // ---- the flat file a header stands for ----

  /** Byte k of a file's blocks: block k / SectorSize, offset k % SectorSize. */
  function BlockByte(disk: seq<Sector>, h: Header, k: int): byte
    requires |disk| == NUM_SECTORS && h.WellFormed() && 0 <= k < h.numSectors * 4096
  {
    disk[h.dataSectors[k / 4096]][k % 4096]
  }

  function FileBytes(disk: seq<Sector>, h: Header): (bytes: seq<byte>)
    requires |disk| == NUM_SECTORS && h.WellFormed()
    ensures |bytes| == if h.numBytes < 0 then 0 else h.numBytes
    ensures forall k :: 0 <= k < |bytes| ==> k < h.numSectors * 4096 && bytes[k] == BlockByte(disk, h, k)
  {
    DivRoundUpIsLeast(h.numBytes, SECTOR_SIZE);
    seq(if h.numBytes < 0 then 0 else h.numBytes, k requires 0 <= k < h.numBytes => BlockByte(disk, h, k))
  }

  lemma BlockByteAt(disk: seq<Sector>, h: Header, i: int, o: int)
    requires |disk| == NUM_SECTORS && h.WellFormed() && 0 <= i < h.numSectors && 0 <= o < 4096
    ensures BlockByte(disk, h, i * 4096 + o) == disk[h.dataSectors[i]][o]
  {
    assert (i * 4096 + o) / 4096 == i && (i * 4096 + o) % 4096 == o;
  }

  /** How many bytes a request moves: none for an empty request or one past the end, and never past the end. */
  function Clip(length: int, numBytes: int, position: int): nat {
    if numBytes <= 0 || position >= length then 0
    else if position + numBytes > length then length - position
    else numBytes
  }

  /** No larger part of the request lies within the file. */
  lemma ClipIsLargest(length: nat, numBytes: int, position: nat, m: nat)
    ensures var n := Clip(length, numBytes, position);
            && (n > 0 ==> n <= numBytes && position + n <= length)
            && (m <= numBytes && position + m <= length ==> m <= n)
  {
  }

  /** The test of the clipping as an int computes it: the sum wraps around. */
  function WrappedClip(length: int32, numBytes: int32, position: int32): int {
    if numBytes <= 0 || position >= length then 0
    else if Signed(Wrap(position + numBytes)) > length then length - position
    else numBytes
  }

  /** What ReadAt and WriteAt ask of their callers: that the end of a request they do not turn away is an int. */
  predicate EndFits(length: int32, numBytes: int32, position: int32) {
    numBytes <= 0 || position >= length || position + numBytes < TWO31
  }

  /** A file's header has room for less than four megabytes, so ends of reasonable requests fit. */
  lemma FilesAreShort(h: Header)
    requires h.WellFormed()
    ensures h.numBytes <= NUM_DIRECT * SECTOR_SIZE
  {
    hide DivRoundUp;
    DivRoundUpIsLeast(h.numBytes, SECTOR_SIZE);
  }

  /** It is exactly when the clipping is right. */
  lemma ClipsExactlyIfEndFits(length: int32, numBytes: int32, position: int32)
    requires 0 <= position
    ensures WrappedClip(length, numBytes, position) == Clip(length, numBytes, position)
            <==> EndFits(length, numBytes, position)
  {
    if 0 < numBytes {
      WrapOfSum(position, numBytes);
    }
  }

  lemma ClippingCanFail()
    ensures WrappedClip(2, 0x7fff_ffff, 1) == 0x7fff_ffff && Clip(2, 0x7fff_ffff, 1) == 1
  {
    WrapOfSum(1, 0x7fff_ffff);
  }

  lemma WrapOfSum(i: int32, j: int32)
    requires 0 <= i && 0 <= j
    ensures Signed(Wrap(i + j)) == if i + j < TWO31 then i + j else i + j - TWO32
  {
  }

  /** `bytes` with `src` laid over it from `position` on. */
  function Patched(bytes: seq<byte>, position: nat, src: seq<byte>): (r: seq<byte>)
    requires position + |src| <= |bytes|
    ensures |r| == |bytes|
    ensures forall k :: 0 <= k < |bytes| ==>
            r[k] == if position <= k < position + |src| then src[k - position] else bytes[k]
  {
    bytes[..position] + src + bytes[position + |src|..]
  }

  /** No sector outside the blocks differs. */
  ghost predicate WritesOnly(d1: seq<Sector>, d2: seq<Sector>, blocks: seq<int32>) {
    |d1| == |d2| == NUM_SECTORS && forall s :: 0 <= s < NUM_SECTORS && s !in blocks ==> d2[s] == d1[s]
  }

  /** d2 is d1 with blocks first..last-1 of h replaced by consecutive sectors of img, and nothing else touched. */
  ghost predicate BlocksWritten(d1: seq<Sector>, d2: seq<Sector>, h: Header, first: int, last: int, img: seq<byte>)
    requires |d1| == |d2| == NUM_SECTORS && h.WellFormed()
    requires 0 <= first <= last <= h.numSectors && (last - first) * 4096 <= |img|
  {
    && (forall i :: first <= i < last ==> d2[h.dataSectors[i]] == img[(i - first) * 4096..(i - first) * 4096 + 4096])
    && (forall s :: 0 <= s < NUM_SECTORS && s !in h.dataSectors[first..last] ==> d2[s] == d1[s])
  }

  /** Because no two blocks of the file share a sector, writing one more block keeps the earlier ones. */
  lemma WriteOneBlock(d1: seq<Sector>, d2: seq<Sector>, h: Header, first: int, i: int, img: seq<byte>)
    requires |d1| == |d2| == NUM_SECTORS && h.WellFormed() && h.Distinct()
    requires 0 <= first <= i < h.numSectors && (i + 1 - first) * 4096 <= |img|
    requires BlocksWritten(d1, d2, h, first, i, img)
    ensures BlocksWritten(d1, d2[h.dataSectors[i] := img[(i - first) * 4096..(i - first) * 4096 + 4096]], h, first,
            i + 1, img)
  {
    assert h.dataSectors[first..i + 1] == h.dataSectors[first..i] + [h.dataSectors[i]];
  }

  lemma NothingWritten(d: seq<Sector>, h: Header, first: int, img: seq<byte>)
    requires |d| == NUM_SECTORS && h.WellFormed() && 0 <= first <= h.numSectors
    ensures BlocksWritten(d, d, h, first, first, img)
  {
  }

  lemma OthersKept(d1: seq<Sector>, d2: seq<Sector>, h: Header, first: int, last: int, img: seq<byte>)
    requires |d1| == |d2| == NUM_SECTORS && h.WellFormed()
    requires 0 <= first <= last <= h.numSectors && (last - first) * 4096 <= |img|
    requires BlocksWritten(d1, d2, h, first, last, img)
    ensures forall s :: 0 <= s < NUM_SECTORS && s !in h.Blocks() ==> d2[s] == d1[s]
  {
    assert forall s :: s in h.dataSectors[first..last] ==> s in h.Blocks();
  }

  /** What the file reads after its blocks first..last-1 were overwritten. */
  lemma BytesAfterWrite(d1: seq<Sector>, d2: seq<Sector>, h: Header, first: int, last: int, img: seq<byte>, k: int)
    requires |d1| == |d2| == NUM_SECTORS && h.WellFormed() && h.Distinct()
    requires 0 <= first <= last <= h.numSectors && (last - first) * 4096 <= |img|
    requires BlocksWritten(d1, d2, h, first, last, img)
    requires 0 <= k < h.numBytes
    ensures k < h.numSectors * 4096
    ensures BlockByte(d2, h, k) == if first * 4096 <= k < last * 4096
            then img[k - first * 4096] else BlockByte(d1, h, k)
  {
    DivRoundUpIsLeast(h.numBytes, SECTOR_SIZE);
    var i := k / 4096;
    if first <= i < last {
      assert k - first * 4096 == (i - first) * 4096 + k % 4096;
    } else {
      forall j | first <= j < last
        ensures h.dataSectors[j] != h.dataSectors[i]
      {
      }
    }
  }

  /** A buffer that agrees with `want` over the written blocks turns the file into `want`. */
  lemma FileAfterWrite(d1: seq<Sector>, d2: seq<Sector>, h: Header, first: int, last: int, img: seq<byte>,
                     want: seq<byte>)
    requires |d1| == |d2| == NUM_SECTORS && h.WellFormed() && h.Distinct()
    requires 0 <= first <= last <= h.numSectors && (last - first) * 4096 <= |img|
    requires BlocksWritten(d1, d2, h, first, last, img)
    requires |want| == |FileBytes(d1, h)|
    requires forall k :: 0 <= k < |want| && !(first * 4096 <= k < last * 4096) ==> want[k] == FileBytes(d1, h)[k]
    requires forall k :: 0 <= k < (last - first) * 4096 && first * 4096 + k < |want| ==>
             img[k] == want[first * 4096 + k]
    ensures FileBytes(d2, h) == want
  {
    forall k | 0 <= k < |want|
      ensures FileBytes(d2, h)[k] == want[k]
    {
      BytesAfterWrite(d1, d2, h, first, last, img, k);
      if first * 4096 <= k < last * 4096 {
        assert img[k - first * 4096] == want[first * 4096 + (k - first * 4096)];
      }
    }
  }

  class OpenFile {
    const disk: SynchDisk
    const hdr: FileHeader
    var seekPosition: int32

    ghost predicate Valid()
      reads disk, hdr, hdr.dataSectors
    {
      disk.Valid() && hdr.Valid() && hdr.Value().WellFormed()
    }

    /** The file's contents. */
    ghost function Bytes(): seq<byte>
      reads disk, hdr, hdr.dataSectors
      requires Valid()
    {
      FileBytes(disk.sectors, hdr.Value())
    }

    constructor (disk: SynchDisk, sector: int)
      requires disk.Valid() && 0 <= sector < NUM_SECTORS && SectorHeader(disk.sectors[sector]).WellFormed()
      ensures Valid() && this.disk == disk && fresh(hdr) && fresh(hdr.dataSectors) && seekPosition == 0
      ensures hdr.Value() == SectorHeader(disk.sectors[sector])
    {
      this.disk := disk;
      var h := new FileHeader();
      h.FetchFrom(disk, sector);
      hdr := h;
      seekPosition := 0;
    }

    method Seek(position: int32)
      modifies this
      ensures seekPosition == position
    {
      seekPosition := position;
    }

    method ReadAt(into: array<byte>, at: nat, numBytes: int32, position: int32) returns (n: int32)
      requires Valid() && 0 <= position && EndFits(hdr.numBytes, numBytes, position)
      requires at + Clip(hdr.numBytes, numBytes, position) <= into.Length
      modifies into
      ensures n == Clip(hdr.numBytes, numBytes, position)
      ensures forall k :: 0 <= k < into.Length ==>
                into[k] == if at <= k < at + n then Bytes()[position + k - at] else old(into[k])
    {
      hide FileBytes, BlockByte;
      ghost var h, d := hdr.Value(), disk.sectors;
      var fileLength := hdr.numBytes;
      if numBytes <= 0 || position >= fileLength {
        return 0;
      }
      n := numBytes;
      WrapOfSum(position, numBytes);
      if Signed(Wrap(position + numBytes)) > fileLength {
        n := fileLength - position;
      }
      var firstSector := position / 4096;
      var lastSector := (position + n - 1) / 4096;
      var numSectors := 1 + lastSector - firstSector;
      var buf := new byte[numSectors * 4096];
      assert lastSector < h.numSectors;
      LoadBlocks(buf, firstSector, lastSector);
      var skip := position - firstSector * 4096;
      forall k | 0 <= k < n {
        into[at + k] := buf[skip + k];
      }
    }

    /** The loop of ReadAt: whole blocks come in. */
    method LoadBlocks(buf: array<byte>, firstSector: int, lastSector: int)
      requires Valid() && 0 <= firstSector <= lastSector < hdr.numSectors
      requires buf.Length == (lastSector + 1 - firstSector) * 4096
      modifies buf
      ensures forall k :: 0 <= k < buf.Length ==>
                buf[k] == BlockByte(disk.sectors, hdr.Value(), firstSector * 4096 + k)
    {
      hide FileBytes, BlockByte, DivRoundUp;
      ghost var h, d := hdr.Value(), disk.sectors;
      var i := firstSector;
      while i <= lastSector
        invariant firstSector <= i <= lastSector + 1
        invariant forall k :: 0 <= k < (i - firstSector) * 4096 ==> buf[k] == BlockByte(d, h, firstSector * 4096 + k)
      {
        forall o | 0 <= o < 4096
          ensures BlockByte(d, h, i * 4096 + o) == d[h.dataSectors[i]][o]
        {
          BlockByteAt(d, h, i, o);
        }
        label L:
        disk.ReadSector(hdr.dataSectors[i], buf, (i - firstSector) * 4096);
        forall k | 0 <= k < (i + 1 - firstSector) * 4096
          ensures buf[k] == BlockByte(d, h, firstSector * 4096 + k)
        {
          var o := k - (i - firstSector) * 4096;
          if o < 0 {
            assert buf[k] == old@L(buf[k]);
          } else {
            assert BlockByte(d, h, i * 4096 + o) == d[h.dataSectors[i]][o];
          }
        }
        i := i + 1;
      }
    }

    method WriteAt(from: seq<byte>, numBytes: int32, position: int32) returns (n: int32)
      requires Valid() && 0 <= position && EndFits(hdr.numBytes, numBytes, position) && hdr.Value().Distinct()
      requires Clip(hdr.numBytes, numBytes, position) <= |from|
      modifies disk
      ensures Valid() && n == Clip(hdr.numBytes, numBytes, position)
      ensures position + n <= |old(Bytes())| || n == 0
      ensures Bytes() == if n == 0 then old(Bytes()) else Patched(old(Bytes()), position, from[..n])
      ensures forall s :: 0 <= s < NUM_SECTORS && (n == 0 || s !in hdr.Value().Blocks()) ==>
              disk.sectors[s] == old(disk.sectors[s])
    {
      hide FileBytes, BlockByte, Patched;
      ghost var was := Bytes();
      var fileLength := hdr.numBytes;
      if numBytes <= 0 || position >= fileLength {
        return 0;
      }
      n := numBytes;
      WrapOfSum(position, numBytes);
      if Signed(Wrap(position + numBytes)) > fileLength {
        n := fileLength - position;
      }
      var firstSector := position / 4096;
      var lastSector := (position + n - 1) / 4096;
      var numSectors := 1 + lastSector - firstSector;
      var buf := new byte[numSectors * 4096];
      assert lastSector < hdr.numSectors;
      LoadEdges(buf, firstSector, lastSector, position, n);
      var skip := position - firstSector * 4096;
      forall k | 0 <= k < n {
        buf[skip + k] := from[k];
      }
      WriteBlocks(buf, firstSector, lastSector, Patched(was, position, from[..n]));
    }

    /** The opening of WriteAt: the first and last block are read in when the request covers them only in part,
        so every byte of the buffer that the request leaves alone and that lies inside the file is the file's own. */
    method LoadEdges(buf: array<byte>, firstSector: int, lastSector: int, position: int32, n: int32)
      requires Valid() && 0 < n && 0 <= position && position + n <= hdr.numBytes
      requires firstSector == position / 4096 && lastSector == (position + n - 1) / 4096
      requires buf.Length == (lastSector + 1 - firstSector) * 4096
      modifies buf
      ensures forall k :: 0 <= k < buf.Length && firstSector * 4096 + k < hdr.numBytes ==>
                position <= firstSector * 4096 + k < position + n || buf[k] == Bytes()[firstSector * 4096 + k]
    {
      hide FileBytes, BlockByte, DivRoundUp;
      FilesAreShort(hdr.Value());
      var firstAligned := position == firstSector * 4096;
      var lastAligned := position + n == (lastSector + 1) * 4096;
      if !firstAligned {
        var _ := ReadAt(buf, 0, SECTOR_SIZE, firstSector * 4096);
      }
      if !lastAligned && (firstSector != lastSector || firstAligned) {
        var _ := ReadAt(buf, (lastSector - firstSector) * 4096, SECTOR_SIZE, lastSector * 4096);
      }
    }

    /** The closing loop of WriteAt: the buffer goes back to disk block by block.  `want` is what the file is to read
        afterwards; inside the written blocks the buffer already spells it. */
    method WriteBlocks(buf: array<byte>, firstSector: int, lastSector: int, ghost want: seq<byte>)
      requires Valid() && hdr.Value().Distinct()
      requires 0 <= firstSector <= lastSector < hdr.numSectors && buf.Length == (lastSector + 1 - firstSector) * 4096
      requires |want| == |Bytes()|
      requires forall k :: 0 <= k < |want| && !(firstSector * 4096 <= k < (lastSector + 1) * 4096) ==>
               want[k] == Bytes()[k]
      requires forall k :: 0 <= k < buf.Length && firstSector * 4096 + k < |want| ==>
               buf[k] == want[firstSector * 4096 + k]
      modifies disk
      ensures Valid() && Bytes() == want
      ensures forall s :: 0 <= s < NUM_SECTORS && s !in hdr.Value().Blocks() ==> disk.sectors[s] == old(disk.sectors[s])
    {
      hide FileBytes, BlockByte, BlocksWritten;
      ghost var h, d, img := hdr.Value(), disk.sectors, buf[..];
      NothingWritten(d, h, firstSector, img);
      var i := firstSector;
      while i <= lastSector
        invariant firstSector <= i <= lastSector + 1
        invariant buf[..] == img && disk.Valid()
        invariant BlocksWritten(d, disk.sectors, h, firstSector, i, img)
      {
        WriteOneBlock(d, disk.sectors, h, firstSector, i, img);
        disk.WriteSector(hdr.dataSectors[i], buf, (i - firstSector) * 4096);
        i := i + 1;
      }
      FileAfterWrite(d, disk.sectors, h, firstSector, i, img, want);
      OthersKept(d, disk.sectors, h, firstSector, i, img);
    }

    method Read(into: array<byte>, numBytes: int32) returns (n: int32)
      requires Valid() && 0 <= seekPosition && EndFits(hdr.numBytes, numBytes, seekPosition)
      requires Clip(hdr.numBytes, numBytes, seekPosition) <= into.Length
      modifies into, this
      ensures n == Clip(hdr.numBytes, numBytes, old(seekPosition)) && seekPosition == old(seekPosition) + n
      ensures forall k :: 0 <= k < into.Length ==>
                into[k] == if k < n then Bytes()[old(seekPosition) + k] else old(into[k])
    {
      n := ReadAt(into, 0, numBytes, seekPosition);
      seekPosition := seekPosition + n;
    }

    method Write(from: seq<byte>, numBytes: int32) returns (n: int32)
      requires Valid() && 0 <= seekPosition && EndFits(hdr.numBytes, numBytes, seekPosition) && hdr.Value().Distinct()
      requires Clip(hdr.numBytes, numBytes, seekPosition) <= |from|
      modifies disk, this
      ensures Valid() && n == Clip(hdr.numBytes, numBytes, old(seekPosition)) && seekPosition == old(seekPosition) + n
      ensures old(seekPosition) + n <= |old(Bytes())| || n == 0
      ensures Bytes() == if n == 0 then old(Bytes()) else Patched(old(Bytes()), old(seekPosition), from[..n])
      ensures forall s :: 0 <= s < NUM_SECTORS && (n == 0 || s !in hdr.Value().Blocks()) ==>
              disk.sectors[s] == old(disk.sectors[s])
    {
      n := WriteAt(from, numBytes, seekPosition);
      seekPosition := seekPosition + n;
    }

    method Length() returns (n: int32)
      requires Valid()
      ensures n == hdr.numBytes
    {
      n := hdr.numBytes;
    }
  }
}
