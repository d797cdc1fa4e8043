/** filesys/filehdr.cc: the i-node, exactly one sector on disk -- a length, a block count and a table of sector
    numbers. */
module FileHeaders {
  import opened Words
  import opened BitMaps
  import opened SynchDisks

  const NUM_DIRECT := 1022

  /** The value of a header, in memory or on disk. */
  datatype Header = Header(numBytes: int32, numSectors: int32, dataSectors: seq<int32>) {
    /** The sectors this header allocates; a header of non-positive size allocates none. */
    function Blocks(): seq<int32> {
      if numSectors <= 0 then [] else if numSectors <= |dataSectors| then dataSectors[..numSectors] else dataSectors
    }

    ghost predicate WellFormed() {
      && |dataSectors| == NUM_DIRECT
      && numSectors == DivRoundUp(numBytes, SECTOR_SIZE)
      && numSectors <= NUM_DIRECT
      && forall i :: 0 <= i < numSectors ==> 0 <= dataSectors[i] < NUM_SECTORS
    }

    ghost predicate Distinct()
      requires numSectors <= |dataSectors|
    {
      forall i, j :: 0 <= i < j < numSectors ==> dataSectors[i] != dataSectors[j]
    }
  }

  function HeaderWords(h: Header): (ws: seq<word>)
    ensures |ws| == 2 + |h.dataSectors|
  {
    [Unsigned(h.numBytes), Unsigned(h.numSectors)] + seq(|h.dataSectors|,
      i requires 0 <= i < |h.dataSectors| => Unsigned(h.dataSectors[i]))
  }

  /** The header as the bytes of one sector, and the header a sector's bytes spell: the two casts to and from char*. */
  function HeaderSector(h: Header): Sector
    requires |h.dataSectors| == NUM_DIRECT
  {
    WordsToBytes(HeaderWords(h))
  }

  function SectorHeader(s: Sector): (h: Header)
    ensures |h.dataSectors| == NUM_DIRECT
  {
    var ws := BytesToWords(s);
    Header(Signed(ws[0]), Signed(ws[1]), seq(NUM_DIRECT, i requires 0 <= i < NUM_DIRECT => Signed(ws[2 + i])))
  }

  lemma HeaderRoundTrip(h: Header)
    requires |h.dataSectors| == NUM_DIRECT
    ensures SectorHeader(HeaderSector(h)) == h
  {
    var ws := HeaderWords(h);
    WordsRoundTrip(ws);
    SignedUnsigned(h.numBytes);
    SignedUnsigned(h.numSectors);
    forall i | 0 <= i < NUM_DIRECT
      ensures Signed(ws[2 + i]) == h.dataSectors[i]
    {
      SignedUnsigned(h.dataSectors[i]);
    }
    assert SectorHeader(HeaderSector(h)).dataSectors == h.dataSectors;
  }

  /** The word that these bytes spell, least significant first, as an int. */
  predicate Spells(bs: seq<byte>, at: nat, i: int32)
    requires at + 4 <= |bs|
  {
    (i - (bs[at] + 0x100 * (bs[at + 1] as int) + 0x1_0000 * (bs[at + 2] as int) + 0x100_0000 * (bs[at + 3] as int)))
    % 0x1_0000_0000 == 0
  }

  /** On disk: the length, the number of blocks, and the table of sectors, in four bytes each. */
  lemma HeaderLayout(h: Header, i: nat)
    requires |h.dataSectors| == NUM_DIRECT && i < NUM_DIRECT
    ensures var s := HeaderSector(h);
            Spells(s, 0, h.numBytes) && Spells(s, 4, h.numSectors) && Spells(s, 8 + 4 * i, h.dataSectors[i])
  {
    hide HeaderWords, Spells;
    var ws := HeaderWords(h);
    WordsOfHeader(h, i);
    WordSpells(ws, 0, h.numBytes);
    WordSpells(ws, 1, h.numSectors);
    WordSpells(ws, 2 + i, h.dataSectors[i]);
  }

  lemma WordsOfHeader(h: Header, i: nat)
    requires |h.dataSectors| == NUM_DIRECT && i < NUM_DIRECT
    ensures var ws := HeaderWords(h);
            ws[0] == Unsigned(h.numBytes) && ws[1] == Unsigned(h.numSectors) && ws[2 + i] == Unsigned(h.dataSectors[i])
  {
  }

  lemma WordSpells(ws: seq<word>, k: nat, i: int32)
    requires k < |ws| && ws[k] == Unsigned(i)
    ensures Spells(WordsToBytes(ws), 4 * k, i)
  {
    hide WordsToBytes, WordBytes;
    var bs := WordsToBytes(ws);
    WordsToBytesSlice(ws, k);
    WordBytesAre(ws[k]);
    assert bs[4 * k..4 * k + 4][0] == bs[4 * k] && bs[4 * k..4 * k + 4][1] == bs[4 * k + 1]
           && bs[4 * k..4 * k + 4][2] == bs[4 * k + 2] && bs[4 * k..4 * k + 4][3] == bs[4 * k + 3];
  }

  lemma BlocksAre(h: Header, n: nat)
    requires n == (if h.numSectors < 0 then 0 else h.numSectors) <= |h.dataSectors|
    ensures h.Blocks() == h.dataSectors[..n]
  {
  }

  lemma BlockCountFits(fileSize: int32)
    ensures -TWO31 <= DivRoundUp(fileSize, SECTOR_SIZE) < TWO31
  {
  }

  class FileHeader {
    var numBytes: int32
    var numSectors: int32
    const dataSectors: array<int32>

    ghost predicate Valid() {
      dataSectors.Length == NUM_DIRECT
    }

    ghost function Value(): (h: Header)
      reads this, dataSectors
      ensures Valid() ==> |h.dataSectors| == NUM_DIRECT
    {
      Header(numBytes, numSectors, dataSectors[..])
    }

    constructor ()
      ensures Valid() && fresh(dataSectors)
    {
      dataSectors := new int32[NUM_DIRECT];
    }

    /** The table is never overrun when the request is either too big for the map or small enough for the table. */
    method Allocate(freeMap: BitMap, fileSize: int32) returns (ok: bool)
      requires Valid() && freeMap.Valid() && freeMap.numBits <= NUM_SECTORS
      requires CountClear(freeMap.Bits()) < DivRoundUp(fileSize, SECTOR_SIZE)
               || DivRoundUp(fileSize, SECTOR_SIZE) <= NUM_DIRECT
      modifies this, dataSectors, freeMap.words
      ensures var need := DivRoundUp(fileSize, SECTOR_SIZE); var before := old(freeMap.Bits());
              && (ok <==> need <= CountClear(before))
              && (!ok ==> freeMap.Bits() == before)
              && (ok ==>
                    var picks := Picks(before, if need < 0 then 0 else need);
                    && numBytes == fileSize && numSectors == need
                    && Value().Blocks() == picks
                    && freeMap.Bits() == Painted(before, picks, true))
    {
      hide Painted, Picks, CountClear, FirstClear, BitsOf, DivRoundUp;
      BlockCountFits(fileSize);
      numBytes := fileSize;
      numSectors := DivRoundUp(fileSize, SECTOR_SIZE);
      var clear := freeMap.NumClear();
      if clear < numSectors {
        return false;
      }
      TakeSectors(freeMap);
      return true;
    }

    /** The loop of Allocate. */
    method TakeSectors(freeMap: BitMap)
      requires Valid() && freeMap.Valid() && freeMap.numBits <= NUM_SECTORS
      requires numSectors <= CountClear(freeMap.Bits()) && numSectors <= NUM_DIRECT
      modifies dataSectors, freeMap.words
      ensures var picks := Picks(old(freeMap.Bits()), if numSectors < 0 then 0 else numSectors);
              Value().Blocks() == picks && freeMap.Bits() == Painted(old(freeMap.Bits()), picks, true)
    {
      hide Painted, Picks, CountClear, FirstClear, BitsOf, Header.Blocks;
      ghost var before, need := freeMap.Bits(), if numSectors < 0 then 0 else numSectors;
      ghost var picks, taken, bits := Picks(before, need), [], before;
      PickNone(before);
      var i := 0;
      while i < numSectors
        invariant 0 <= i <= need && dataSectors[..i] == taken
        invariant freeMap.Bits() == bits == Painted(before, taken, true)
        invariant picks == taken + Picks(bits, need - i)
        invariant CountClear(bits) == CountClear(before) - i
      {
        PickOne(before, taken, bits, need - i);
        var s := freeMap.Find();
        dataSectors[i] := s;
        bits, taken := bits[s := true], taken + [s];
        i := i + 1;
      }
      PickNone(bits);
      assert taken == picks;
      BlocksAre(Value(), i);
    }

    /** The ASSERT inside the loop never fires on a map that marks every block of a header without repeats. */
    method Deallocate(freeMap: BitMap)
      requires Valid() && freeMap.Valid() && numSectors <= NUM_DIRECT
      requires Value().Distinct()
      requires forall b :: b in Value().Blocks() ==> 0 <= b < freeMap.numBits && freeMap.Bits()[b]
      modifies freeMap.words
      ensures freeMap.Bits() == Painted(old(freeMap.Bits()), Value().Blocks(), false)
    {
      ghost var blocks := Value().Blocks();
      var i := 0;
      while i < numSectors
        invariant 0 <= i <= |blocks|
        invariant freeMap.Bits() == Painted(old(freeMap.Bits()), blocks[..i], false)
      {
        assert dataSectors[i] == blocks[i];
        assert blocks[i] in blocks;
        var marked := freeMap.Test(dataSectors[i]);
        assert marked;
        freeMap.Clear(dataSectors[i]);
        assert blocks[..i + 1] == blocks[..i] + [blocks[i]];
        i := i + 1;
      }
      assert blocks[..|blocks|] == blocks;
    }

    method FetchFrom(disk: SynchDisk, sector: int)
      requires Valid() && disk.Valid() && 0 <= sector < NUM_SECTORS
      modifies this, dataSectors
      ensures Value() == SectorHeader(disk.sectors[sector])
    {
      var raw := new byte[SECTOR_SIZE];
      disk.ReadSector(sector, raw, 0);
      var h := SectorHeader(raw[..]);
      assert raw[..] == disk.sectors[sector];
      numBytes, numSectors := h.numBytes, h.numSectors;
      forall i | 0 <= i < NUM_DIRECT {
        dataSectors[i] := h.dataSectors[i];
      }
      assert dataSectors[..] == h.dataSectors;
    }

    method WriteBack(disk: SynchDisk, sector: int)
      requires Valid() && disk.Valid() && 0 <= sector < NUM_SECTORS
      modifies disk
      ensures disk.Valid() && disk.sectors == old(disk.sectors)[sector := HeaderSector(Value())]
    {
      var image := HeaderSector(Header(numBytes, numSectors, dataSectors[..]));
      var raw := new byte[SECTOR_SIZE](i requires 0 <= i < SECTOR_SIZE => image[i]);
      assert raw[0..SECTOR_SIZE] == image;
      disk.WriteSector(sector, raw, 0);
    }
  }
}
