/** machine/translate.cc as arithmetic: which physical bytes a virtual access reaches, and what memory then looks like
    to the program -- a flat little-endian byte array. */
module Translation {
  import opened Words

  const PAGE_SIZE := 4096
  const NUM_PHYS_PAGES := 1024
  const MEMORY_SIZE := 4194304

  datatype Exception = SyscallException | PageFaultException | ReadOnlyException | BusErrorException
    | AddressErrorException | OverflowException | IllegalInstrException

  datatype Entry = Entry(virtualPage: int32, physicalPage: int32, valid: bool, readOnly: bool, use: bool, dirty: bool)

  /** The table the hardware consults: the linear page table, or the TLB. */
  datatype Mapping = Mapping(isTlb: bool, entries: seq<Entry>)

  datatype Lookup = Hit(slot: nat) | Miss(why: Exception)
  datatype Address = Physical(slot: nat, at: nat) | Fault(why: Exception)

  predicate Sized(size: int) {
    size == 1 || size == 2 || size == 4
  }

  /** The first valid TLB entry for the page, or |tlb|. */
  function TlbSlot(tlb: seq<Entry>, vpn: nat): (k: nat)
    ensures k <= |tlb|
    ensures forall i :: 0 <= i < k ==> !(tlb[i].valid && tlb[i].virtualPage == vpn)
    ensures k < |tlb| ==> tlb[k].valid && tlb[k].virtualPage == vpn
  {
    if tlb == [] || (tlb[0].valid && tlb[0].virtualPage == vpn) then 0 else 1 + TlbSlot(tlb[1..], vpn)
  }

  function Find(m: Mapping, vpn: nat): (r: Lookup)
    ensures r.Hit? ==> r.slot < |m.entries| && m.entries[r.slot].valid
  {
    if m.isTlb then
      var k := TlbSlot(m.entries, vpn);
      if k < |m.entries| then Hit(k) else Miss(PageFaultException)
    else if vpn >= |m.entries| then Miss(AddressErrorException)
    else if !m.entries[vpn].valid then Miss(PageFaultException)
    else Hit(vpn)
  }

  predicate InMemory(frame: int) {
    0 <= frame < NUM_PHYS_PAGES
  }

  function Translated(m: Mapping, va: word, size: int, writing: bool): Address {
    if va % Alignment(size) != 0 then Fault(AddressErrorException)
    else match Find(m, va / 4096)
      case Miss(why) => Fault(why)
      case Hit(slot) =>
        if m.entries[slot].readOnly && writing then Fault(ReadOnlyException)
        else if !InMemory(m.entries[slot].physicalPage) then Fault(BusErrorException)
        else Physical(slot, m.entries[slot].physicalPage * 4096 + va % 4096)
  }

  /** With a page table: an access goes through exactly when it is aligned and its page is in the table, valid, not
      protected against it, and in memory; and each thing that is wrong has its exception, the first of them in this
      order. */
  lemma PageTableFaults(m: Mapping, va: word, size: int, writing: bool)
    requires !m.isTlb && Sized(size)
    ensures var t, page: nat := Translated(m, va, size, writing), va / 4096;
            if va % size != 0 || page >= |m.entries| then t == Fault(AddressErrorException)
            else var e := m.entries[page];
              if !e.valid then t == Fault(PageFaultException)
              else if e.readOnly && writing then t == Fault(ReadOnlyException)
              else if e.physicalPage < 0 || e.physicalPage >= 1024 then t == Fault(BusErrorException)
              else t == Physical(page, 4096 * (e.physicalPage as int) + va % 4096)
  {
  }

  /** The k-th entry is the first valid one for the page. */
  predicate FirstFor(m: Mapping, k: nat, page: nat) {
    && k < |m.entries| && m.entries[k].valid && m.entries[k].virtualPage == page
    && forall j :: 0 <= j < k ==> !(m.entries[j].valid && m.entries[j].virtualPage == page)
  }

  predicate Unnamed(m: Mapping, page: nat) {
    forall k :: 0 <= k < |m.entries| ==> !(m.entries[k].valid && m.entries[k].virtualPage == page)
  }

  /** With a TLB, the first valid entry for the page counts; when there is none, the access faults. */
  lemma TlbFaults(m: Mapping, va: word, size: int, writing: bool)
    requires m.isTlb && Sized(size)
    ensures var t, page: nat := Translated(m, va, size, writing), va / 4096;
            && (va % size != 0 ==> t == Fault(AddressErrorException))
            && (va % size == 0 && Unnamed(m, page) ==> t == Fault(PageFaultException))
            && forall k: nat :: va % size == 0 && FirstFor(m, k, page) ==>
                 var e := m.entries[k];
                 if e.readOnly && writing then t == Fault(ReadOnlyException)
                 else if e.physicalPage < 0 || e.physicalPage >= 1024 then t == Fault(BusErrorException)
                 else t == Physical(k, 4096 * (e.physicalPage as int) + va % 4096)
  {
    forall k: nat | FirstFor(m, k, va / 4096)
      ensures TlbSlot(m.entries, va / 4096) == k
    {
    }
  }

  /** The alignment a size asks for. */
  function Alignment(size: int): (a: int)
    ensures a > 0
  {
    if size == 4 then 4 else if size == 2 then 2 else 1
  }

  /** The use and dirty bits are the only thing an access changes in the table, and nothing reads them. */
  function Bare(m: Mapping): (r: Mapping)
    ensures |r.entries| == |m.entries|
  {
    m.(entries := seq(|m.entries|, i requires 0 <= i < |m.entries| => m.entries[i].(use := false, dirty := false)))
  }

  lemma {:induction false} TlbSlotIgnoresBits(e1: seq<Entry>, e2: seq<Entry>, vpn: nat)
    requires |e1| == |e2|
    requires forall i :: 0 <= i < |e1| ==> e1[i].(use := false, dirty := false) == e2[i].(use := false, dirty := false)
    ensures TlbSlot(e1, vpn) == TlbSlot(e2, vpn)
  {
    var a, b := TlbSlot(e1, vpn), TlbSlot(e2, vpn);
    assert forall i :: 0 <= i < |e1| ==> e1[i].valid == e2[i].valid && e1[i].virtualPage == e2[i].virtualPage;
  }

  lemma TranslatedIgnoresBits(m1: Mapping, m2: Mapping, va: word, size: int, writing: bool)
    requires Bare(m1) == Bare(m2)
    ensures Translated(m1, va, size, writing) == Translated(m2, va, size, writing)
  {
    forall i | 0 <= i < |m1.entries|
      ensures m1.entries[i].(use := false, dirty := false) == m2.entries[i].(use := false, dirty := false)
    {
      assert Bare(m1).entries[i] == Bare(m2).entries[i];
    }
    TlbSlotIgnoresBits(m1.entries, m2.entries, va / 4096);
    hide Bare, TlbSlot;
    assert |m1.entries| == |m2.entries| && m1.isTlb == m2.isTlb;
  }

  /** A translated access stays inside one frame of main memory: the ASSERT at the end of Translate cannot fire. */
  lemma AccessInBounds(m: Mapping, va: word, size: int, writing: bool)
    requires Sized(size) && Translated(m, va, size, writing).Physical?
    ensures var pa := Translated(m, va, size, writing).at;
            pa + size <= MEMORY_SIZE && pa / 4096 == (pa + size - 1) / 4096
  {
    hide TlbSlot, Find;
    AlignedOffset(va, size);
    var pa := Translated(m, va, size, writing).at;
    assert pa / 4096 == (pa - va % 4096) / 4096;
  }

  lemma WithinPage(va: word, k: nat)
    requires va % 4096 + k < 4096
    ensures va + k < TWO32 && (va + k) / 4096 == va / 4096 && (va + k) % 4096 == va % 4096 + k
  {
    var page := va / 4096;
    assert va == 4096 * page + va % 4096 && page < 0x10_0000;
    assert va + k == 4096 * page + (va % 4096 + k);
  }

  lemma AlignedOffset(va: word, size: int)
    requires Sized(size) && va % Alignment(size) == 0
    ensures va % 4096 + size <= 4096
  {
    var page := va / 4096;
    assert va == 4096 * page + va % 4096;
    assert size == 4 ==> va % 4096 == 4 * (va / 4 - 1024 * page);
    assert size == 2 ==> va % 4096 == 2 * (va / 2 - 2048 * page);
  }

  /** Byte k of a translated access is where a one-byte access to va + k would go. */
  lemma AccessByte(m: Mapping, va: word, size: int, writing: bool, k: int)
    requires Sized(size) && 0 <= k < size && Translated(m, va, size, writing).Physical?
    ensures var t := Translated(m, va, size, writing);
            va + k < TWO32 && Translated(m, va + k, 1, writing) == Physical(t.slot, t.at + k)
  {
    hide TlbSlot, Find;
    AlignedOffset(va, size);
    WithinPage(va, k);
  }

  // ---- memory as bytes, and as the program sees it ----

  /** size bytes of memory from pa, little-endian. */
  function Fetched(mem: seq<byte>, pa: nat, size: int): (w: word)
    requires Sized(size) && pa + size <= |mem|
    ensures w < if size == 1 then 0x100 else if size == 2 then 0x1_0000 else TWO32
  {
    if size == 1 then mem[pa]
    else if size == 2 then
      var hi: int := mem[pa + 1];
      mem[pa] + 0x100 * hi
    else WordOf(mem[pa..pa + 4])
  }

  /** The low bytes of a value, least significant first. */
  function LowBytes(value: word, size: int): (bs: seq<byte>)
    requires Sized(size)
    ensures |bs| == size
  {
    WordBytes(value)[..size]
  }

  function Stored(mem: seq<byte>, pa: nat, size: int, value: word): (r: seq<byte>)
    requires Sized(size) && pa + size <= |mem|
    ensures |r| == |mem|
  {
    mem[..pa] + LowBytes(value, size) + mem[pa + size..]
  }

  /** Different pages reach different frames. */
  ghost predicate DistinctFrames(m: Mapping) {
    forall v, w :: v != w && Find(m, v).Hit? && Find(m, w).Hit? ==>
      m.entries[Find(m, v).slot].physicalPage != m.entries[Find(m, w).slot].physicalPage
  }

  ghost predicate Readable(m: Mapping, va: int) {
    0 <= va < TWO32 && Translated(m, va, 1, false).Physical?
  }

  /** The byte the program sees at virtual address va. */
  ghost function VirtualByte(mem: seq<byte>, m: Mapping, va: word): byte
    requires |mem| == MEMORY_SIZE && Readable(m, va)
  {
    AccessInBounds(m, va, 1, false);
    mem[Translated(m, va, 1, false).at]
  }

  lemma SamePageFrame(m: Mapping, va: word, wa: word, size: int)
    requires Sized(size) && Translated(m, va, size, true).Physical? && Readable(m, wa)
    ensures va / 4096 == wa / 4096 ==>
            Translated(m, va, size, true).at - va % 4096 == Translated(m, wa, 1, false).at - wa % 4096
  {
    hide TlbSlot;
  }

  lemma OffsetsCompare(va: word, wa: word, size: int, f: int, g: int)
    requires va % 4096 + size <= 4096 && size >= 1 && (f == g <==> va / 4096 == wa / 4096)
    ensures var pa, qa := 4096 * f + va % 4096, 4096 * g + wa % 4096;
            && (va <= wa < va + size ==> qa == pa + (wa - va))
            && (pa <= qa < pa + size ==> va <= wa < va + size)
  {
    assert va == 4096 * (va / 4096) + va % 4096 && wa == 4096 * (wa / 4096) + wa % 4096;
  }

  lemma SameFrame(m: Mapping, va: word, wa: word, size: int)
    requires DistinctFrames(m) && Sized(size) && Translated(m, va, size, true).Physical? && Readable(m, wa)
    ensures var pa, qa := Translated(m, va, size, true).at, Translated(m, wa, 1, false).at;
            && (va <= wa < va + size ==> qa == pa + (wa - va))
            && (pa <= qa < pa + size ==> va <= wa < va + size)
  {
    var pa, qa := Translated(m, va, size, true).at, Translated(m, wa, 1, false).at;
    AlignedOffset(va, size);
    var f, g := (pa - va % 4096) / 4096, (qa - wa % 4096) / 4096;
    assert pa == 4096 * f + va % 4096 && qa == 4096 * g + wa % 4096 && (f == g ==> va / 4096 == wa / 4096) by {
      hide TlbSlot;
      assert f == m.entries[Find(m, va / 4096).slot].physicalPage
             && g == m.entries[Find(m, wa / 4096).slot].physicalPage;
    }
    hide *;
    assert va / 4096 == wa / 4096 ==> f == g by { SamePageFrame(m, va, wa, size); }
    OffsetsCompare(va, wa, size, f, g);
  }

  /** Virtual memory is a flat byte array: a write changes exactly the bytes it names, whatever the page. */
  lemma WriteIsFlat(mem: seq<byte>, m: Mapping, va: word, size: int, value: word, wa: word)
    requires |mem| == MEMORY_SIZE && DistinctFrames(m) && Sized(size) && Translated(m, va, size, true).Physical?
             && Readable(m, wa)
    ensures var pa := Translated(m, va, size, true).at;
            && pa + size <= |mem|
            && VirtualByte(Stored(mem, pa, size, value), m, wa) ==
                 if va <= wa < va + size then LowBytes(value, size)[wa - va] else VirtualByte(mem, m, wa)
  {
    AccessInBounds(m, va, size, true);
    AccessInBounds(m, wa, 1, false);
    SameFrame(m, va, wa, size);
    hide Translated, LowBytes;
  }

  /** A read assembles the bytes the program sees, least significant first. */
  lemma ReadIsFlat(mem: seq<byte>, m: Mapping, va: word, size: int, k: int)
    requires |mem| == MEMORY_SIZE && Sized(size) && 0 <= k < size && Translated(m, va, size, false).Physical?
    ensures Translated(m, va, size, false).at + size <= |mem| && Readable(m, va + k)
    ensures LowBytes(Fetched(mem, Translated(m, va, size, false).at, size), size)[k] == VirtualByte(mem, m, va + k)
  {
    AccessInBounds(m, va, size, false);
    AccessByte(m, va, size, false, k);
    hide Translated, LowBytes, Fetched;
    BytesFetched(mem, Translated(m, va, size, false).at, size);
  }

  lemma BytesFetched(mem: seq<byte>, pa: nat, size: int)
    requires Sized(size) && pa + size <= |mem|
    ensures LowBytes(Fetched(mem, pa, size), size) == mem[pa..pa + size]
  {
    hide WordBytes, WordOf;
    if size == 4 {
      BytesOfWord(mem[pa..pa + 4]);
    } else if size == 2 {
      BytesOfHalf(mem[pa], mem[pa + 1]);
      assert mem[pa..pa + 2] == [mem[pa], mem[pa + 1]];
    } else {
      BytesOfHalf(mem[pa], 0);
      assert mem[pa..pa + 1] == [mem[pa]];
    }
  }

  lemma BytesOfHalf(low: byte, high: byte)
    ensures low + 0x100 * (high as int) < TWO32 && WordBytes(low + 0x100 * (high as int))[..2] == [low, high]
    ensures high == 0 ==> WordBytes(low)[..1] == [low]
  {
    var w: int := low + 0x100 * (high as int);
    assert w % 0x100 == low && w / 0x100 == high;
  }

  /** What a size keeps of a value. */
  function CutTo(value: word, size: int): (w: word)
    requires Sized(size)
  {
    value % if size == 1 then 0x100 else if size == 2 then 0x1_0000 else TWO32
  }

  lemma StoredThenFetched(mem: seq<byte>, pa: nat, size: int, value: word)
    requires Sized(size) && pa + size <= |mem|
    ensures Fetched(Stored(mem, pa, size, value), pa, size) == CutTo(value, size)
  {
    StoredSlice(mem, pa, size, value);
    FetchedIs(Stored(mem, pa, size, value), pa, size, value);
  }

  /** A page that may be written may be read, at the same place. */
  lemma WritableIsReadable(m: Mapping, va: word, size: int)
    requires Translated(m, va, size, true).Physical?
    ensures Translated(m, va, size, false) == Translated(m, va, size, true)
  {
    hide TlbSlot, Find;
  }

  /** What was written at a virtual address is what is read back there, cut to the width of the access. */
  lemma ReadAfterWrite(mem: seq<byte>, m: Mapping, va: word, size: int, value: word)
    requires |mem| == MEMORY_SIZE && Sized(size) && Translated(m, va, size, true).Physical?
    ensures var t, back := Translated(m, va, size, true), Translated(m, va, size, false);
            && back.Physical? && t.at + size <= |mem| && back.at + size <= |mem|
            && Fetched(Stored(mem, t.at, size, value), back.at, size) == CutTo(value, size)
  {
    hide Translated, Stored, Fetched, CutTo;
    WritableIsReadable(m, va, size);
    AccessInBounds(m, va, size, true);
    StoredThenFetched(mem, Translated(m, va, size, true).at, size, value);
  }

  /** What is read does not change when nothing it overlaps is written. */
  lemma WritesElsewhere(mem: seq<byte>, m: Mapping, va: word, size: int, value: word, wa: word, width: int)
    requires |mem| == MEMORY_SIZE && DistinctFrames(m) && Sized(size) && Sized(width)
    requires Translated(m, va, size, true).Physical? && Translated(m, wa, width, false).Physical?
    requires wa + width <= va || va + size <= wa
    ensures var pa, qa := Translated(m, va, size, true).at, Translated(m, wa, width, false).at;
            && pa + size <= |mem| && qa + width <= |mem|
            && Fetched(Stored(mem, pa, size, value), qa, width) == Fetched(mem, qa, width)
  {
    hide Translated, LowBytes, Fetched, DistinctFrames;
    AccessInBounds(m, va, size, true);
    AccessInBounds(m, wa, width, false);
    var pa, qa := Translated(m, va, size, true).at, Translated(m, wa, width, false).at;
    forall k | qa <= k < qa + width
      ensures Stored(mem, pa, size, value)[k] == mem[k]
    {
      AccessByte(m, wa, width, false, k - qa);
      SameFrame(m, va, wa + (k - qa), size);
    }
    assert Stored(mem, pa, size, value)[qa..qa + width] == mem[qa..qa + width];
    FetchedSlice(mem, Stored(mem, pa, size, value), qa, width);
  }

  lemma FetchedSlice(mem: seq<byte>, mem2: seq<byte>, pa: nat, size: int)
    requires Sized(size) && pa + size <= |mem| && |mem2| == |mem| && mem2[pa..pa + size] == mem[pa..pa + size]
    ensures Fetched(mem2, pa, size) == Fetched(mem, pa, size)
  {
    hide WordOf;
    var was, now := mem[pa..pa + size], mem2[pa..pa + size];
    assert mem[pa] == was[0] == now[0] == mem2[pa];
    assert size >= 2 ==> mem[pa + 1] == was[1] == now[1] == mem2[pa + 1];
  }

  lemma StoredSlice(mem: seq<byte>, pa: nat, size: int, value: word)
    requires Sized(size) && pa + size <= |mem|
    ensures Stored(mem, pa, size, value)[pa..pa + size] == LowBytes(value, size)
  {
    hide LowBytes;
  }

  lemma FetchedIs(mem: seq<byte>, pa: nat, size: int, value: word)
    requires Sized(size) && pa + size <= |mem| && mem[pa..pa + size] == LowBytes(value, size)
    ensures Fetched(mem, pa, size) == CutTo(value, size)
  {
    if size == 4 {
      WordRoundTrip(value);
    } else if size == 2 {
      HalfBytes(value);
      assert mem[pa] == mem[pa..pa + 2][0] && mem[pa + 1] == mem[pa..pa + 2][1];
    } else {
      assert mem[pa] == mem[pa..pa + 1][0];
    }
  }

  lemma HalfBytes(value: word)
    ensures value % 0x100 + 0x100 * (value / 0x100 % 0x100) == value % 0x1_0000
  {
    var top, half := value / 0x1_0000, value % 0x1_0000;
    assert value == 0x100 * (0x100 * top + half / 0x100) + half % 0x100;
    assert value / 0x100 == 0x100 * top + half / 0x100 && value % 0x100 == half % 0x100;
  }

  /** A TLB whose valid entries were copied from the page table agrees with it whenever it hits. */
  lemma TlbAgrees(tlb: seq<Entry>, table: seq<Entry>, va: word, size: int, writing: bool)
    requires forall i :: 0 <= i < |tlb| && tlb[i].valid ==>
               0 <= tlb[i].virtualPage < |table|
                 && Bare(Mapping(false, [tlb[i]])) == Bare(Mapping(false, [table[tlb[i].virtualPage]]))
    requires Find(Mapping(true, tlb), va / 4096).Hit?
    ensures var a, b := Translated(Mapping(true, tlb), va, size, writing), Translated(Mapping(false, table), va,
            size, writing);
            (a.Fault? && b == a) || (a.Physical? && b.Physical? && a.at == b.at)
  {
    var k := TlbSlot(tlb, va / 4096);
    assert Bare(Mapping(false, [tlb[k]])).entries[0] == Bare(Mapping(false, [table[va / 4096]])).entries[0];
  }
}
