/** userprog/addrspace.cc: page tables, the physical frames behind them, and how many page-table entries use each
    frame. */
module Frames {
  import opened Words
  import opened BitMaps
  import opened Translation

  const USER_STACK_SIZE := 1024
  /** The length of threadsOnPhyPage. */
  const COUNTED := 32

  /** The segment sizes of an executable, from its header. */
  datatype NoffHeader = NoffHeader(code: nat, initData: nat, uninitData: nat)

  function CopyablePages(h: NoffHeader): int {
    DivRoundUp(h.code + h.initData, PAGE_SIZE)
  }

  function NumPages(h: NoffHeader): int {
    DivRoundUp(h.code + h.initData + h.uninitData + USER_STACK_SIZE, PAGE_SIZE)
  }

  lemma PageCounts(h: NoffHeader)
    ensures 0 <= CopyablePages(h) <= NumPages(h) && 0 < NumPages(h)
  {
  }

  /** Just enough pages for all segments and a stack of 1024 bytes; those on which code or initialised data begin or
      go on come first. */
  lemma PagesAre(h: NoffHeader)
    ensures (NumPages(h) - 1) * 4096 < h.code + h.initData + h.uninitData + 1024 <= NumPages(h) * 4096
    ensures forall i: nat :: i < CopyablePages(h) <==> i * 4096 < h.code + h.initData
  {
    DivRoundUpIsLeast(h.code + h.initData, PAGE_SIZE);
    DivRoundUpIsLeast(h.code + h.initData + h.uninitData + USER_STACK_SIZE, PAGE_SIZE);
    hide DivRoundUp;
  }

  // ---- frames, and the counts kept of them ----

  ghost function InUse(bits: seq<bool>): int {
    |bits| - CountClear(bits)
  }

  /** The counts are the multiplicities of the frames in `mapped`, and a bit is set just when its count is positive. */
  ghost predicate Exact(bits: seq<bool>, counts: seq<int>, mapped: multiset<int>) {
    && |bits| == NUM_PHYS_PAGES && |counts| == COUNTED
    && (forall p :: p in mapped ==> 0 <= p < COUNTED)
    && (forall p :: 0 <= p < COUNTED ==> counts[p] == mapped[p])
    && (forall p :: 0 <= p < NUM_PHYS_PAGES ==> (bits[p] <==> p in mapped))
  }

  /** A frame handed out is counted once. */
  lemma TakeKeepsExact(bits: seq<bool>, counts: seq<int>, mapped: multiset<int>)
    requires Exact(bits, counts, mapped) && InUse(bits) < COUNTED
    ensures var k := FirstClear(bits);
            && k < COUNTED && k !in mapped
            && Exact(bits[k := true], counts[k := counts[k] + 1], mapped + multiset{k})
            && InUse(bits[k := true]) == InUse(bits) + 1
  {
    FirstClearBelow(bits, COUNTED);
    CountClearUpdate(bits, FirstClear(bits), true);
  }

  lemma ShareKeepsExact(bits: seq<bool>, counts: seq<int>, mapped: multiset<int>, p: int)
    requires Exact(bits, counts, mapped) && p in mapped
    ensures 0 <= p < COUNTED && Exact(bits, counts[p := counts[p] + 1], mapped + multiset{p})
  {
  }

  lemma DropKeepsExact(bits: seq<bool>, counts: seq<int>, mapped: multiset<int>, p: int)
    requires Exact(bits, counts, mapped) && p in mapped
    ensures 0 <= p < COUNTED
    ensures Exact(if counts[p] == 1 then bits[p := false] else bits, counts[p := counts[p] - 1], mapped - multiset{p})
  {
  }

  lemma {:induction false} InUseBelow(bits: seq<bool>, m: nat)
    requires m <= |bits| && (forall p :: m <= p < |bits| ==> !bits[p])
    ensures 0 <= InUse(bits) <= m
    decreases |bits|
  {
    if |bits| == m {
      CountClearZero(bits);
    } else {
      InUseBelow(bits[..|bits| - 1], m);
    }
  }

  ghost predicate AllBelow(s: seq<int>, m: nat) {
    forall p :: p in s ==> p < m
  }

  lemma AllBelowCons(k: int, rest: seq<int>, m: nat)
    ensures AllBelow([k] + rest, m) <==> k < m && AllBelow(rest, m)
  {
    assert k in [k] + rest;
    assert forall p :: p in [k] + rest <==> p == k || p in rest;
  }

  /** n calls of Find stay below frame m, beyond which nothing is in use, exactly when n frames and those in use fit. */
  lemma {:induction false} PicksBelow(bits: seq<bool>, n: nat, m: nat)
    requires m <= |bits| && 0 < n <= CountClear(bits) && (forall p :: m <= p < |bits| ==> !bits[p])
    ensures AllBelow(Picks(bits, n), m) <==> InUse(bits) + n <= m
    decreases n
  {
    CountClearZero(bits);
    var k := FirstClear(bits);
    var next := bits[k := true];
    FirstPick(bits, n);
    AllBelowCons(k, Picks(next, n - 1), m);
    if k < m {
      assert InUse(next) == InUse(bits) + 1;
      InUseBelow(next, m);
      if n == 1 {
        PickNone(next);
      } else {
        PicksBelow(next, n - 1, m);
      }
    } else {
      assert InUse(bits) >= m by {
        if InUse(bits) < m {
          FirstClearBelow(bits, m);
        }
      }
    }
  }

  // ---- the frames of the live address spaces ----

  ghost function Mapped(live: seq<AddrSpace>): multiset<int> {
    if live == [] then multiset{} else multiset(live[0].frames) + Mapped(live[1..])
  }

  lemma {:induction false} MappedAppend(live: seq<AddrSpace>, a: AddrSpace)
    ensures Mapped(live + [a]) == Mapped(live) + multiset(a.frames)
  {
    if live != [] {
      assert (live + [a])[1..] == live[1..] + [a];
      MappedAppend(live[1..], a);
    }
  }

  lemma {:induction false} MappedRemove(live: seq<AddrSpace>, k: nat)
    requires k < |live|
    ensures Mapped(live[..k] + live[k + 1..]) + multiset(live[k].frames) == Mapped(live)
  {
    var rest := live[..k] + live[k + 1..];
    if k == 0 {
      assert rest == live[1..];
    } else {
      assert rest[1..] == live[1..][..k - 1] + live[1..][k..];
      MappedRemove(live[1..], k - 1);
    }
  }

  lemma {:induction false} MappedMember(live: seq<AddrSpace>, a: AddrSpace, p: int)
    requires a in live && p in a.frames
    ensures p in Mapped(live)
  {
    if live[0] != a {
      MappedMember(live[1..], a, p);
    }
  }

  lemma {:induction false} MappedTwice(live: seq<AddrSpace>, i: nat, j: nat, p: int)
    requires i < j < |live| && p in live[i].frames && p in live[j].frames
    ensures Mapped(live)[p] >= 2
  {
    if i == 0 {
      MappedMember(live[1..], live[j], p);
      assert multiset(live[0].frames)[p] >= 1;
    } else {
      MappedTwice(live[1..], i - 1, j - 1, p);
    }
  }

  lemma {:induction false} MappedOwner(live: seq<AddrSpace>, p: int)
    requires p in Mapped(live)
    ensures exists a :: a in live && p in a.frames
  {
    if p in live[0].frames {
      assert live[0] in live;
    } else {
      MappedOwner(live[1..], p);
    }
  }

  ghost function FramesOf(table: seq<Entry>): (frames: seq<int>)
    ensures |frames| == |table|
  {
    seq(|table|, i requires 0 <= i < |table| => table[i].physicalPage)
  }

  lemma RegisteredAre(table: seq<Entry>, first: nat, frames: seq<int>)
    requires Registered(table, first, frames)
    ensures forall i :: first <= i < first + |frames| ==>
              && table[i].virtualPage == i && table[i].valid
              && !table[i].readOnly && !table[i].use && !table[i].dirty
  {
  }

  /** The frames from page c on belong to no live space. */
  lemma ForkedFrames(live: seq<AddrSpace>, table: seq<Entry>, frames: seq<int>, c: nat)
    requires FramesOf(table) == frames && c <= |frames| && Available(frames[c..], Mapped(live))
    ensures forall i, b :: c <= i < |table| && b in live ==> table[i].physicalPage !in b.frames
  {
    forall i, b | c <= i < |table| && b in live
      ensures table[i].physicalPage !in b.frames
    {
      assert frames[i] == table[i].physicalPage && frames[c..][i - c] == frames[i];
      assert frames[i] in frames[c..];
      if frames[i] in b.frames {
        MappedMember(live, b, frames[i]);
      }
    }
  }

  ghost predicate Distinct(frames: seq<int>) {
    forall i, j :: 0 <= i < j < |frames| ==> frames[i] != frames[j]
  }

  /** From page `first` on, the table maps these frames, writable and untouched. */
  ghost predicate Registered(table: seq<Entry>, first: nat, frames: seq<int>) {
    && first + |frames| <= |table|
    && forall i :: first <= i < first + |frames| ==>
         && table[i].virtualPage == i && table[i].physicalPage == frames[i - first]
         && table[i].valid && !table[i].readOnly && !table[i].use && !table[i].dirty
  }

  /** Frames that can be handed out: counted ones, each once, none of them mapped. */
  ghost predicate Available(frames: seq<int>, mapped: multiset<int>) {
    Distinct(frames) && forall p :: p in frames ==> 0 <= p < COUNTED && p !in mapped
  }

  /** The system's record of physical memory: a map of the frames in use and a count for each. */
  class Memory {
    const memoryBitMap: BitMap
    const threadsOnPhyPage: array<int>
    ghost var live: seq<AddrSpace>

    /** Page tables that map the frames counted for them. */
    ghost predicate LiveTables()
      reads this, set a | a in live :: a.pageTable
    {
      forall a :: a in live ==> a.Valid()
    }

    ghost predicate Valid()
      reads this, memoryBitMap.words, threadsOnPhyPage, set a | a in live :: a.pageTable
    {
      && memoryBitMap.Valid() && LiveTables()
      && Exact(memoryBitMap.Bits(), threadsOnPhyPage[..], Mapped(live))
    }

    constructor ()
      ensures Valid() && live == [] && fresh(memoryBitMap.words) && fresh(threadsOnPhyPage)
      ensures InUse(memoryBitMap.Bits()) == 0
    {
      memoryBitMap := new BitMap(NUM_PHYS_PAGES);
      threadsOnPhyPage := new int[COUNTED](_ => 0);
      live := [];
      new;
      InUseBelow(memoryBitMap.Bits(), 0);
    }

    /** Take a free frame and count its first user. */
    method Take(ghost mapped: multiset<int>) returns (p: int)
      requires memoryBitMap.Valid() && Exact(memoryBitMap.Bits(), threadsOnPhyPage[..], mapped)
      requires InUse(memoryBitMap.Bits()) < COUNTED
      modifies memoryBitMap.words, threadsOnPhyPage
      ensures p == FirstClear(old(memoryBitMap.Bits())) < COUNTED && p !in mapped
      ensures memoryBitMap.Bits() == old(memoryBitMap.Bits())[p := true]
      ensures InUse(memoryBitMap.Bits()) == old(InUse(memoryBitMap.Bits())) + 1
      ensures Exact(memoryBitMap.Bits(), threadsOnPhyPage[..], mapped + multiset{p})
    {
      TakeKeepsExact(memoryBitMap.Bits(), threadsOnPhyPage[..], mapped);
      p := memoryBitMap.Find();
      threadsOnPhyPage[p] := threadsOnPhyPage[p] + 1;
    }

    method Share(p: int, ghost mapped: multiset<int>)
      requires memoryBitMap.Valid() && Exact(memoryBitMap.Bits(), threadsOnPhyPage[..], mapped) && p in mapped
      modifies threadsOnPhyPage
      ensures Exact(memoryBitMap.Bits(), threadsOnPhyPage[..], mapped + multiset{p})
    {
      ShareKeepsExact(memoryBitMap.Bits(), threadsOnPhyPage[..], mapped, p);
      threadsOnPhyPage[p] := threadsOnPhyPage[p] + 1;
    }

    /** Uncount one user of a frame, and free the frame when that was the last. */
    method Drop(p: int, ghost mapped: multiset<int>)
      requires memoryBitMap.Valid() && Exact(memoryBitMap.Bits(), threadsOnPhyPage[..], mapped) && p in mapped
      modifies memoryBitMap.words, threadsOnPhyPage
      ensures Exact(memoryBitMap.Bits(), threadsOnPhyPage[..], mapped - multiset{p})
    {
      DropKeepsExact(memoryBitMap.Bits(), threadsOnPhyPage[..], mapped, p);
      threadsOnPhyPage[p] := threadsOnPhyPage[p] - 1;
      if threadsOnPhyPage[p] == 0 {
        memoryBitMap.Clear(p);
      }
    }
  }

  lemma TakenSoFar(bits: seq<bool>, n: nat, done: seq<int>, now: seq<bool>, mapped: multiset<int>, p: int)
    requires |done| < n && Picks(bits, n) == done + Picks(now, n - |done|) && FirstClear(now) == p < |now|
    requires Available(done, mapped) && p < COUNTED && p !in mapped + multiset(done)
    ensures Picks(bits, n) == done + [p] + Picks(now[p := true], n - |done| - 1)
    ensures Available(done + [p], mapped)
    ensures mapped + multiset(done) + multiset{p} == mapped + multiset(done + [p])
  {
    FirstPick(now, n - |done|);
  }

  lemma InUseRange(bits: seq<bool>)
    ensures 0 <= InUse(bits) <= |bits|
  {
    CountClearZero(bits);
  }

  lemma RegisteredFrames(table: seq<Entry>, first: nat, frames: seq<int>)
    requires Registered(table, first, frames) && first + |frames| == |table|
    ensures FramesOf(table) == FramesOf(table[..first]) + frames
    ensures first == 0 ==> FramesOf(table) == frames
  {
  }

  /** Frames inherited and frames taken make up the child's. */
  lemma Forked(table: seq<Entry>, source: seq<Entry>, c: nat, picks: seq<int>, mapped: multiset<int>)
    requires c <= |source| && c + |picks| == |table| && table[..c] == source[..c] && Registered(table, c, picks)
    requires Available(picks, mapped + multiset(FramesOf(source)[..c])) && Distinct(FramesOf(source))
    ensures Distinct(FramesOf(table))
    ensures FramesOf(table) == FramesOf(source)[..c] + picks
    ensures Available(picks, mapped)
    ensures mapped + multiset(FramesOf(source)[..c]) + multiset(picks) == mapped + multiset(FramesOf(table))
  {
    RegisteredFrames(table, c, picks);
    var shared := FramesOf(source)[..c];
    assert FramesOf(table[..c]) == shared;
    forall i, j | 0 <= i < c <= j < |table|
      ensures FramesOf(table)[i] != FramesOf(table)[j]
    {
      assert shared[i] in multiset(shared) && picks[j - c] in picks;
    }
  }

  lemma OneMore(mapped: multiset<int>, frames: seq<int>, i: nat)
    requires i < |frames|
    ensures mapped + multiset(frames[..i]) + multiset{frames[i]} == mapped + multiset(frames[..i + 1])
  {
    assert frames[..i + 1] == frames[..i] + [frames[i]];
  }

  lemma OneLess(mapped: multiset<int>, frames: seq<int>, i: nat)
    requires i < |frames|
    ensures frames[i] in mapped + multiset(frames[i..])
    ensures mapped + multiset(frames[i..]) - multiset{frames[i]} == mapped + multiset(frames[i + 1..])
  {
    assert frames[i..] == [frames[i]] + frames[i + 1..];
  }

  lemma NoneLess(mapped: multiset<int>, frames: seq<int>)
    ensures mapped + multiset(frames[..0]) == mapped + multiset(frames[|frames|..]) == mapped
    ensures frames[0..] == frames
  {
  }

  lemma RegisterOne(table: seq<Entry>, first: nat, frames: seq<int>, p: int32)
    requires Registered(table, first, frames) && first + |frames| < |table| <= NUM_PHYS_PAGES
    ensures var i := first + |frames|;
            Registered(table[i := Entry(i, p, true, false, false, false)], first, frames + [p])
  {
  }

  lemma NothingTaken(table: seq<Entry>, first: nat, bits: seq<bool>, n: nat, mapped: multiset<int>)
    requires first <= |table|
    ensures Registered(table, first, [])
    ensures Picks(bits, n) == [] + Picks(bits, n) && Available([], mapped)
    ensures mapped + multiset([]) == mapped
  {
  }

  class AddrSpace {
    const noffH: NoffHeader
    const pageTable: array<Entry>
    ghost const frames: seq<int>

    ghost predicate Valid()
      reads pageTable
    {
      && pageTable.Length == NumPages(noffH) <= NUM_PHYS_PAGES
      && FramesOf(pageTable[..]) == frames
      && Distinct(frames)
    }

    /** Every page gets a frame of its own.  The frames must fit below the 32nd along with those in use. */
    constructor Load(mem: Memory, noffH: NoffHeader)
      requires mem.Valid() && InUse(mem.memoryBitMap.Bits()) + NumPages(noffH) <= COUNTED
      modifies mem`live, mem.memoryBitMap.words, mem.threadsOnPhyPage
      ensures Valid() && fresh(pageTable) && this.noffH == noffH && mem.Valid() && mem.live == old(mem.live) + [this]
      ensures frames == Picks(old(mem.memoryBitMap.Bits()), NumPages(noffH))
      ensures Registered(pageTable[..], 0, frames) && Available(frames, Mapped(old(mem.live)))
      ensures InUse(mem.memoryBitMap.Bits()) == old(InUse(mem.memoryBitMap.Bits())) + NumPages(noffH)
      ensures (pageTable.Length - 1) * 4096 < noffH.code + noffH.initData + noffH.uninitData + 1024
              <= pageTable.Length * 4096
      ensures forall i :: 0 <= i < pageTable.Length ==>
                && pageTable[i].virtualPage == i && pageTable[i].valid
                && !pageTable[i].readOnly && !pageTable[i].use && !pageTable[i].dirty
    {
      hide Exact, InUse, Picks, Registered, FramesOf, Mapped, CopyablePages, NumPages, Distinct;
      this.noffH := noffH;
      PageCounts(noffH);
      PagesAre(noffH);
      InUseRange(mem.memoryBitMap.Bits());
      pageTable := new Entry[NumPages(noffH)];
      frames := Picks(mem.memoryBitMap.Bits(), NumPages(noffH));
      new;
      ghost var live := mem.live;
      RegisterNew(mem, 0, Mapped(live));
      MappedAppend(live, this);
      mem.live := live + [this];
      RegisteredFrames(pageTable[..], 0, frames);
      RegisteredAre(pageTable[..], 0, frames);
    }

    /** The first pages are the parent's, frame for frame; the others get frames of their own. */
    constructor Fork(mem: Memory, source: AddrSpace)
      requires mem.Valid() && source in mem.live
      requires InUse(mem.memoryBitMap.Bits()) + NumPages(source.noffH) - CopyablePages(source.noffH) <= COUNTED
      modifies mem`live, mem.memoryBitMap.words, mem.threadsOnPhyPage
      ensures Valid() && fresh(pageTable) && noffH == source.noffH && mem.Valid() && mem.live == old(mem.live) + [this]
      ensures source.Valid()
      ensures var c := CopyablePages(noffH);
              && 0 <= c <= |frames| == |source.frames|
              && pageTable[..c] == source.pageTable[..c]
              && frames == source.frames[..c] + Picks(old(mem.memoryBitMap.Bits()), NumPages(noffH) - c)
              && Registered(pageTable[..], c, frames[c..]) && Available(frames[c..], Mapped(old(mem.live)))
      ensures InUse(mem.memoryBitMap.Bits())
              == old(InUse(mem.memoryBitMap.Bits())) + NumPages(noffH) - CopyablePages(noffH)
      ensures (pageTable.Length - 1) * 4096 < noffH.code + noffH.initData + noffH.uninitData + 1024
              <= pageTable.Length * 4096 == source.pageTable.Length * 4096
      ensures forall i :: 0 <= i < pageTable.Length ==>
                if i * 4096 < noffH.code + noffH.initData then pageTable[i] == source.pageTable[i]
                else
                  && pageTable[i].virtualPage == i && pageTable[i].valid
                  && !pageTable[i].readOnly && !pageTable[i].use && !pageTable[i].dirty
                  && forall b :: b in old(mem.live) ==> pageTable[i].physicalPage !in b.frames
    {
      hide Exact, InUse, Picks, Available, Registered, FramesOf, Mapped, CopyablePages, NumPages, Distinct;
      noffH := source.noffH;
      PageCounts(source.noffH);
      pageTable := new Entry[NumPages(source.noffH)];
      frames := source.frames[..CopyablePages(source.noffH)]
                + Picks(mem.memoryBitMap.Bits(), NumPages(source.noffH) - CopyablePages(source.noffH));
      new;
      CopyAndRegister(mem, source);
      PagesAre(noffH);
      ForkedFrames(mem.live, pageTable[..], frames, CopyablePages(noffH));
      RegisteredAre(pageTable[..], CopyablePages(noffH), frames[CopyablePages(noffH)..]);
      MappedAppend(mem.live, this);
      mem.live := mem.live + [this];
    }

    /** The two loops of Fork. */
    method CopyAndRegister(mem: Memory, source: AddrSpace)
      requires mem.Valid() && source in mem.live && noffH == source.noffH
      requires pageTable.Length == NumPages(noffH) && pageTable != source.pageTable
      requires InUse(mem.memoryBitMap.Bits()) + NumPages(noffH) - CopyablePages(noffH) <= COUNTED
      modifies mem.memoryBitMap.words, mem.threadsOnPhyPage, pageTable
      ensures mem.memoryBitMap.Valid()
      ensures 0 <= CopyablePages(noffH) <= pageTable.Length
      ensures var c, n := CopyablePages(noffH), NumPages(noffH);
              var picks := Picks(old(mem.memoryBitMap.Bits()), n - c);
              && pageTable[..c] == source.pageTable[..c]
              && |picks| == n - c && FramesOf(pageTable[..]) == source.frames[..c] + picks
              && Distinct(FramesOf(pageTable[..]))
              && Registered(pageTable[..], c, picks) && Available(picks, Mapped(mem.live))
              && Exact(mem.memoryBitMap.Bits(), mem.threadsOnPhyPage[..],
                 Mapped(mem.live) + multiset(FramesOf(pageTable[..])))
      ensures InUse(mem.memoryBitMap.Bits())
              == old(InUse(mem.memoryBitMap.Bits())) + NumPages(noffH) - CopyablePages(noffH)
    {
      PageCounts(noffH);
      hide Exact, InUse, Picks, Available, Registered, Mapped, CopyablePages, NumPages, Distinct;
      ghost var bits, c := mem.memoryBitMap.Bits(), CopyablePages(noffH);
      CopyShared(mem, source);
      RegisterNew(mem, CopyablePages(noffH), Mapped(mem.live) + multiset(source.frames[..c]));
      Forked(pageTable[..], source.pageTable[..], c, Picks(bits, NumPages(noffH) - c), Mapped(mem.live));
    }

    /** The first loop of Fork. */
    method CopyShared(mem: Memory, source: AddrSpace)
      requires mem.Valid() && source in mem.live && noffH == source.noffH
      requires pageTable.Length == NumPages(noffH) && pageTable != source.pageTable
      modifies mem.threadsOnPhyPage, pageTable
      ensures 0 <= CopyablePages(noffH) <= pageTable.Length
      ensures var c := CopyablePages(noffH);
              && pageTable[..c] == source.pageTable[..c]
              && Exact(mem.memoryBitMap.Bits(), mem.threadsOnPhyPage[..],
                 Mapped(mem.live) + multiset(source.frames[..c]))
    {
      hide Exact, Mapped;
      PageCounts(noffH);
      NoneLess(Mapped(mem.live), source.frames);
      for i := 0 to CopyablePages(noffH)
        invariant pageTable[..i] == source.pageTable[..i]
        invariant Exact(mem.memoryBitMap.Bits(), mem.threadsOnPhyPage[..],
                  Mapped(mem.live) + multiset(source.frames[..i]))
      {
        var e := source.pageTable[i];
        pageTable[i] := Entry(e.virtualPage, e.physicalPage, e.valid, e.readOnly, e.use, e.dirty);
        assert e.physicalPage == source.frames[i] by {
          assert FramesOf(source.pageTable[..])[i] == e.physicalPage;
        }
        MappedMember(mem.live, source, e.physicalPage);
        mem.Share(e.physicalPage, Mapped(mem.live) + multiset(source.frames[..i]));
        OneMore(Mapped(mem.live), source.frames, i);
      }
    }

    /** A frame is freed when its last user goes. */
    method Destroy(mem: Memory, ghost k: nat)
      requires mem.Valid() && k < |mem.live| && mem.live[k] == this
      modifies mem`live, mem.memoryBitMap.words, mem.threadsOnPhyPage
      ensures mem.Valid() && mem.live == old(mem.live[..k] + mem.live[k + 1..])
    {
      hide Exact, Mapped;
      assert mem.live[k].Valid();
      ghost var rest := Mapped(mem.live[..k] + mem.live[k + 1..]);
      MappedRemove(mem.live, k);
      NoneLess(rest, frames);
      for i := 0 to pageTable.Length
        invariant mem.live == old(mem.live)
        invariant Exact(mem.memoryBitMap.Bits(), mem.threadsOnPhyPage[..], rest + multiset(frames[i..]))
      {
        var p := pageTable[i].physicalPage;
        assert FramesOf(pageTable[..])[i] == p;
        OneLess(rest, frames, i);
        mem.Drop(p, rest + multiset(frames[i..]));
      }
      mem.live := mem.live[..k] + mem.live[k + 1..];
    }

    /** The loop at the end of both constructors: a free frame for every page from `first` on. */
    method RegisterNew(mem: Memory, first: nat, ghost mapped: multiset<int>)
      requires mem.memoryBitMap.Valid() && Exact(mem.memoryBitMap.Bits(), mem.threadsOnPhyPage[..], mapped)
      requires first <= pageTable.Length <= NUM_PHYS_PAGES
      requires InUse(mem.memoryBitMap.Bits()) + pageTable.Length - first <= COUNTED
      modifies mem.memoryBitMap.words, mem.threadsOnPhyPage, pageTable
      ensures var picks := Picks(old(mem.memoryBitMap.Bits()), pageTable.Length - first);
              && |picks| == pageTable.Length - first
              && Available(picks, mapped)
              && Exact(mem.memoryBitMap.Bits(), mem.threadsOnPhyPage[..], mapped + multiset(picks))
              && Registered(pageTable[..], first, picks)
      ensures InUse(mem.memoryBitMap.Bits()) == old(InUse(mem.memoryBitMap.Bits())) + pageTable.Length - first
      ensures pageTable[..first] == old(pageTable[..first])
    {
      hide Exact, InUse, Picks, Available, Registered, FirstClear;
      ghost var bits, n, done := mem.memoryBitMap.Bits(), pageTable.Length - first, [];
      NothingTaken(pageTable[..], first, bits, n, mapped);
      for i := first to pageTable.Length
        invariant |done| == i - first && Picks(bits, n) == done + Picks(mem.memoryBitMap.Bits(), n - |done|)
        invariant Available(done, mapped)
        invariant Exact(mem.memoryBitMap.Bits(), mem.threadsOnPhyPage[..], mapped + multiset(done))
        invariant InUse(mem.memoryBitMap.Bits()) == InUse(bits) + i - first
        invariant Registered(pageTable[..], first, done)
        invariant pageTable[..first] == old(pageTable[..first])
      {
        ghost var now := mem.memoryBitMap.Bits();
        var p := mem.Take(mapped + multiset(done));
        TakenSoFar(bits, n, done, now, mapped, p);
        RegisterOne(pageTable[..], first, done, p);
        pageTable[i] := Entry(i, p, true, false, false, false);
        done := done + [p];
      }
      PickNone(mem.memoryBitMap.Bits());
      assert done == Picks(bits, n);
    }
  }

  // ---- consequences ----

  /** A frame is in use exactly when an entry of a live page table names it. */
  lemma InUseIffMapped(mem: Memory, p: nat)
    requires mem.Valid() && p < NUM_PHYS_PAGES
    ensures mem.memoryBitMap.Bits()[p] <==>
            exists a, i :: a in mem.live && 0 <= i < a.pageTable.Length && a.pageTable[i].physicalPage == p
  {
    hide Mapped, Distinct, NumPages;
    if mem.memoryBitMap.Bits()[p] {
      MappedOwner(mem.live, p);
      var a :| a in mem.live && p in a.frames;
      var i :| 0 <= i < |a.frames| && a.frames[i] == p;
      assert FramesOf(a.pageTable[..])[i] == a.pageTable[i].physicalPage;
    }
    forall a, i | a in mem.live && 0 <= i < a.pageTable.Length && a.pageTable[i].physicalPage == p
      ensures p in Mapped(mem.live)
    {
      assert FramesOf(a.pageTable[..])[i] == p;
      MappedMember(mem.live, a, p);
    }
  }

  /** When the last address space is gone, every frame is free and every count is zero. */
  lemma AllDestroyedAllFree(bits: seq<bool>, counts: seq<int>)
    requires Exact(bits, counts, Mapped([]))
    ensures (forall p :: 0 <= p < COUNTED ==> counts[p] == 0) && InUse(bits) == 0
  {
    InUseBelow(bits, 0);
  }

  /** A space whose frames are distinct satisfies the condition under which its memory is a flat array of bytes. */
  lemma DistinctFramesOfTable(table: seq<Entry>)
    requires Distinct(FramesOf(table))
    ensures DistinctFrames(Mapping(false, table))
  {
    assert forall i :: 0 <= i < |table| ==> FramesOf(table)[i] == table[i].physicalPage;
  }

  /** Loading n pages indexes only counts that exist exactly when n and the frames in use come to at most 32... */
  lemma CountsExistIff(bits: seq<bool>, counts: seq<int>, mapped: multiset<int>, n: nat)
    requires Exact(bits, counts, mapped) && 0 < n <= CountClear(bits)
    ensures AllBelow(Picks(bits, n), COUNTED) <==> InUse(bits) + n <= COUNTED
  {
    PicksBelow(bits, n, COUNTED);
  }

  /** ... which the constructor's assertion does not ensure: this executable passes it on an empty machine. */
  lemma AssertedSizeIsNotEnough()
    ensures var h, free := NoffHeader(131072, 0, 0), seq(NUM_PHYS_PAGES, _ => false);
            NumPages(h) <= NUM_PHYS_PAGES && !AllBelow(Picks(free, NumPages(h)), COUNTED)
  {
    hide Picks;
    var n, free := NumPages(NoffHeader(131072, 0, 0)), seq(NUM_PHYS_PAGES, _ => false);
    InUseBelow(free, 0);
    assert n == 33;
    PicksBelow(free, n, COUNTED);
  }

  // ---- isolation between address spaces ----

  ghost function MapOf(a: AddrSpace): Mapping
    reads a.pageTable
  {
    Mapping(false, a.pageTable[..])
  }

  /** The frame behind a page that is mapped. */
  ghost function FrameAt(m: Mapping, va: word): int
    requires Readable(m, va)
  {
    m.entries[Find(m, va / 4096).slot].physicalPage
  }

  /** What is stored through one table shows in no byte of another, whatever is stored, exactly when no page of the
      other has the frame that it goes to. */
  lemma StoreIsHiddenIff(bytes: seq<byte>, m: Mapping, va: word, size: int, other: Mapping)
    requires |bytes| == MEMORY_SIZE && Sized(size) && Translated(m, va, size, true).Physical?
    ensures Translated(m, va, size, true).at + size <= |bytes|
    ensures (forall value: word, wa: word :: Readable(other, wa) ==>
               VirtualByte(Stored(bytes, Translated(m, va, size, true).at, size, value), other, wa)
               == VirtualByte(bytes, other, wa))
            <==> (forall wa: word :: Readable(other, wa) ==>
                    FrameAt(other, wa) != Translated(m, va, size, true).at / 4096)
  {
    hide Translated, Stored, VirtualByte, Readable, FrameAt;
    AccessInBounds(m, va, size, true);
    var pa := Translated(m, va, size, true).at;
    if wa: word :| Readable(other, wa) && FrameAt(other, wa) == pa / 4096 {
      var value, seen := SharedFrameShows(bytes, pa, size, other, wa);
    } else {
      forall value: word, wa: word | Readable(other, wa)
        ensures VirtualByte(Stored(bytes, pa, size, value), other, wa) == VirtualByte(bytes, other, wa)
      {
        OtherFrameHides(bytes, pa, size, value, other, wa);
      }
    }
  }

  lemma ByteAt(bytes: seq<byte>, m: Mapping, va: word)
    requires |bytes| == MEMORY_SIZE && Readable(m, va)
    ensures var pa := FrameAt(m, va) * 4096 + va % 4096;
            0 <= pa < |bytes| && pa / 4096 == FrameAt(m, va) && VirtualByte(bytes, m, va) == bytes[pa]
  {
    hide Find;
    AccessInBounds(m, va, 1, false);
  }

  lemma OtherFrameHides(bytes: seq<byte>, pa: nat, size: int, value: word, m: Mapping, wa: word)
    requires |bytes| == MEMORY_SIZE && Sized(size) && pa + size <= |bytes| && pa / 4096 == (pa + size - 1) / 4096
    requires Readable(m, wa) && FrameAt(m, wa) != pa / 4096
    ensures VirtualByte(Stored(bytes, pa, size, value), m, wa) == VirtualByte(bytes, m, wa)
  {
    hide Readable, FrameAt, LowBytes, VirtualByte;
    ByteAt(bytes, m, wa);
    ByteAt(Stored(bytes, pa, size, value), m, wa);
  }

  lemma SharedFrameShows(bytes: seq<byte>, pa: nat, size: int, m: Mapping, wa: word) returns (value: word, seen: word)
    requires |bytes| == MEMORY_SIZE && Sized(size) && pa + size <= |bytes|
    requires Readable(m, wa) && FrameAt(m, wa) == pa / 4096
    ensures Readable(m, seen)
    ensures VirtualByte(Stored(bytes, pa, size, value), m, seen) != VirtualByte(bytes, m, seen)
  {
    hide LowBytes, VirtualByte;
    seen := wa / 4096 * 4096 + pa % 4096;
    assert seen / 4096 == wa / 4096 && seen % 4096 == pa % 4096;
    value := if bytes[pa] == 0 then 1 else 0;
    ByteAt(bytes, m, seen);
    ByteAt(Stored(bytes, pa, size, value), m, seen);
    LowestByte(value, size);
  }

  lemma LowestByte(value: word, size: int)
    requires Sized(size) && value < 0x100
    ensures LowBytes(value, size)[0] == value
  {
  }

  /** A frame that is counted once is the frame of one space only... */
  lemma CountedOnceIsOwn(mem: Memory, i: nat, j: nat, p: int)
    requires mem.Valid() && i < |mem.live| && j < |mem.live| && i != j && p in mem.live[i].frames
    ensures 0 <= p < COUNTED
    ensures mem.threadsOnPhyPage[p] == 1 ==> p !in mem.live[j].frames
  {
    hide Mapped;
    MappedMember(mem.live, mem.live[i], p);
    if p in mem.live[j].frames {
      MappedTwice(mem.live, if i < j then i else j, if i < j then j else i, p);
    }
  }

  /** ... and what one live space stores there shows in no byte of another. */
  lemma SpacesAreIsolated(mem: Memory, i: nat, j: nat, bytes: seq<byte>, va: word, size: int, value: word, wa: word)
    requires mem.Valid() && i < |mem.live| && j < |mem.live| && i != j
    requires |bytes| == MEMORY_SIZE && Sized(size) && Translated(MapOf(mem.live[i]), va, size, true).Physical?
    requires var p := Translated(MapOf(mem.live[i]), va, size, true).at / 4096;
             p < COUNTED ==> mem.threadsOnPhyPage[p] == 1
    requires Readable(MapOf(mem.live[j]), wa)
    ensures var pa := Translated(MapOf(mem.live[i]), va, size, true).at;
            && pa + size <= |bytes|
            && VirtualByte(Stored(bytes, pa, size, value), MapOf(mem.live[j]), wa)
               == VirtualByte(bytes, MapOf(mem.live[j]), wa)
  {
    hide Stored, VirtualByte, Mapped, Exact, Distinct, NumPages;
    var a, b := mem.live[i], mem.live[j];
    AccessInBounds(MapOf(a), va, size, true);
    var pa := Translated(MapOf(a), va, size, true).at;
    assert a.Valid();
    MappedFrame(a, va / 4096);
    CountedOnceIsOwn(mem, i, j, pa / 4096);
    assert b.Valid();
    MappedFrame(b, wa / 4096);
    OtherFrameHides(bytes, pa, size, value, MapOf(b), wa);
  }

  lemma MappedFrame(a: AddrSpace, page: nat)
    requires a.Valid() && Find(MapOf(a), page).Hit?
    ensures MapOf(a).entries[Find(MapOf(a), page).slot].physicalPage in a.frames
  {
    hide Distinct, NumPages;
    assert FramesOf(a.pageTable[..])[page] == a.pageTable[page].physicalPage;
  }
}
