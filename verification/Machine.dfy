/** machine/machine.cc, machine/translate.cc and machine/mipssim.cc: the simulated processor, one instruction at a
    time. */
module Machines {
  import opened Words
  import opened Bits
  import opened Translation
  import opened Isa
  import opened Multiply

  const TLB_SIZE := 4

  datatype Outcome = Completed | Trap(why: Exception) | Stopped

  // ---- one step as a function ----

  datatype Step = Step(outcome: Outcome, regs: Regs, mem: seq<byte>)

  /** What a load puts in its register, from the bytes fetched and, for LWR, the register's pending value. */
  function LoadedValue(kind: LoadKind, bytes: word, was: word): word
    requires bytes < (if kind.Size() == 1 then 0x100 else if kind.Size() == 2 then 0x1_0000 else TWO32)
  {
    match kind
    case SignedByte => if bytes < 0x80 then bytes else TWO32 - 0x100 + bytes
    case SignedHalf => if bytes < 0x8000 then bytes else TWO32 - 0x1_0000 + bytes
    case WordRight => was - was % 0x100 + bytes / 0x100_0000
    case _ => bytes
  }

  /** The value a register will have once the pending load lands. */
  function Pending(r: Regs, k: nat): word
    requires k < 32
  {
    if r[LOAD] == k then r[LOAD_VALUE] else r[k]
  }

  function Performed(r: Regs, mem: seq<byte>, m: Mapping, i: Instruction): Step
    requires |mem| == MEMORY_SIZE && r[LOAD] < 32 && i.Ok()
  {
    if Wanted(r, i).Finish? then FinishKeeps(r, i); Met(r, mem, m, i.rt, Wanted(r, i))
      else Met(r, mem, m, i.rt, Wanted(r, i))
  }

  /** The request of an instruction, met. */
  function Met(r: Regs, mem: seq<byte>, m: Mapping, rt: nat, a: Action): Step
    requires |mem| == MEMORY_SIZE && r[LOAD] < 32 && rt < 32
    requires a.Finish? ==> a.regs[LOAD] < 32
    requires a.Store? ==> Sized(a.size)
  {
    match a
    case Finish(r2, pcAfter) => Step(Completed, Retired(r2, 0, 0, pcAfter), mem)
    case Raise(why, bad) => Step(Trap(why), Trapped(r, bad), mem)
    case Stop => Step(Stopped, r, mem)
    case Load(addr, kind) => LoadStep(r, mem, m, rt, addr, kind)
    case Store(addr, size, value) => WriteStep(r, mem, m, addr, size, value)
    case StoreLeft(addr, value) => StoreOverStep(r, mem, m, addr, value, false)
    case StoreRight(addr, value) => StoreOverStep(r, mem, m, addr, value, true)
  }

  /** SWL and SWR read the word first; SWR keeps its low three bytes. */
  function StoreOverStep(r: Regs, mem: seq<byte>, m: Mapping, addr: word, value: word, right: bool): Step
    requires |mem| == MEMORY_SIZE && r[LOAD] < 32
  {
    match Translated(m, addr, 4, false)
    case Fault(why) => Step(Trap(why), Trapped(r, addr), mem)
    case Physical(_, at) =>
      AccessInBounds(m, addr, 4, false);
      WriteStep(r, mem, m, addr, 4, if right then MergedRight(Fetched(mem, at, 4), value) else value)
  }

  /** ReadMem's value: a single byte goes through C's signed char. */
  function HostValue(bytes: word, size: int): word
    requires size == 1 ==> bytes < 0x100
  {
    if size == 1 && bytes >= 0x80 then TWO32 - 0x100 + bytes else bytes
  }

  function MergedRight(into: word, value: word): word {
    into % 0x100_0000 + value % 0x100 * 0x100_0000
  }

  function LoadStep(r: Regs, mem: seq<byte>, m: Mapping, rt: nat, addr: word, kind: LoadKind): Step
    requires |mem| == MEMORY_SIZE && r[LOAD] < 32 && rt < 32
  {
    match Translated(m, addr, kind.Size(), false)
    case Fault(why) => Step(Trap(why), Trapped(r, addr), mem)
    case Physical(_, at) =>
      AccessInBounds(m, addr, kind.Size(), false);
      Step(Completed, Retired(r, rt, LoadedValue(kind, Fetched(mem, at, kind.Size()), Pending(r, rt)), NextOf(r)), mem)
  }

  function WriteStep(r: Regs, mem: seq<byte>, m: Mapping, addr: word, size: int, value: word): Step
    requires |mem| == MEMORY_SIZE && r[LOAD] < 32 && Sized(size)
  {
    match Translated(m, addr, size, true)
    case Fault(why) => Step(Trap(why), Trapped(r, addr), mem)
    case Physical(_, at) =>
      AccessInBounds(m, addr, size, true);
      Step(Completed, Retired(r, 0, 0, NextOf(r)), Stored(mem, at, size, value))
  }

  function Stepped(r: Regs, mem: seq<byte>, m: Mapping): Step
    requires |mem| == MEMORY_SIZE && r[LOAD] < 32
  {
    match Translated(m, r[PC], 4, false)
    case Fault(why) => Step(Trap(why), Trapped(r, r[PC]), mem)
    case Physical(_, at) =>
      AccessInBounds(m, r[PC], 4, false);
      Performed(r, mem, m, Decoded(Fetched(mem, at, 4)))
  }

  /** At every step boundary register 0 is zero and the pending load names a general register. */
  lemma StepKeepsRegs(r: Regs, mem: seq<byte>, m: Mapping)
    requires |mem| == MEMORY_SIZE && RegsOk(r)
    ensures RegsOk(Stepped(r, mem, m).regs) && |Stepped(r, mem, m).mem| == MEMORY_SIZE
  {
    hide Wanted, Decoded, Fetched, Translated, Stored, LoadedValue;
    FetchKeeps(r, mem, m);
  }

  /** The fetched instruction, if it only computes, leaves the counters and the pending load to the end of the step. */
  lemma FetchKeeps(r: Regs, mem: seq<byte>, m: Mapping)
    requires |mem| == MEMORY_SIZE && RegsOk(r)
    ensures match Translated(m, r[PC], 4, false)
            case Fault(_) => true
            case Physical(_, at) =>
              && at + 4 <= |mem|
              && match Wanted(r, Decoded(Fetched(mem, at, 4)))
                 case Finish(u, _) => u[PC] == r[PC] && u[NEXT_PC] == r[NEXT_PC] && u[LOAD] == r[LOAD]
                 case _ => true
  {
    hide Wanted, Decoded, Fetched, Translated;
    match Translated(m, r[PC], 4, false)
    case Fault(_) =>
    case Physical(_, at) =>
      AccessInBounds(m, r[PC], 4, false);
      if Wanted(r, Decoded(Fetched(mem, at, 4))).Finish? {
        FinishKeeps(r, Decoded(Fetched(mem, at, 4)));
      }
  }

  /** Precise traps, for every instruction: memory is untouched, and the registers are the old ones with the pending
      load landed and the bad address recorded -- so the trapping instruction can be run again. */
  lemma TrapsArePrecise(r: Regs, mem: seq<byte>, m: Mapping)
    requires |mem| == MEMORY_SIZE && RegsOk(r) && Stepped(r, mem, m).outcome.Trap?
    ensures var s := Stepped(r, mem, m);
            && s.mem == mem
            && s.regs == Trapped(r, s.regs[BAD_VADDR])
            && s.regs[PC] == r[PC] && s.regs[NEXT_PC] == r[NEXT_PC]
            && forall k :: 1 <= k < 32 ==> s.regs[k] == Pending(r, k)
  {
    hide Wanted, Decoded, Fetched, Translated, Stored, LoadedValue;
  }

  /** Running the trapping instruction again does exactly what it would have done with the pending load already landed:
      the same outcome, the same memory, the same registers (the record of the bad address aside). */
  lemma RetryAfterTrap(r: Regs, mem: seq<byte>, m: Mapping, bad: word)
    requires |mem| == MEMORY_SIZE && RegsOk(r)
    ensures var again, first := Stepped(Trapped(r, bad), mem, m), Stepped(Committed(r, 0, 0), mem, m);
            && again.outcome == first.outcome && again.mem == first.mem
            && Alike(again.regs, first.regs)
  {
    StepIgnoresBadAddress(Trapped(r, bad), Committed(r, 0, 0), mem, m);
  }

  lemma StepIgnoresBadAddress(r1: Regs, r2: Regs, mem: seq<byte>, m: Mapping)
    requires |mem| == MEMORY_SIZE && RegsOk(r1) && RegsOk(r2) && Alike(r1, r2)
    ensures var x, y := Stepped(r1, mem, m), Stepped(r2, mem, m);
            x.outcome == y.outcome && x.mem == y.mem && Alike(x.regs, y.regs)
  {
    hide Wanted, Decoded, Fetched, Translated, Stored, LoadedValue;
    FetchKeeps(r1, mem, m);
    FetchKeeps(r2, mem, m);
    match Translated(m, r1[PC], 4, false)
    case Fault(_) =>
    case Physical(_, at) =>
      AccessInBounds(m, r1[PC], 4, false);
      var i := Decoded(Fetched(mem, at, 4));
      BadAddressInert(r1, r2, i);
      MetAlike(r1, r2, mem, m, i.rt, Wanted(r1, i), Wanted(r2, i));
  }

  lemma MetAlike(r1: Regs, r2: Regs, mem: seq<byte>, m: Mapping, rt: nat, a1: Action, a2: Action)
    requires |mem| == MEMORY_SIZE && RegsOk(r1) && RegsOk(r2) && Alike(r1, r2) && SameRequest(a1, a2) && rt < 32
    requires (a1.Finish? ==> a1.regs[LOAD] < 32) && (a1.Store? ==> Sized(a1.size))
    requires (a2.Finish? ==> a2.regs[LOAD] < 32) && (a2.Store? ==> Sized(a2.size))
    ensures var x, y := Met(r1, mem, m, rt, a1), Met(r2, mem, m, rt, a2);
            x.outcome == y.outcome && x.mem == y.mem && Alike(x.regs, y.regs)
  {
    EndsAlike(r1, r2);
    if a1.Finish? {
      EndsAlike(a1.regs, a2.regs);
    }
    assert Pending(r1, rt) == Pending(r2, rt) && NextOf(r1) == NextOf(r2);
    hide Translated, Stored, Fetched, LoadedValue, Trapped, Retired, Alike, Pending;
  }

  /** An instruction that completes hands over to the one after it; only a transfer chooses what follows that. */
  lemma CompletionAdvances(r: Regs, mem: seq<byte>, m: Mapping)
    requires |mem| == MEMORY_SIZE && RegsOk(r) && Stepped(r, mem, m).outcome == Completed
    ensures Stepped(r, mem, m).regs[PC] == r[NEXT_PC] && Stepped(r, mem, m).regs[PREV_PC] == r[PC]
  {
    hide Wanted, Decoded, Fetched, Translated, Stored, LoadedValue;
    FetchKeeps(r, mem, m);
  }

  /** Where the switch of OneInstruction has left the machine: what remains is the delayed load and the counters. */
  ghost predicate Underway(goal: Step, outcome: Outcome, r: Regs, mem: seq<byte>, nextReg: word, nextValue: word,
                           pcAfter: word)
  {
    && outcome == goal.outcome
    && (outcome.Trap? ==> goal == Step(outcome, r, mem))
    && (outcome == Completed ==> r[LOAD] < 32 && goal == Step(outcome, Retired(r, nextReg, nextValue, pcAfter), mem))
  }

  lemma HostLow(f: word, size: int, value: word)
    requires Sized(size) && f < (if size == 1 then 0x100 else if size == 2 then 0x1_0000 else TWO32)
             && value == HostValue(f, size)
    ensures f == if size == 1 then value % 0x100 else if size == 2 then value % 0x1_0000 else value
  {
  }

  lemma WriteIgnoresBits(r: Regs, mem: seq<byte>, m1: Mapping, m2: Mapping, addr: word, size: int, value: word)
    requires |mem| == MEMORY_SIZE && r[LOAD] < 32 && Sized(size) && Bare(m1) == Bare(m2)
    ensures WriteStep(r, mem, m1, addr, size, value) == WriteStep(r, mem, m2, addr, size, value)
  {
    hide Translated, Bare, Retired, Trapped, Stored;
    TranslatedIgnoresBits(m1, m2, addr, size, true);
  }

  /** The fetch marks its entry used; the rest of the instruction does not notice. */
  lemma PerformedIgnoresBits(r: Regs, mem: seq<byte>, m1: Mapping, m2: Mapping, i: Instruction)
    requires |mem| == MEMORY_SIZE && r[LOAD] < 32 && i.Ok() && Bare(m1) == Bare(m2)
    ensures Performed(r, mem, m1, i) == Performed(r, mem, m2, i)
  {
    hide Translated, Wanted, Bare, Retired, Trapped, Fetched, Stored, LoadedValue;
    match Wanted(r, i)
    case Load(addr, kind) => TranslatedIgnoresBits(m1, m2, addr, kind.Size(), false);
    case Store(addr, size, _) => TranslatedIgnoresBits(m1, m2, addr, size, true);
    case StoreLeft(addr, _) =>
      TranslatedIgnoresBits(m1, m2, addr, 4, false);
      TranslatedIgnoresBits(m1, m2, addr, 4, true);
    case StoreRight(addr, _) =>
      TranslatedIgnoresBits(m1, m2, addr, 4, false);
      TranslatedIgnoresBits(m1, m2, addr, 4, true);
    case _ =>
  }

  // ---- sign bits against signed arithmetic ----

  /** w & SIGN_BIT */
  predicate Negative(w: word) {
    w >= TWO31
  }

  lemma SignBit(w: word)
    ensures Negative(w) <==> Signed(w) < 0
  {
  }

  lemma SignedZero(w: word)
    ensures Signed(w) == 0 <==> w == 0
  {
  }

  lemma SumOverflows(s: word, t: word, sum: word)
    requires sum == AddWord(s, t)
    ensures sum == Wrap(Plus(Signed(s), Signed(t)))
    ensures Negative(s) == Negative(t) && Negative(s) != Negative(sum) <==> !FitsInt32(Plus(Signed(s), Signed(t)))
  {
  }

  lemma DifferenceOverflows(s: word, t: word, diff: word)
    requires diff == Offset(s, -(t as int))
    ensures diff == Wrap(Minus(Signed(s), Signed(t)))
    ensures Negative(s) != Negative(t) && Negative(s) != Negative(diff) <==> !FitsInt32(Minus(Signed(s), Signed(t)))
  {
  }

  lemma SignedHalves(p: int, hi: word, lo: word)
    requires Signed(hi) * TWO32 + lo == p
    ensures lo == Wrap(p) && hi == Wrap(p / TWO32)
  {
  }

  lemma UnsignedHalves(s: word, t: word, hi: word, lo: word)
    requires Pair(hi, lo) == Unsigned(Signed(s)) * Unsigned(Signed(t))
    ensures var p: int := s as int * t as int; lo == Wrap(p) && hi == Wrap(p / TWO32)
  {
    assert Unsigned(Signed(s)) == s && Unsigned(Signed(t)) == t;
  }

  // ---- runs ----

  /** What kernel code is trusted with: it leaves register 0 alone and names no odd register in a pending load. */
  ghost predicate KeepsRegs(kernel: (nat, Regs) -> Regs) {
    forall n, r: Regs :: RegsOk(r) ==> RegsOk(kernel(n, r))
  }

  /** The state after n turns of Run; a turn that traps ends with the kernel's handler, one that stops ends the run. */
  ghost function After(kernel: (nat, Regs) -> Regs, r: Regs, mem: seq<byte>, m: Mapping, n: nat): (s: Step)
    requires |mem| == MEMORY_SIZE && RegsOk(r) && KeepsRegs(kernel)
    ensures RegsOk(s.regs) && |s.mem| == MEMORY_SIZE && !s.outcome.Trap?
  {
    if n == 0 then Step(Completed, r, mem) else
      var before := After(kernel, r, mem, m, n - 1);
      if before.outcome == Stopped then before else
        StepKeepsRegs(before.regs, before.mem, m);
        var s := Stepped(before.regs, before.mem, m);
        if s.outcome.Trap? then Step(Completed, kernel(n - 1, s.regs), s.mem) else s
  }

  lemma {:induction false} StaysStopped(kernel: (nat, Regs) -> Regs, r: Regs, mem: seq<byte>, m: Mapping, i: nat,
                                        n: nat)
    requires |mem| == MEMORY_SIZE && RegsOk(r) && KeepsRegs(kernel) && i <= n
    requires After(kernel, r, mem, m, i).outcome == Stopped
    ensures After(kernel, r, mem, m, n).outcome == Stopped
    decreases n
  {
    hide Stepped, KeepsRegs;
    if i < n {
      StaysStopped(kernel, r, mem, m, i, n - 1);
    }
  }

  lemma SteppedIgnoresBits(r: Regs, mem: seq<byte>, m1: Mapping, m2: Mapping)
    requires |mem| == MEMORY_SIZE && RegsOk(r) && Bare(m1) == Bare(m2)
    ensures Stepped(r, mem, m1) == Stepped(r, mem, m2)
  {
    hide Bare, Translated, Performed, Decoded, Fetched, Trapped;
    TranslatedIgnoresBits(m1, m2, r[PC], 4, false);
    match Translated(m1, r[PC], 4, false)
    case Fault(_) =>
    case Physical(_, at) =>
      AccessInBounds(m1, r[PC], 4, false);
      PerformedIgnoresBits(r, mem, m1, m2, Decoded(Fetched(mem, at, 4)));
  }

  lemma BareAfterUse(m: Mapping, slot: nat, use: bool, dirty: bool)
    requires slot < |m.entries|
    ensures Bare(m.(entries := m.entries[slot := m.entries[slot].(use := use, dirty := dirty)])) == Bare(m)
  {
    var after := m.(entries := m.entries[slot := m.entries[slot].(use := use, dirty := dirty)]);
    assert Bare(after).entries == Bare(m).entries;
  }

  class Machine {
    const registers: array<word>
    const mainMemory: array<byte>
    var tlb: array?<Entry>
    var pageTable: array?<Entry>

    ghost predicate Shaped()
      reads registers
    {
      registers.Length == NUM_TOTAL_REGS && mainMemory.Length == MEMORY_SIZE && RegsOk(registers[..])
    }

    /** A TLB or a page table, but not both. */
    ghost predicate Valid()
      reads this, registers
    {
      Shaped() && (tlb == null <==> pageTable != null)
    }

    /** With a TLB, the machine is ready to run, and every access misses; without, it waits for a page table. */
    constructor (useTlb: bool)
      ensures Shaped() && fresh(registers) && fresh(mainMemory) && pageTable == null
      ensures (forall k :: 0 <= k < NUM_TOTAL_REGS ==> registers[k] == 0)
              && forall k :: 0 <= k < MEMORY_SIZE ==> mainMemory[k] == 0
      ensures if useTlb then Valid() && fresh(tlb) && forall va: word :: Find(Map(), va / 4096).Miss? else tlb == null
    {
      registers := new word[NUM_TOTAL_REGS];
      mainMemory := new byte[MEMORY_SIZE];
      pageTable := null;
      tlb := null;
      new;
      for i := 0 to NUM_TOTAL_REGS
        invariant tlb == null && pageTable == null && forall k :: 0 <= k < i ==> registers[k] == 0
      {
        registers[i] := 0;
      }
      for i := 0 to MEMORY_SIZE
        invariant tlb == null && pageTable == null && forall k :: 0 <= k < i ==> mainMemory[k] == 0
        invariant forall k :: 0 <= k < NUM_TOTAL_REGS ==> registers[k] == 0
      {
        mainMemory[i] := 0;
      }
      if useTlb {
        var entries := new Entry[TLB_SIZE];
        for i := 0 to TLB_SIZE
          invariant forall k :: 0 <= k < i ==> !entries[k].valid
          modifies entries
        {
          entries[i] := Entry(0, 0, false, false, false, false);
        }
        tlb := entries;
        assert forall k :: 0 <= k < TLB_SIZE ==> Map().entries[k] == entries[k];
      }
    }

    /** AddrSpace::RestoreState: the machine runs with the page table of an address space. */
    method RestoreState(table: array<Entry>)
      requires Shaped() && tlb == null
      modifies this`pageTable
      ensures Valid() && pageTable == table && tlb == null
    {
      pageTable := table;
    }

    ghost function Table(): array<Entry>
      reads this
      requires tlb != null || pageTable != null
    {
      if tlb != null then tlb else pageTable
    }

    ghost function Map(): Mapping
      reads this, Table()
      requires tlb != null || pageTable != null
    {
      Mapping(tlb != null, Table()[..])
    }

    /** registers[registers[LoadReg]] = registers[LoadValueReg], and the next load is recorded. */
    method DelayedLoad(nextReg: word, nextValue: word)
      requires registers.Length == NUM_TOTAL_REGS && registers[LOAD] < 32
      modifies registers
      ensures registers[..] == Committed(old(registers[..]), nextReg, nextValue)
    {
      registers[registers[LOAD]] := registers[LOAD_VALUE];
      registers[LOAD] := nextReg;
      registers[LOAD_VALUE] := nextValue;
      registers[0] := 0;
    }

    /** Up to the call of the kernel's handler. */
    method RaiseException(badVAddr: word)
      requires registers.Length == NUM_TOTAL_REGS && registers[LOAD] < 32
      modifies registers
      ensures registers[..] == Trapped(old(registers[..]), badVAddr)
    {
      registers[BAD_VADDR] := badVAddr;
      DelayedLoad(0, 0);
    }

    method Translate(virtAddr: word, size: int, writing: bool) returns (r: Address)
      requires Valid() && Sized(size)
      modifies Table()
      ensures r == Translated(old(Map()), virtAddr, size, writing)
      ensures Map() == match r
                       case Fault(_) => old(Map())
                       case Physical(k, _) =>
                         var e := old(Map()).entries[k];
                         old(Map()).(entries := old(Map()).entries[k := e.(use := true, dirty := e.dirty || writing)])
      ensures Bare(Map()) == old(Bare(Map()))
      ensures r.Physical? ==> r.at + size <= MEMORY_SIZE
    {
      hide Bare;
      if (size == 4 && virtAddr % 4 != 0) || (size == 2 && virtAddr % 2 != 0) {
        return Fault(AddressErrorException);
      }
      var vpn, offset := virtAddr / PAGE_SIZE, virtAddr % PAGE_SIZE;
      var slot: int := -1;
      var table: array<Entry>;
      if tlb == null {
        table := pageTable;
        if vpn >= table.Length {
          return Fault(AddressErrorException);
        } else if !table[vpn].valid {
          return Fault(PageFaultException);
        }
        slot := vpn;
      } else {
        table := tlb;
        for i := 0 to table.Length
          invariant slot == -1 && forall j :: 0 <= j < i ==> !(table[j].valid && table[j].virtualPage == vpn)
        {
          if table[i].valid && table[i].virtualPage == vpn {
            slot := i;
            break;
          }
        }
        if slot == -1 {
          return Fault(PageFaultException);
        }
        assert TlbSlot(table[..], vpn) == slot;
      }
      ghost var m := Map();
      assert Find(m, vpn) == Hit(slot);
      var entry := table[slot];
      if entry.readOnly && writing {
        return Fault(ReadOnlyException);
      }
      var pageFrame := entry.physicalPage;
      if pageFrame < 0 || pageFrame >= NUM_PHYS_PAGES {
        return Fault(BusErrorException);
      }
      table[slot] := entry.(use := true, dirty := entry.dirty || writing);
      r := Physical(slot, pageFrame * PAGE_SIZE + offset);
      AccessInBounds(m, virtAddr, size, writing);
      BareAfterUse(m, slot, true, entry.dirty || writing);
    }

    method ReadMem(addr: word, size: int) returns (ok: bool, value: word, why: Exception)
      requires Valid() && Sized(size)
      modifies registers, Table()
      ensures Bare(Map()) == old(Bare(Map()))
      ensures match Translated(old(Map()), addr, size, false)
              case Fault(e) => !ok && why == e && registers[..] == Trapped(old(registers[..]), addr)
              case Physical(_, pa) =>
                ok && registers[..] == old(registers[..]) && pa + size <= MEMORY_SIZE
                && value == HostValue(Fetched(mainMemory[..], pa, size), size)
    {
      hide Translated, Trapped, Bare;
      var t := Translate(addr, size, false);
      match t
      case Fault(e) =>
        RaiseException(addr);
        return false, 0, e;
      case Physical(_, pa) =>
        ok, why := true, SyscallException;
        if size == 1 {
          value := if mainMemory[pa] < 0x80 then mainMemory[pa] else TWO32 - 0x100 + mainMemory[pa];
        } else if size == 2 {
          var low: int, high: int := mainMemory[pa], mainMemory[pa + 1];
          value := low + 0x100 * high;
        } else {
          value := WordOf(mainMemory[pa..pa + 4]);
          assert mainMemory[..][pa..pa + 4] == mainMemory[pa..pa + 4];
        }
    }

    method WriteMem(addr: word, size: int, value: word) returns (ok: bool, why: Exception)
      requires Valid() && Sized(size)
      modifies registers, Table(), mainMemory
      ensures Bare(Map()) == old(Bare(Map()))
      ensures match Translated(old(Map()), addr, size, true)
              case Fault(e) => !ok && why == e && registers[..] == Trapped(old(registers[..]), addr)
                && mainMemory[..] == old(mainMemory[..])
              case Physical(_, pa) =>
                ok && registers[..] == old(registers[..]) && pa + size <= MEMORY_SIZE
                && mainMemory[..] == Stored(old(mainMemory[..]), pa, size, value)
    {
      hide Translated, Trapped, Bare;
      var t := Translate(addr, size, true);
      match t
      case Fault(e) =>
        RaiseException(addr);
        return false, e;
      case Physical(_, pa) =>
        ok, why := true, SyscallException;
        ghost var before := mainMemory[..];
        var bytes := WordBytes(value);
        mainMemory[pa] := bytes[0];
        if size >= 2 {
          mainMemory[pa + 1] := bytes[1];
        }
        if size == 4 {
          mainMemory[pa + 2] := bytes[2];
          mainMemory[pa + 3] := bytes[3];
        }
        assert mainMemory[..] == Stored(before, pa, size, value);
    }

    /** A store and then a load: the same access gives the stored value, cut to its width and widened again; an access
        that does not overlap it gives what it would have given before. */
    method StoreThenLoad(addr: word, size: int, value: word, from: word, width: int)
      returns (ok: bool, loaded: word, why: Exception)
      requires Valid() && Sized(size) && Sized(width) && Translated(Map(), addr, size, true).Physical?
      modifies registers, Table(), mainMemory
      ensures ok <==> Translated(old(Map()), from, width, false).Physical?
      ensures from == addr && width == size ==> ok && loaded == HostValue(CutTo(value, size), size)
      ensures ok && DistinctFrames(old(Map())) && (from + width <= addr || addr + size <= from) ==>
                var pa := Translated(old(Map()), from, width, false).at;
                pa + width <= MEMORY_SIZE && loaded == HostValue(Fetched(old(mainMemory[..]), pa, width), width)
    {
      hide Translated, Bare, Trapped, Stored, Fetched, DistinctFrames, CutTo, HostValue;
      ghost var m, mem := Map(), mainMemory[..];
      AccessInBounds(m, addr, size, true);
      var stored, _ := WriteMem(addr, size, value);
      TranslatedIgnoresBits(m, Map(), from, width, false);
      ok, loaded, why := ReadMem(from, width);
      if from == addr && width == size {
        ReadAfterWrite(mem, m, addr, size, value);
      }
      if ok && DistinctFrames(m) && (from + width <= addr || addr + size <= from) {
        WritesElsewhere(mem, m, addr, size, value, from, width);
      }
    }

    // ---- the switch of OneInstruction, by kind of instruction ----

    method ExecuteSum(i: Instruction) returns (pcAfter: word)
      requires Valid() && i.Ok() && KindOf(i.op) == Summing
      modifies registers
      ensures Computed(old(registers[..]), i) == Finish(registers[..], pcAfter)
    {
      hide Offset, Unsigned, Signed;
      pcAfter := AddWord(registers[NEXT_PC], 4);
      var s, t, x := registers[i.rs], registers[i.rt], i.extra;
      match i.op
      case ADDIU => registers[i.rt] := Offset(s, x);
      case ADDU => registers[i.rd] := AddWord(s, t);
      case LUI => registers[i.rt] := Offset(0, x as int * 0x1_0000);
      case SLT => registers[i.rd] := if Signed(s) < Signed(t) then 1 else 0;
      case SLTI => registers[i.rt] := if Signed(s) < x then 1 else 0;
      case SLTIU => registers[i.rt] := if s < Unsigned(x) then 1 else 0;
      case SLTU => registers[i.rd] := if s < t then 1 else 0;
      case SUBU => registers[i.rd] := Offset(s, -(t as int));
    }

    method ExecuteBits(i: Instruction) returns (pcAfter: word)
      requires Valid() && i.Ok() && KindOf(i.op) == Bitwise
      modifies registers
      ensures Computed(old(registers[..]), i) == Finish(registers[..], pcAfter)
    {
      hide ShiftLeft, ShiftRightSigned, And, Or, Xor, Not, Offset, Unsigned, Signed;
      pcAfter := AddWord(registers[NEXT_PC], 4);
      var s, t, x := registers[i.rs], registers[i.rt], i.extra;
      var imm := Unsigned(x) % 0x1_0000;
      match i.op
      case AND => registers[i.rd] := And(s, t);
      case ANDI => registers[i.rt] := And(s, imm);
      case NOR => registers[i.rd] := Not(Or(s, t));
      case OR => registers[i.rd] := Or(s, s);
      case ORI => registers[i.rt] := Or(s, imm);
      case SLL => registers[i.rd] := ShiftLeft(t, x);
      case SLLV => registers[i.rd] := ShiftLeft(t, s % 32);
      case SRA => registers[i.rd] := ShiftRightSigned(t, x);
      case SRAV => registers[i.rd] := ShiftRightSigned(t, s % 32);
      case SRL => registers[i.rd] := ShiftRightSigned(t, x);
      case SRLV => registers[i.rd] := ShiftRightSigned(t, s % 32);
      case XOR => registers[i.rd] := Xor(s, t);
      case XORI => registers[i.rt] := Xor(s, imm);
    }

    /** The overflow tests compare sign bits; the specification asks whether the signed result fits. */
    method ExecuteChecked(i: Instruction) returns (trap: bool, why: Exception, pcAfter: word)
      requires Valid() && i.Ok() && KindOf(i.op) == Checking
      modifies registers
      ensures match Checked(old(registers[..]), i)
              case Finish(u, p) => !trap && registers[..] == u && pcAfter == p
              case Raise(e, bad) => trap && why == e && registers[..] == Trapped(old(registers[..]), bad)
              case _ => false
    {
      hide Offset, Wrap, Trapped;
      trap, why := false, OverflowException;
      pcAfter := AddWord(registers[NEXT_PC], 4);
      var s, t, x := registers[i.rs], registers[i.rt], i.extra;
      match i.op
      case ADD =>
        var sum := AddWord(s, t);
        SumOverflows(s, t, sum);
        if Negative(s) == Negative(t) && Negative(s) != Negative(sum) {
          trap := true;
          RaiseException(0);
          return;
        }
        registers[i.rd] := sum;
      case ADDI =>
        var sum := AddWord(s, Unsigned(x));
        SumOverflows(s, Unsigned(x), sum);
        SignedUnsigned(x);
        if Negative(s) == (x < 0) && (x < 0) != Negative(sum) {
          trap := true;
          RaiseException(0);
          return;
        }
        registers[i.rt] := sum;
      case SUB =>
        var diff := Offset(s, -(t as int));
        DifferenceOverflows(s, t, diff);
        if Negative(s) != Negative(t) && Negative(s) != Negative(diff) {
          trap := true;
          RaiseException(0);
          return;
        }
        registers[i.rd] := diff;
      case SYSCALL =>
        trap, why := true, SyscallException;
        RaiseException(0);
      case UNIMP =>
        trap, why := true, IllegalInstrException;
        RaiseException(0);
      case RES =>
        trap, why := true, IllegalInstrException;
        RaiseException(0);
    }

    method ExecuteHiLo(i: Instruction) returns (stop: bool, pcAfter: word)
      requires Valid() && i.Ok() && KindOf(i.op) == HiLoing
      modifies registers
      ensures match ThroughHiLo(old(registers[..]), i)
              case Finish(u, p) => !stop && registers[..] == u && pcAfter == p
              case Stop => stop
              case _ => false
    {
      hide Wrap, Signed, CDiv, CMod;
      stop := false;
      pcAfter := AddWord(registers[NEXT_PC], 4);
      var s, t := registers[i.rs], registers[i.rt];
      match i.op
      case DIV =>
        if t == 0 {
          registers[LO] := 0;
          registers[HI] := 0;
        } else if Signed(s) == -TWO31 && Signed(t) == -1 {
          stop := true;
        } else {
          assert Signed(t) != 0 by { SignedZero(t); }
          registers[LO] := Wrap(CDiv(Signed(s), Signed(t)));
          registers[HI] := Wrap(CMod(Signed(s), Signed(t)));
        }
      case DIVU =>
        if t == 0 {
          registers[LO] := 0;
          registers[HI] := 0;
        } else {
          registers[LO] := s / t;
          registers[HI] := s % t;
        }
      case MFHI => registers[i.rd] := registers[HI];
      case MFLO => registers[i.rd] := registers[LO];
      case MTHI => registers[HI] := s;
      case MTLO => registers[LO] := s;
      case MULT =>
        var hi, lo := Mult(Signed(s), Signed(t), true);
        SignedHalves(Signed(s) as int * Signed(t) as int, hi, lo);
        registers[HI] := hi;
        registers[LO] := lo;
      case MULTU =>
        var hi, lo := Mult(Signed(s), Signed(t), false);
        UnsignedHalves(s, t, hi, lo);
        registers[HI] := hi;
        registers[LO] := lo;
    }

    method ExecuteTransfer(i: Instruction) returns (pcAfter: word)
      requires Valid() && i.Ok() && KindOf(i.op) == Transferring
      modifies registers
      ensures Transferred(old(registers[..]), i) == Finish(registers[..], pcAfter)
    {
      hide Offset, Signed, Region;
      var next, branch := AddWord(registers[NEXT_PC], 4), Offset(registers[NEXT_PC], 4 * (i.extra as int));
      pcAfter := next;
      match i.op
      case BEQ => if registers[i.rs] == registers[i.rt] { pcAfter := branch; }
      case BNE => if registers[i.rs] != registers[i.rt] { pcAfter := branch; }
      case BGEZAL =>
        registers[R31] := next;
        SignBit(registers[i.rs]);
        if !Negative(registers[i.rs]) { pcAfter := branch; }
      case BGEZ =>
        SignBit(registers[i.rs]);
        if !Negative(registers[i.rs]) { pcAfter := branch; }
      case BGTZ => if Signed(registers[i.rs]) > 0 { pcAfter := branch; }
      case BLEZ => if Signed(registers[i.rs]) <= 0 { pcAfter := branch; }
      case BLTZAL =>
        registers[R31] := next;
        SignBit(registers[i.rs]);
        if Negative(registers[i.rs]) { pcAfter := branch; }
      case BLTZ =>
        SignBit(registers[i.rs]);
        if Negative(registers[i.rs]) { pcAfter := branch; }
      case JAL =>
        registers[R31] := next;
        pcAfter := Region(next, i.extra);
      case J => pcAfter := Region(next, i.extra);
      case JALR =>
        registers[i.rd] := next;
        pcAfter := registers[i.rs];
      case JR => pcAfter := registers[i.rs];
    }

    /** The common end of the load cases: read, then widen. */
    method Bring(rt: nat, addr: word, kind: LoadKind) returns (outcome: Outcome, nextValue: word)
      requires Valid() && rt < 32
      modifies registers, Table()
      ensures Bare(Map()) == old(Bare(Map()))
      ensures Underway(LoadStep(old(registers[..]), mainMemory[..], old(Map()), rt, addr, kind), outcome,
                       registers[..], mainMemory[..], rt, nextValue, NextOf(old(registers[..])))
    {
      hide Translated, Trapped, Bare, Fetched, Retired, HostValue;
      ghost var t := Translated(Map(), addr, kind.Size(), false);
      var ok, value, why := ReadMem(addr, kind.Size());
      if !ok {
        return Trap(why), 0;
      }
      HostLow(Fetched(mainMemory[..], t.at, kind.Size()), kind.Size(), value);
      outcome := Completed;
      match kind
      case SignedByte => nextValue := if value % 0x100 >= 0x80 then TWO32 - 0x100 + value % 0x100 else value % 0x100;
      case UnsignedByte => nextValue := value % 0x100;
      case SignedHalf => nextValue := if value % 0x1_0000 >= 0x8000
        then TWO32 - 0x1_0000 + value % 0x1_0000 else value % 0x1_0000;
      case UnsignedHalf => nextValue := value % 0x1_0000;
      case Word => nextValue := value;
      case WordRight =>
        var kept: int;
        if registers[LOAD] == rt {
          kept := registers[LOAD_VALUE];
        } else {
          kept := registers[rt];
        }
        nextValue := kept - kept % 0x100 + value / 0x100_0000;
    }

    method ExecuteLoad(i: Instruction) returns (outcome: Outcome, nextReg: word, nextValue: word)
      requires Valid() && i.Ok() && KindOf(i.op) == Loading
      modifies registers, Table()
      ensures Bare(Map()) == old(Bare(Map()))
      ensures var a := Accessed(old(registers[..]), i);
              && !a.Finish? && !a.Store?
              && Underway(Met(old(registers[..]), mainMemory[..], old(Map()), i.rt, a), outcome,
                          registers[..], mainMemory[..], nextReg, nextValue, NextOf(old(registers[..])))
    {
      hide Trapped, Bare, Offset, Retired, LoadStep;
      var tmp := Offset(registers[i.rs], i.extra);
      outcome, nextReg, nextValue := Completed, i.rt, 0;
      if ((i.op == LH || i.op == LHU) && tmp % 2 != 0) || (i.op == LW && tmp % 4 != 0) {
        RaiseException(tmp);
        outcome := Trap(AddressErrorException);
      } else if (i.op == LWL || i.op == LWR) && tmp % 4 != 0 {
        outcome := Stopped;
      } else {
        outcome, nextValue := Bring(i.rt, tmp, match i.op case LB => SignedByte case LBU => UnsignedByte
          case LH => SignedHalf case LHU => UnsignedHalf case LWR => WordRight case _ => Word);
      }
    }

    method Put(addr: word, size: int, value: word) returns (outcome: Outcome)
      requires Valid() && Sized(size)
      modifies registers, Table(), mainMemory
      ensures Bare(Map()) == old(Bare(Map()))
      ensures Underway(WriteStep(old(registers[..]), old(mainMemory[..]), old(Map()), addr, size, value), outcome,
                       registers[..], mainMemory[..], 0, 0, NextOf(old(registers[..])))
    {
      hide Translated, Trapped, Bare, Stored, Retired;
      var ok, why := WriteMem(addr, size, value);
      outcome := if ok then Completed else Trap(why);
    }

    method ExecuteStore(i: Instruction) returns (outcome: Outcome)
      requires Valid() && i.Ok() && KindOf(i.op) == Storing
      modifies registers, Table(), mainMemory
      ensures Bare(Map()) == old(Bare(Map()))
      ensures var a := Accessed(old(registers[..]), i);
              && !a.Finish? && (a.Store? ==> Sized(a.size))
              && Underway(Met(old(registers[..]), old(mainMemory[..]), old(Map()), i.rt, a), outcome,
                          registers[..], mainMemory[..], 0, 0, NextOf(old(registers[..])))
    {
      hide Translated, Trapped, Bare, Offset, Fetched, Retired, WriteStep;
      var tmp := Offset(registers[i.rs], i.extra);
      var t := registers[i.rt];
      if i.op == SB {
        outcome := Put(tmp, 1, t);
      } else if i.op == SH {
        outcome := Put(tmp, 2, t);
      } else if i.op == SW {
        outcome := Put(tmp, 4, t);
      } else if tmp % 4 != 0 {
        outcome := Stopped;
      } else {
        outcome := StoreOver(tmp, t, i.op == SWR);
      }
    }

    /** SWL and SWR on an aligned address: the word is read, changed and written back. */
    method StoreOver(addr: word, value: word, right: bool) returns (outcome: Outcome)
      requires Valid()
      modifies registers, Table(), mainMemory
      ensures Bare(Map()) == old(Bare(Map()))
      ensures Underway(StoreOverStep(old(registers[..]), old(mainMemory[..]), old(Map()), addr, value, right),
                       outcome, registers[..], mainMemory[..], 0, 0, NextOf(old(registers[..])))
    {
      hide Translated, Trapped, Bare, Fetched, Retired, WriteStep;
      ghost var m := Map();
      var ok, found, why := ReadMem(addr, 4);
      if !ok {
        return Trap(why);
      }
      HostLow(Fetched(mainMemory[..], Translated(m, addr, 4, false).at, 4), 4, found);
      var merged := if right then found % 0x100_0000 + value % 0x100 * 0x100_0000 else value;
      WriteIgnoresBits(registers[..], mainMemory[..], m, Map(), addr, 4, merged);
      outcome := Put(addr, 4, merged);
    }

    /** The switch. */
    method Execute(i: Instruction) returns (outcome: Outcome, nextReg: word, nextValue: word, pcAfter: word)
      requires Valid() && i.Ok()
      modifies registers, Table(), mainMemory
      ensures Bare(Map()) == old(Bare(Map()))
      ensures Underway(Performed(old(registers[..]), old(mainMemory[..]), old(Map()), i), outcome,
                       registers[..], mainMemory[..], nextReg, nextValue, pcAfter)
    {
      hide Computed, Checked, ThroughHiLo, Transferred, Accessed, Trapped, Retired, Bare, LoadStep, WriteStep,
           Translated, Fetched;
      if Wanted(registers[..], i).Finish? {
        FinishKeeps(registers[..], i);
      }
      outcome, pcAfter, nextReg, nextValue := Completed, AddWord(registers[NEXT_PC], 4), 0, 0;
      match KindOf(i.op)
      case Summing =>
        pcAfter := ExecuteSum(i);
      case Bitwise =>
        pcAfter := ExecuteBits(i);
      case Checking =>
        var trap, why;
        trap, why, pcAfter := ExecuteChecked(i);
        if trap {
          outcome := Trap(why);
        }
      case HiLoing =>
        var stop;
        stop, pcAfter := ExecuteHiLo(i);
        if stop {
          outcome := Stopped;
        }
      case Transferring =>
        pcAfter := ExecuteTransfer(i);
      case Loading =>
        outcome, nextReg, nextValue := ExecuteLoad(i);
      case Storing =>
        outcome := ExecuteStore(i);
    }

    /** One instruction: the registers and memory afterwards are the ones the step function gives, the translation table
        changes in nothing but its use and dirty bits,
          and a trap leaves the machine ready to run the instruction again. */
    method OneInstruction() returns (outcome: Outcome)
      requires Valid()
      modifies registers, Table(), mainMemory
      ensures var s := Stepped(old(registers[..]), old(mainMemory[..]), old(Map()));
              && outcome == s.outcome
              && (outcome != Stopped ==> Valid() && registers[..] == s.regs && mainMemory[..] == s.mem)
      ensures Bare(Map()) == old(Bare(Map()))
    {
      hide Translated, Trapped, Bare, Fetched, Performed, Decoded;
      ghost var r, mem, m := registers[..], mainMemory[..], Map();
      StepKeepsRegs(r, mem, m);
      var ok, raw, why := ReadMem(registers[PC], 4);
      if !ok {
        return Trap(why);
      }
      var instr := Decoded(raw);
      PerformedIgnoresBits(r, mem, m, Map(), instr);
      var nextReg, nextValue, pcAfter;
      outcome, nextReg, nextValue, pcAfter := Execute(instr);
      if outcome != Completed {
        return;
      }
      DelayedLoad(nextReg, nextValue);
      registers[PREV_PC] := registers[PC];
      registers[PC] := registers[NEXT_PC];
      registers[NEXT_PC] := pcAfter;
    }

    /** The loop of Run, for n turns.  `kernel` is what the handler of a trap makes of the registers. */
    method Run(kernel: (nat, Regs) -> Regs, n: nat) returns (outcome: Outcome)
      requires Valid() && KeepsRegs(kernel)
      modifies registers, Table(), mainMemory
      ensures var s := After(kernel, old(registers[..]), old(mainMemory[..]), old(Map()), n);
              && (outcome == Stopped <==> s.outcome == Stopped)
              && (outcome != Stopped ==> Valid() && registers[..] == s.regs && mainMemory[..] == s.mem)
    {
      hide Stepped, Bare;
      ghost var r, mem, m := registers[..], mainMemory[..], Map();
      outcome := Completed;
      for i := 0 to n
        invariant outcome != Stopped && Valid() && Table() == old(Table()) && Bare(Map()) == Bare(m)
        invariant After(kernel, r, mem, m, i) == Step(Completed, registers[..], mainMemory[..])
      {
        ghost var r1, mem1, m1 := registers[..], mainMemory[..], Map();
        outcome := OneInstruction();
        SteppedIgnoresBits(r1, mem1, m1, m);
        if outcome == Stopped {
          StaysStopped(kernel, r, mem, m, i + 1, n);
          return;
        }
        if outcome.Trap? {
          var after := kernel(i, registers[..]);
          forall k | 0 <= k < NUM_TOTAL_REGS {
            registers[k] := after[k];
          }
          assert registers[..] == after;
        }
        outcome := Completed;
      }
    }
  }
}
