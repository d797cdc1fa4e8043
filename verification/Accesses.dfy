/** Loads and stores, from the instruction word in memory to the registers and the bytes that the program sees: what
    a step of machine/mipssim.cc does, in terms of a MIPS I manual. */
module Accesses {
  import opened Words
  import opened Translation
  import opened Isa
  import opened Encoding
  import opened Machines
  import opened Manual

  // ---- the bytes of an access ----

  /** Byte k from va on, as the program sees it. */
  ghost function Byte(mem: seq<byte>, m: Mapping, va: word, k: nat): int
    requires |mem| == MEMORY_SIZE
  {
    if va + k < TWO32 && Readable(m, va + k) then VirtualByte(mem, m, va + k) else 0
  }

  /** The unsigned number that n bytes from va on spell, least significant first. */
  ghost function Spelled(mem: seq<byte>, m: Mapping, va: word, n: int): int
    requires |mem| == MEMORY_SIZE && Sized(n)
  {
    if n == 1 then Byte(mem, m, va, 0)
    else if n == 2 then Byte(mem, m, va, 0) + 0x100 * Byte(mem, m, va, 1)
    else Byte(mem, m, va, 0) + 0x100 * Byte(mem, m, va, 1) + 0x1_0000 * Byte(mem, m, va, 2)
         + 0x100_0000 * Byte(mem, m, va, 3)
  }

  lemma FetchedIsSpelled(mem: seq<byte>, m: Mapping, va: word, n: int)
    requires |mem| == MEMORY_SIZE && Sized(n) && Translated(m, va, n, false).Physical?
    ensures Translated(m, va, n, false).at + n <= |mem|
    ensures Fetched(mem, Translated(m, va, n, false).at, n) == Spelled(mem, m, va, n)
  {
    hide Translated;
    AccessInBounds(m, va, n, false);
    var at := Translated(m, va, n, false).at;
    ByteIs(mem, m, va, n, 0);
    if n >= 2 {
      ByteIs(mem, m, va, n, 1);
    }
    if n == 4 {
      ByteIs(mem, m, va, n, 2);
      ByteIs(mem, m, va, n, 3);
      WordOfIs(mem[at..at + 4]);
    }
    hide WordOf, Byte;
  }

  lemma ByteIs(mem: seq<byte>, m: Mapping, va: word, n: int, k: nat)
    requires |mem| == MEMORY_SIZE && Sized(n) && k < n && Translated(m, va, n, false).Physical?
    ensures Translated(m, va, n, false).at + n <= |mem|
    ensures Byte(mem, m, va, k) == mem[Translated(m, va, n, false).at + k]
  {
    hide Translated;
    AccessInBounds(m, va, n, false);
    AccessByte(m, va, n, false, k);
  }

  /** An aligned access can be made when its first byte can. */
  lemma AlignedReadable(m: Mapping, va: word, n: int)
    requires Sized(n) && va % n == 0 && Readable(m, va)
    ensures Translated(m, va, n, false).Physical?
  {
    hide TlbSlot, Find;
  }

  // ---- the instruction that is run ----

  /** The word at PC can be fetched, and is v. */
  ghost predicate Fetches(r: Regs, mem: seq<byte>, m: Mapping, v: word)
    requires |mem| == MEMORY_SIZE
  {
    r[34] % 4 == 0 && Readable(m, r[34]) && Spelled(mem, m, r[34], 4) == v
  }

  lemma StepsOn(r: Regs, mem: seq<byte>, m: Mapping, v: word)
    requires |mem| == MEMORY_SIZE && RegsOk(r) && Fetches(r, mem, m, v)
    ensures Stepped(r, mem, m) == Performed(r, mem, m, Decoded(v))
  {
    hide Translated, Decoded, Performed, Fetched, Spelled, Readable;
    AlignedReadable(m, r[34], 4);
    FetchedIsSpelled(mem, m, r[34], 4);
  }

  /** Base register and displacement. */
  function AddressOf(r: Regs, rs: nat, h: nat): word
    requires rs < 32
  {
    (r[rs] as int + Short(h)) % 0x1_0000_0000
  }

  /** Control goes on: the counters advance, a load that was pending has landed, and apart from that the general
      registers, hi and lo are as before. */
  ghost predicate Advances(r: Regs, u: Regs) {
    && u[34] == r[35] && Is(u[35], r[35] as int + 4) && u[36] == r[34] && u[32] == r[32] && u[33] == r[33] && u[0] == 0
    && forall k :: 1 <= k < 32 ==> u[k] == if k == r[37] then r[38] else r[k]
  }

  lemma RetiredAdvances(r: Regs, reg: nat, value: word)
    requires RegsOk(r) && reg < 32
    ensures var u := Retired(r, reg, value, NextOf(r)); Advances(r, u) && u[37] == reg && u[38] == value
  {
    LinkIs(r);
    hide NextOf, Is;
  }

  // ---- computing ----

  /** What an instruction computes is in the registers after its step, but for a register that a pending load lands in;
      memory is as it was, and control goes where the instruction says, behind the delay slot. */
  lemma ComputingSteps(r: Regs, mem: seq<byte>, m: Mapping, v: word)
    requires |mem| == MEMORY_SIZE && RegsOk(r) && Fetches(r, mem, m, v) && Wanted(r, Decoded(v)).Finish?
    ensures var s, a := Stepped(r, mem, m), Wanted(r, Decoded(v));
            && s.outcome.Completed? && s.mem == mem
            && s.regs[34] == r[35] && s.regs[35] == a.pcAfter && s.regs[36] == r[34]
            && s.regs[32] == a.regs[32] && s.regs[33] == a.regs[33] && s.regs[37] == 0 && s.regs[0] == 0
            && forall k :: 1 <= k < 32 ==> s.regs[k] == if k == r[37] then r[38] else a.regs[k]
  {
    hide Wanted, Decoded, Fetches;
    StepsOn(r, mem, m, v);
    FinishKeeps(r, Decoded(v));
  }

  lemma RaisingSteps(r: Regs, mem: seq<byte>, m: Mapping, v: word)
    requires |mem| == MEMORY_SIZE && RegsOk(r) && Fetches(r, mem, m, v) && Wanted(r, Decoded(v)).Raise?
    ensures var a := Wanted(r, Decoded(v)); TrapsAt(r, mem, Stepped(r, mem, m), a.why, a.bad)
  {
    hide Wanted, Decoded, Fetches;
    StepsOn(r, mem, m, v);
  }

  // ---- loads ----

  /** The load has been recorded and will land one instruction later (Isa.LoadDelaySlot). */
  ghost predicate Brings(r: Regs, mem: seq<byte>, s: Step, rt: nat, v: int) {
    s.outcome.Completed? && s.mem == mem && Advances(r, s.regs) && s.regs[37] == rt && Is(s.regs[38], v)
  }

  /** The step traps at the address. */
  ghost predicate TrapsAt(r: Regs, mem: seq<byte>, s: Step, why: Exception, va: word) {
    s.outcome == Trap(why) && s.mem == mem && s.regs[39] == va
  }

  lemma TrappedAt(r: Regs, mem: seq<byte>, why: Exception, va: word)
    requires RegsOk(r)
    ensures TrapsAt(r, mem, Step(Trap(why), Trapped(r, va), mem), why, va)
  {
  }

  /** The values that the widening loads deliver. */
  function Widened(op: Op, v: int): int {
    match op
    case LB => if v < 0x80 then v else v - 0x100
    case LH => if v < 0x8000 then v else v - 0x1_0000
    case _ => v
  }

  function Width(op: Op): (n: int)
    ensures Sized(n)
  {
    match op
    case LB => 1 case LBU => 1 case SB => 1
    case LH => 2 case LHU => 2 case SH => 2
    case _ => 4
  }

  predicate WidensBytes(op: Op) {
    op.LB? || op.LBU? || op.LH? || op.LHU? || op.LW?
  }

  function KindFor(op: Op): LoadKind {
    match op
    case LB => SignedByte case LBU => UnsignedByte case LH => SignedHalf case LHU => UnsignedHalf case _ => Word
  }

  lemma WidenedIs(op: Op, f: word, was: word)
    requires WidensBytes(op) && f < (if Width(op) == 1 then 0x100 else if Width(op) == 2 then 0x1_0000 else TWO32)
    ensures KindFor(op).Size() == Width(op) && Is(LoadedValue(KindFor(op), f, was), Widened(op, f))
  {
  }

  lemma LoadWanted(r: Regs, i: Instruction, h: nat)
    requires i.Ok() && WidensBytes(i.op) && h < 0x1_0000 && i.extra == Short(h)
    ensures var va := AddressOf(r, i.rs, h);
            Wanted(r, i) == if va % Width(i.op) != 0 then Raise(AddressErrorException, va) else Load(va, KindFor(i.op))
  {
  }

  /** An aligned access to a page that cannot be read faults as an access to its first byte would. */
  lemma SameFault(m: Mapping, va: word, n: int)
    requires Sized(n) && va % n == 0
    ensures Translated(m, va, n, false) == Translated(m, va, 1, false)
  {
    hide TlbSlot, Find;
  }

  lemma LoadBrings(r: Regs, mem: seq<byte>, m: Mapping, rt: nat, va: word, op: Op)
    requires |mem| == MEMORY_SIZE && RegsOk(r) && rt < 32 && WidensBytes(op) && va % Width(op) == 0
    ensures var s, n := LoadStep(r, mem, m, rt, va, KindFor(op)), Width(op);
            if Readable(m, va) then Brings(r, mem, s, rt, Widened(op, Spelled(mem, m, va, n)))
            else TrapsAt(r, mem, s, Translated(m, va, 1, false).why, va)
  {
    hide Translated, Retired, Trapped, Fetched, Spelled, LoadedValue, Advances, Widened, Is, NextOf;
    var n := Width(op);
    SameFault(m, va, n);
    if Readable(m, va) {
      var at := Translated(m, va, n, false).at;
      FetchedIsSpelled(mem, m, va, n);
      var f := Fetched(mem, at, n);
      WidenedIs(op, f, Pending(r, rt));
      RetiredAdvances(r, rt, LoadedValue(KindFor(op), f, Pending(r, rt)));
    } else {
      WidenedIs(op, 0, 0);
      TrappedAt(r, mem, Translated(m, va, 1, false).why, va);
    }
  }

  /** The encodings of the loads and stores. */
  function AccessWord(op: Op, rs: nat, rt: nat, h: nat): word
    requires FormOf(op).Immediate? && rs < 32 && rt < 32 && h < 0x1_0000
  {
    DecodeImmediateWord(op, rs, rt, h);
    ImmediateWord(FormOf(op).opcode, rs, rt, h)
  }

  /** LB, LBU, LH, LHU and LW: an unaligned address is an error; otherwise 1, 2 or 4 bytes of virtual memory arrive,
      signed or not, or the access faults. */
  lemma LoadsDeliver(r: Regs, mem: seq<byte>, m: Mapping, op: Op, rs: nat, rt: nat, h: nat)
    requires |mem| == MEMORY_SIZE && RegsOk(r) && rs < 32 && rt < 32 && h < 0x1_0000
    requires FormOf(op).Immediate? && WidensBytes(op) && Fetches(r, mem, m, AccessWord(op, rs, rt, h))
    ensures var s, va, n := Stepped(r, mem, m), AddressOf(r, rs, h), Width(op);
            if va % n != 0 then TrapsAt(r, mem, s, AddressErrorException, va)
            else if Readable(m, va) then Brings(r, mem, s, rt, Widened(op, Spelled(mem, m, va, n)))
            else TrapsAt(r, mem, s, Translated(m, va, 1, false).why, va)
  {
    hide Decoded, FormOf, Fetches, Wanted, LoadStep, Trapped, Readable, TrapsAt, Brings, Translated, ImmediateWord,
      Spelled, Widened, RegsOk, WidensBytes, Width, AddressOf;
    var v := AccessWord(op, rs, rt, h);
    DecodeImmediateWord(op, rs, rt, h);
    StepsOn(r, mem, m, v);
    var i, va := Decoded(v), AddressOf(r, rs, h);
    LoadWanted(r, i, h);
    if va % Width(op) == 0 {
      LoadBrings(r, mem, m, rt, va, op);
    } else {
      TrappedAt(r, mem, AddressErrorException, va);
    }
  }

  // ---- stores ----

  /** Byte k of a word, counted from the least significant. */
  function ByteOf(w: word, k: int): int {
    if k == 0 then w % 0x100 else if k == 1 then w / 0x100 % 0x100 else if k == 2 then w / 0x1_0000 % 0x100
    else w / 0x100_0000
  }

  lemma LowBytesAre(w: word, n: int, k: nat)
    requires Sized(n) && k < n
    ensures LowBytes(w, n)[k] == ByteOf(w, k)
  {
    assert w / 0x1_0000 == w / 0x100 / 0x100;
    assert w / 0x100_0000 == w / 0x100 / 0x100 / 0x100;
  }

  /** The step stores, and of what the program sees in memory exactly the n bytes from va on change: they become the low
      bytes of w. */
  ghost predicate Puts(r: Regs, mem: seq<byte>, m: Mapping, s: Step, va: word, n: int, w: word)
    requires |mem| == MEMORY_SIZE
  {
    && s.outcome.Completed? && Advances(r, s.regs) && s.regs[37] == 0 && |s.mem| == MEMORY_SIZE
    && forall wa: word :: Readable(m, wa) ==>
         Byte(s.mem, m, wa, 0) == if va <= wa < va + n then ByteOf(w, wa - va) else Byte(mem, m, wa, 0)
  }

  lemma StoreWanted(r: Regs, i: Instruction, h: nat)
    requires i.Ok() && (i.op.SB? || i.op.SH? || i.op.SW?) && h < 0x1_0000 && i.extra == Short(h)
    ensures Wanted(r, i) == Store(AddressOf(r, i.rs, h), Width(i.op), r[i.rt])
  {
  }

  lemma WritePuts(r: Regs, mem: seq<byte>, m: Mapping, va: word, n: int, w: word)
    requires |mem| == MEMORY_SIZE && RegsOk(r) && Sized(n) && DistinctFrames(m)
    ensures var s, t := WriteStep(r, mem, m, va, n, w), Translated(m, va, n, true);
            if t.Physical? then Puts(r, mem, m, s, va, n, w) else TrapsAt(r, mem, s, t.why, va)
  {
    hide Translated, Retired, Trapped, Stored, Advances, Is, NextOf, DistinctFrames, Readable, ByteOf, LowBytes;
    var t := Translated(m, va, n, true);
    if t.Physical? {
      AccessInBounds(m, va, n, true);
      RetiredAdvances(r, 0, 0);
      var after := Stored(mem, t.at, n, w);
      forall wa: word | Readable(m, wa)
        ensures Byte(after, m, wa, 0) == if va <= wa < va + n then ByteOf(w, wa - va) else Byte(mem, m, wa, 0)
      {
        WriteIsFlat(mem, m, va, n, w, wa);
        if va <= wa < va + n {
          LowBytesAre(w, n, wa - va);
        }
        hide VirtualByte;
      }
    } else {
      TrappedAt(r, mem, t.why, va);
    }
  }

  /** SB, SH and SW: an unaligned address is an error; otherwise exactly 1, 2 or 4 bytes change, or the access
      faults. */
  lemma StoresDeliver(r: Regs, mem: seq<byte>, m: Mapping, op: Op, rs: nat, rt: nat, h: nat)
    requires |mem| == MEMORY_SIZE && RegsOk(r) && DistinctFrames(m) && rs < 32 && rt < 32 && h < 0x1_0000
    requires FormOf(op).Immediate? && (op.SB? || op.SH? || op.SW?) && Fetches(r, mem, m, AccessWord(op, rs, rt, h))
    ensures var s, va, n := Stepped(r, mem, m), AddressOf(r, rs, h), Width(op);
            var t := Translated(m, va, n, true);
            && (va % n != 0 ==> t == Fault(AddressErrorException))
            && if t.Physical? then Puts(r, mem, m, s, va, n, r[rt]) else TrapsAt(r, mem, s, t.why, va)
  {
    hide Decoded, FormOf, Fetches, Wanted, WriteStep, Readable, TrapsAt, Puts, ImmediateWord, RegsOk, AddressOf, Find,
      DistinctFrames;
    DecodeImmediateWord(op, rs, rt, h);
    StepsOn(r, mem, m, AccessWord(op, rs, rt, h));
    StoreWanted(r, Decoded(AccessWord(op, rs, rt, h)), h);
    WritePuts(r, mem, m, AddressOf(r, rs, h), Width(op), r[rt]);
  }

  // ---- the unaligned forms, which work on aligned addresses only ----

  lemma UnalignedWanted(r: Regs, i: Instruction, h: nat)
    requires i.Ok() && h < 0x1_0000 && i.extra == Short(h)
    ensures var va := AddressOf(r, i.rs, h);
            && (i.op.LWL? ==> Wanted(r, i) == if va % 4 != 0 then Stop else Load(va, Word))
            && (i.op.LWR? ==> Wanted(r, i) == if va % 4 != 0 then Stop else Load(va, WordRight))
            && (i.op.SWL? ==> Wanted(r, i) == if va % 4 != 0 then Stop else StoreLeft(va, r[i.rt]))
            && (i.op.SWR? ==> Wanted(r, i) == if va % 4 != 0 then Stop else StoreRight(va, r[i.rt]))
  {
  }

  /** LWL brings in the whole word, and LWR the top byte of it to the bottom of the register's value. */
  lemma UnalignedLoads(r: Regs, mem: seq<byte>, m: Mapping, op: Op, rs: nat, rt: nat, h: nat)
    requires |mem| == MEMORY_SIZE && RegsOk(r) && rs < 32 && rt < 32 && h < 0x1_0000
    requires FormOf(op).Immediate? && (op.LWL? || op.LWR?) && Fetches(r, mem, m, AccessWord(op, rs, rt, h))
    ensures var s, va := Stepped(r, mem, m), AddressOf(r, rs, h);
            if va % 4 != 0 then s.outcome.Stopped?
            else if Readable(m, va) then
              var was := if r[37] == rt then r[38] else r[rt];
              Brings(r, mem, s, rt, if op.LWL? then Spelled(mem, m, va, 4)
                                    else was - was % 0x100 + Byte(mem, m, va, 3))
            else TrapsAt(r, mem, s, Translated(m, va, 1, false).why, va)
  {
    hide Decoded, FormOf, Fetches, Wanted, LoadStep, Readable, TrapsAt, Brings, ImmediateWord, RegsOk, AddressOf,
      Spelled, Byte, Translated;
    DecodeImmediateWord(op, rs, rt, h);
    StepsOn(r, mem, m, AccessWord(op, rs, rt, h));
    UnalignedWanted(r, Decoded(AccessWord(op, rs, rt, h)), h);
    var va := AddressOf(r, rs, h);
    if va % 4 == 0 {
      if op.LWL? {
        LoadBrings(r, mem, m, rt, va, LW);
      } else {
        RightBrings(r, mem, m, rt, va);
      }
    }
  }

  lemma RightBrings(r: Regs, mem: seq<byte>, m: Mapping, rt: nat, va: word)
    requires |mem| == MEMORY_SIZE && RegsOk(r) && rt < 32 && va % 4 == 0
    ensures var s, was := LoadStep(r, mem, m, rt, va, WordRight), if r[37] == rt then r[38] else r[rt];
            if Readable(m, va) then Brings(r, mem, s, rt, was - was % 0x100 + Byte(mem, m, va, 3))
            else TrapsAt(r, mem, s, Translated(m, va, 1, false).why, va)
  {
    hide Translated, Retired, Trapped, Fetched, Advances, NextOf, Byte;
    SameFault(m, va, 4);
    if Readable(m, va) {
      var at := Translated(m, va, 4, false).at;
      FetchedIsSpelled(mem, m, va, 4);
      var f, was := Fetched(mem, at, 4), if r[37] == rt then r[38] else r[rt];
      ByteIs(mem, m, va, 4, 0);
      ByteIs(mem, m, va, 4, 1);
      ByteIs(mem, m, va, 4, 2);
      ByteIs(mem, m, va, 4, 3);
      assert f / 0x100_0000 == Byte(mem, m, va, 3);
      RetiredAdvances(r, rt, LoadedValue(WordRight, f, was));
    } else {
      TrappedAt(r, mem, Translated(m, va, 1, false).why, va);
    }
  }

  /** SWL stores the whole word, and SWR the low byte of the register at the top of it. */
  lemma UnalignedStores(r: Regs, mem: seq<byte>, m: Mapping, op: Op, rs: nat, rt: nat, h: nat)
    requires |mem| == MEMORY_SIZE && RegsOk(r) && DistinctFrames(m) && rs < 32 && rt < 32 && h < 0x1_0000
    requires FormOf(op).Immediate? && (op.SWL? || op.SWR?) && Fetches(r, mem, m, AccessWord(op, rs, rt, h))
    ensures var s, va := Stepped(r, mem, m), AddressOf(r, rs, h);
            if va % 4 != 0 then s.outcome.Stopped?
            else if Translated(m, va, 4, true).Physical? then
              if op.SWL? then Puts(r, mem, m, s, va, 4, r[rt]) else PutsTop(r, mem, m, s, va, r[rt])
            else s.outcome.Trap? && s.mem == mem
  {
    hide Decoded, FormOf, Fetches, Wanted, StoreOverStep, Readable, Puts, PutsTop, ImmediateWord, RegsOk, AddressOf,
      Translated, DistinctFrames;
    DecodeImmediateWord(op, rs, rt, h);
    StepsOn(r, mem, m, AccessWord(op, rs, rt, h));
    UnalignedWanted(r, Decoded(AccessWord(op, rs, rt, h)), h);
    var va := AddressOf(r, rs, h);
    if va % 4 == 0 {
      StoreOverPuts(r, mem, m, va, r[rt], op.SWR?);
    }
  }

  ghost predicate PutsTop(r: Regs, mem: seq<byte>, m: Mapping, s: Step, va: word, w: word)
    requires |mem| == MEMORY_SIZE
  {
    && s.outcome.Completed? && Advances(r, s.regs) && s.regs[37] == 0 && |s.mem| == MEMORY_SIZE
    && forall wa: word :: Readable(m, wa) ==>
         Byte(s.mem, m, wa, 0) == if wa == va + 3 then w % 0x100 else Byte(mem, m, wa, 0)
  }

  lemma StoreOverPuts(r: Regs, mem: seq<byte>, m: Mapping, va: word, w: word, right: bool)
    requires |mem| == MEMORY_SIZE && RegsOk(r) && DistinctFrames(m) && va % 4 == 0
    ensures var s, t := StoreOverStep(r, mem, m, va, w, right), Translated(m, va, 4, true);
            if t.Physical? then if right then PutsTop(r, mem, m, s, va, w) else Puts(r, mem, m, s, va, 4, w)
            else s.outcome.Trap? && s.mem == mem
  {
    hide Translated, WriteStep, Fetched, DistinctFrames, Puts, PutsTop, MergedRight, Trapped;
    match Translated(m, va, 4, false)
    case Fault(_) =>
      if Translated(m, va, 4, true).Physical? {
        WritableIsReadable(m, va, 4);
      }
    case Physical(_, at) =>
      AccessInBounds(m, va, 4, false);
      var f := Fetched(mem, at, 4);
      var merged := if right then MergedRight(f, w) else w;
      WritePuts(r, mem, m, va, 4, merged);
      if right && Translated(m, va, 4, true).Physical? {
        TopOnly(r, mem, m, WriteStep(r, mem, m, va, 4, merged), va, f, w);
      }
  }

  lemma TopOnly(r: Regs, mem: seq<byte>, m: Mapping, s: Step, va: word, f: word, w: word)
    requires |mem| == MEMORY_SIZE && Translated(m, va, 4, false).Physical?
    requires Translated(m, va, 4, false).at + 4 <= |mem| && f == Fetched(mem, Translated(m, va, 4, false).at, 4)
    requires Puts(r, mem, m, s, va, 4, MergedRight(f, w))
    ensures PutsTop(r, mem, m, s, va, w)
  {
    hide Translated, Fetched, Advances, Readable, MergedRight, ByteOf, Byte;
    MergedBytes(f, w);
    forall wa: word | Readable(m, wa) && va <= wa < va + 4
      ensures Byte(mem, m, wa, 0) == ByteOf(f, wa - va)
    {
      OldByte(mem, m, va, f, wa);
    }
  }

  lemma OldByte(mem: seq<byte>, m: Mapping, va: word, f: word, wa: word)
    requires |mem| == MEMORY_SIZE && Translated(m, va, 4, false).Physical? && va <= wa < va + 4
    requires Translated(m, va, 4, false).at + 4 <= |mem| && f == Fetched(mem, Translated(m, va, 4, false).at, 4)
    ensures Byte(mem, m, wa, 0) == ByteOf(f, wa - va)
  {
    hide Translated, Readable;
    var at := Translated(m, va, 4, false).at;
    ByteIs(mem, m, va, 4, wa - va);
    BytesFetched(mem, at, 4);
    LowBytesAre(f, 4, wa - va);
    assert mem[at..at + 4][wa - va] == mem[at + (wa - va)];
    hide Fetched, LowBytes, ByteOf;
  }

  lemma MergedBytes(f: word, w: word)
    ensures var x := MergedRight(f, w);
            && ByteOf(x, 0) == ByteOf(f, 0) && ByteOf(x, 1) == ByteOf(f, 1) && ByteOf(x, 2) == ByteOf(f, 2)
            && ByteOf(x, 3) == w % 0x100
  {
    var low, top := f % 0x100_0000, w % 0x100;
    var x: int := low + top * 0x100_0000;
    assert x / 0x100_0000 == top && x % 0x100_0000 == low;
    LowThree(x, low);
    LowThree(f, low);
  }

  lemma LowThree(x: nat, low: nat)
    requires low == x % 0x100_0000
    ensures x % 0x100 == low % 0x100 && x / 0x100 % 0x100 == low / 0x100 % 0x100
            && x / 0x1_0000 % 0x100 == low / 0x1_0000 % 0x100
  {
    var q := x / 0x100_0000;
    CutOff(0x1_0000 * q, low, 0x100);
    CutOff(0x100 * q, low, 0x1_0000);
    CutOff(q, low, 0x100_0000);
    SameLow(0x1_0000 * q, low);
    SameLow(0x100 * q, low / 0x100);
    SameLow(q, low / 0x1_0000);
  }

  lemma CutOff(q: nat, low: nat, p: nat)
    requires p == 0x100 || p == 0x1_0000 || p == 0x100_0000
    ensures (p * q + low) / p == q + low / p
  {
  }

  lemma SameLow(q: nat, low: nat)
    ensures (0x100 * q + low) % 0x100 == low % 0x100
  {
  }
}
