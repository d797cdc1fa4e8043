/** machine/mipssim.h and the MIPS I meaning of each instruction that machine/mipssim.cc executes, as a function from
    the register file to what the instruction wants done.  Numbers are read as integers; bits are the business of
    module Bits. */
module Isa {
  import opened Words
  import opened BitMaps
  import opened Bits
  import opened Translation

  // ---- registers ----

  const NUM_TOTAL_REGS := 40
  const R31 := 31
  const HI := 32
  const LO := 33
  const PC := 34
  const NEXT_PC := 35
  const PREV_PC := 36
  const LOAD := 37
  const LOAD_VALUE := 38
  const BAD_VADDR := 39

  type Regs = s: seq<word> | |s| == 40 witness seq(40, _ => 0)

  /** What every step leaves true: register 0 reads as zero and the pending load names a general register. */
  predicate RegsOk(r: Regs) {
    r[0] == 0 && r[LOAD] < 32
  }

  /** A pending delayed load takes effect and another takes its place. */
  function Committed(r: Regs, nextReg: word, nextValue: word): Regs
    requires r[LOAD] < 32
  {
    r[r[LOAD] := r[LOAD_VALUE]][LOAD := nextReg][LOAD_VALUE := nextValue][0 := 0]
  }

  /** The register file the kernel's exception handler sees. */
  function Trapped(r: Regs, badVAddr: word): Regs
    requires r[LOAD] < 32
  {
    Committed(r[BAD_VADDR := badVAddr], 0, 0)
  }

  /** The end of an instruction that ran: delayed load, then the program counters advance. */
  function Retired(r: Regs, nextReg: word, nextValue: word, pcAfter: word): Regs
    requires r[LOAD] < 32
  {
    var c := Committed(r, nextReg, nextValue);
    c[PREV_PC := c[PC]][PC := c[NEXT_PC]][NEXT_PC := pcAfter]
  }

  // ---- instructions ----

  datatype Op = ADD | ADDI | ADDIU | ADDU | AND | ANDI | BEQ | BGEZ | BGEZAL | BGTZ | BLEZ | BLTZ | BLTZAL | BNE
    | DIV | DIVU | J | JAL | JALR | JR | LB | LBU | LH | LHU | LUI | LW | LWL | LWR | MFHI | MFLO | MTHI | MTLO
    | MULT | MULTU | NOR | OR | ORI | SB | SH | SLL | SLLV | SLT | SLTI | SLTIU | SLTU | SRA | SRAV | SRL | SRLV
    | SUB | SUBU | SW | SWL | SWR | XOR | XORI | SYSCALL | UNIMP | RES

  datatype Instruction = Instruction(op: Op, rs: nat, rt: nat, rd: nat, extra: int32) {
    predicate Ok() {
      rs < 32 && rt < 32 && rd < 32 && (op in {SLL, SRA, SRL} ==> 0 <= extra < 32)
      && (op in {J, JAL} ==> 0 <= extra < 0x400_0000)
    }
  }

  datatype Format = IFmt | JFmt

  /** The primary opcode table; SPECIAL and BCOND are looked up further. */
  datatype Primary = Plain(op: Op, format: Format) | Special | Bcond

  function OpTable(code: nat): Primary {
    match code
    case 0 => Special case 1 => Bcond case 2 => Plain(J, JFmt) case 3 => Plain(JAL, JFmt)
    case 4 => Plain(BEQ, IFmt) case 5 => Plain(BNE, IFmt) case 6 => Plain(BLEZ, IFmt) case 7 => Plain(BGTZ, IFmt)
    case 8 => Plain(ADDI, IFmt) case 9 => Plain(ADDIU, IFmt) case 10 => Plain(SLTI, IFmt) case 11 => Plain(SLTIU, IFmt)
    case 12 => Plain(ANDI, IFmt) case 13 => Plain(ORI, IFmt) case 14 => Plain(XORI, IFmt) case 15 => Plain(LUI, IFmt)
    case 16 => Plain(UNIMP, IFmt) case 17 => Plain(UNIMP, IFmt)
    case 18 => Plain(UNIMP, IFmt) case 19 => Plain(UNIMP, IFmt)
    case 32 => Plain(LB, IFmt) case 33 => Plain(LH, IFmt) case 34 => Plain(LWL, IFmt) case 35 => Plain(LW, IFmt)
    case 36 => Plain(LBU, IFmt) case 37 => Plain(LHU, IFmt) case 38 => Plain(LWR, IFmt)
    case 40 => Plain(SB, IFmt) case 41 => Plain(SH, IFmt) case 42 => Plain(SWL, IFmt) case 43 => Plain(SW, IFmt)
    case 46 => Plain(SWR, IFmt)
    case 48 => Plain(UNIMP, IFmt) case 49 => Plain(UNIMP, IFmt)
    case 50 => Plain(UNIMP, IFmt) case 51 => Plain(UNIMP, IFmt)
    case 56 => Plain(UNIMP, IFmt) case 57 => Plain(UNIMP, IFmt)
    case 58 => Plain(UNIMP, IFmt) case 59 => Plain(UNIMP, IFmt)
    case _ => Plain(RES, IFmt)
  }

  function SpecialTable(funct: nat): Op {
    match funct
    case 0 => SLL case 2 => SRL case 3 => SRA case 4 => SLLV case 6 => SRLV case 7 => SRAV
    case 8 => JR case 9 => JALR case 12 => SYSCALL case 13 => UNIMP
    case 16 => MFHI case 17 => MTHI case 18 => MFLO case 19 => MTLO
    case 24 => MULT case 25 => MULTU case 26 => DIV case 27 => DIVU
    case 32 => ADD case 33 => ADDU case 34 => SUB case 35 => SUBU
    case 36 => AND case 37 => OR case 38 => XOR case 39 => NOR
    case 42 => SLT case 43 => SLTU
    case _ => RES
  }

  /** The rt field selects among the branch-on-condition instructions. */
  function BcondOp(rt: nat): Op {
    match rt
    case 0 => BLTZ case 1 => BGEZ case 16 => BLTZAL case 17 => BGEZAL
    case _ => UNIMP
  }

  /** A 16-bit immediate, sign-extended. */
  function SignExtend16(h: nat): int32
    requires h < 0x1_0000
  {
    if h < 0x8000 then h else h - 0x1_0000
  }

  function Decoded(value: word): (i: Instruction)
    ensures i.Ok()
  {
    var rs, rt, rd := value / 0x20_0000 % 32, value / 0x1_0000 % 32, value / 0x800 % 32;
    match OpTable(value / 0x400_0000)
    case Special => Instruction(SpecialTable(value % 64), rs, rt, rd, value / 64 % 32)
    case Bcond => Instruction(BcondOp(rt), rs, rt, rd, SignExtend16(value % 0x1_0000))
    case Plain(op, IFmt) => Instruction(op, rs, rt, rd, SignExtend16(value % 0x1_0000))
    case Plain(op, JFmt) => Instruction(op, rs, rt, rd, value % 0x400_0000)
  }

  // ---- what an instruction asks for ----

  /** Which bytes a load brings in and how they become a register value. */
  datatype LoadKind = SignedByte | UnsignedByte | SignedHalf | UnsignedHalf | Word | WordRight {
    function Size(): int {
      if SignedByte? || UnsignedByte? then 1 else if SignedHalf? || UnsignedHalf? then 2 else 4
    }
  }

  datatype Action =
    | Finish(regs: Regs, pcAfter: word)
    | Load(addr: word, kind: LoadKind)
    | Store(addr: word, size: int, value: word)
    | StoreLeft(addr: word, value: word)
    | StoreRight(addr: word, value: word)
    | Raise(why: Exception, bad: word)
    | Stop

  predicate FitsInt32(v: int) {
    -TWO31 <= v < TWO31
  }

  function Flag(b: bool): word {
    if b then 1 else 0
  }

  /** The address after the delay slot, and a branch target relative to the delay slot. */
  function NextOf(r: Regs): word {
    AddWord(r[NEXT_PC], 4)
  }

  function BranchOf(r: Regs, x: int32): word {
    Offset(r[NEXT_PC], 4 * (x as int))
  }

  function Offset(base: word, d: int): word {
    Wrap(base as int + d)
  }

  /** A jump stays in the 256 MB region of the instruction after its delay slot. */
  function Region(next: word, target: nat): word
    requires target < 0x400_0000
  {
    next - next % 0x1000_0000 + 4 * target
  }

  function Plus(a: int, b: int): int { a + b }
  function Minus(a: int, b: int): int { a - b }

  /** Instructions that put one result in one general register and cannot trap. */
  function Computed(r: Regs, i: Instruction): Action
    requires i.Ok()
  {
    var s, t, x, next := r[i.rs], r[i.rt], i.extra, NextOf(r);
    var imm: nat := Unsigned(x) % 0x1_0000;
    match i.op
    case ADDIU => Finish(r[i.rt := Offset(s, x)], next)
    case ADDU => Finish(r[i.rd := AddWord(s, t)], next)
    case AND => Finish(r[i.rd := And(s, t)], next)
    case ANDI => Finish(r[i.rt := And(s, imm)], next)
    case LUI => Finish(r[i.rt := Offset(0, x as int * 0x1_0000)], next)
    case NOR => Finish(r[i.rd := Not(Or(s, t))], next)
    case OR => Finish(r[i.rd := Or(s, s)], next)
    case ORI => Finish(r[i.rt := Or(s, imm)], next)
    case SLL => Finish(r[i.rd := ShiftLeft(t, x)], next)
    case SLLV => Finish(r[i.rd := ShiftLeft(t, s % 32)], next)
    case SLT => Finish(r[i.rd := Flag(Signed(s) < Signed(t))], next)
    case SLTI => Finish(r[i.rt := Flag(Signed(s) < x)], next)
    case SLTIU => Finish(r[i.rt := Flag(s < Unsigned(x))], next)
    case SLTU => Finish(r[i.rd := Flag(s < t)], next)
    case SRA => Finish(r[i.rd := ShiftRightSigned(t, x)], next)
    case SRAV => Finish(r[i.rd := ShiftRightSigned(t, s % 32)], next)
    case SRL => Finish(r[i.rd := ShiftRightSigned(t, x)], next)
    case SRLV => Finish(r[i.rd := ShiftRightSigned(t, s % 32)], next)
    case SUBU => Finish(r[i.rd := Offset(s, -(t as int))], next)
    case XOR => Finish(r[i.rd := Xor(s, t)], next)
    case XORI => Finish(r[i.rt := Xor(s, imm)], next)
    case _ => Stop
  }

  /** Instructions that can, or must, trap without touching memory. */
  function Checked(r: Regs, i: Instruction): Action
    requires i.Ok()
  {
    var s, t, x, next := r[i.rs], r[i.rt], i.extra, NextOf(r);
    match i.op
    case ADD => if FitsInt32(Plus(Signed(s), Signed(t)))
      then Finish(r[i.rd := Wrap(Plus(Signed(s), Signed(t)))], next) else Raise(OverflowException, 0)
    case ADDI => if FitsInt32(Plus(Signed(s), x))
      then Finish(r[i.rt := Wrap(Plus(Signed(s), x))], next) else Raise(OverflowException, 0)
    case SUB => if FitsInt32(Minus(Signed(s), Signed(t)))
      then Finish(r[i.rd := Wrap(Minus(Signed(s), Signed(t)))], next) else Raise(OverflowException, 0)
    case SYSCALL => Raise(SyscallException, 0)
    case UNIMP => Raise(IllegalInstrException, 0)
    case RES => Raise(IllegalInstrException, 0)
    case _ => Stop
  }

  /** Multiplication, division and the hi/lo pair.  The one quotient that does not fit an int stops the host program. */
  function ThroughHiLo(r: Regs, i: Instruction): Action
    requires i.Ok()
  {
    var s, t, next := r[i.rs], r[i.rt], NextOf(r);
    match i.op
    case DIV =>
      if t == 0 then Finish(r[LO := 0][HI := 0], next)
      else if Signed(s) == -TWO31 && Signed(t) == -1 then Stop
      else Finish(r[LO := Wrap(CDiv(Signed(s), Signed(t)))][HI := Wrap(CMod(Signed(s), Signed(t)))], next)
    case DIVU => if t == 0 then Finish(r[LO := 0][HI := 0], next) else Finish(r[LO := s / t][HI := s % t], next)
    case MFHI => Finish(r[i.rd := r[HI]], next)
    case MFLO => Finish(r[i.rd := r[LO]], next)
    case MTHI => Finish(r[HI := s], next)
    case MTLO => Finish(r[LO := s], next)
    case MULT =>
      var p: int := Signed(s) as int * Signed(t) as int;
      Finish(r[HI := Wrap(p / TWO32)][LO := Wrap(p)], next)
    case MULTU =>
      var p: int := s as int * t as int;
      Finish(r[HI := Wrap(p / TWO32)][LO := Wrap(p)], next)
    case _ => Stop
  }

  /** Branches and jumps.  The link register is written before the condition or target register is read. */
  function Transferred(r: Regs, i: Instruction): Action
    requires i.Ok()
  {
    var s, t, x, next, branch := r[i.rs], r[i.rt], i.extra, NextOf(r), BranchOf(r, i.extra);
    match i.op
    case BEQ => Finish(r, if s == t then branch else next)
    case BNE => Finish(r, if s != t then branch else next)
    case BGEZ => Finish(r, if Signed(s) >= 0 then branch else next)
    case BGEZAL => var l: Regs := r[R31 := next]; Finish(l, if Signed(l[i.rs]) >= 0 then branch else next)
    case BGTZ => Finish(r, if Signed(s) > 0 then branch else next)
    case BLEZ => Finish(r, if Signed(s) <= 0 then branch else next)
    case BLTZ => Finish(r, if Signed(s) < 0 then branch else next)
    case BLTZAL => var l: Regs := r[R31 := next]; Finish(l, if Signed(l[i.rs]) < 0 then branch else next)
    case J => Finish(r, Region(next, x))
    case JAL => Finish(r[R31 := next], Region(next, x))
    case JALR => var l: Regs := r[i.rd := next]; Finish(l, l[i.rs])
    case JR => Finish(r, s)
    case _ => Stop
  }

  /** Loads and stores.  The four unaligned forms stop the simulator unless the address is aligned after all. */
  function Accessed(r: Regs, i: Instruction): Action
    requires i.Ok()
  {
    var t, at := r[i.rt], Offset(r[i.rs], i.extra);
    match i.op
    case LB => Load(at, SignedByte)
    case LBU => Load(at, UnsignedByte)
    case LH => if at % 2 != 0 then Raise(AddressErrorException, at) else Load(at, SignedHalf)
    case LHU => if at % 2 != 0 then Raise(AddressErrorException, at) else Load(at, UnsignedHalf)
    case LW => if at % 4 != 0 then Raise(AddressErrorException, at) else Load(at, Word)
    case LWL => if at % 4 != 0 then Stop else Load(at, Word)
    case LWR => if at % 4 != 0 then Stop else Load(at, WordRight)
    case SB => Store(at, 1, t)
    case SH => Store(at, 2, t)
    case SW => Store(at, 4, t)
    case SWL => if at % 4 != 0 then Stop else StoreLeft(at, t)
    case SWR => if at % 4 != 0 then Stop else StoreRight(at, t)
    case _ => Stop
  }

  /** The cases of the switch, grouped by what they touch. */
  datatype OpKind = Summing | Bitwise | Checking | HiLoing | Transferring | Loading | Storing

  function KindOf(op: Op): OpKind {
    match op
    case ADDIU | ADDU | LUI | SLT | SLTI | SLTIU | SLTU | SUBU => Summing
    case AND | ANDI | NOR | OR | ORI | SLL | SLLV | SRA | SRAV | SRL | SRLV | XOR | XORI => Bitwise
    case ADD | ADDI | SUB | SYSCALL | UNIMP | RES => Checking
    case DIV | DIVU | MFHI | MFLO | MTHI | MTLO | MULT | MULTU => HiLoing
    case BEQ | BNE | BGEZ | BGEZAL | BGTZ | BLEZ | BLTZ | BLTZAL | J | JAL | JALR | JR => Transferring
    case LB | LBU | LH | LHU | LW | LWL | LWR => Loading
    case SB | SH | SW | SWL | SWR => Storing
  }

  function Wanted(r: Regs, i: Instruction): (a: Action)
    requires i.Ok()
    ensures a.Store? ==> Sized(a.size)
  {
    match KindOf(i.op)
    case Summing => Computed(r, i)
    case Bitwise => Computed(r, i)
    case Checking => Checked(r, i)
    case HiLoing => ThroughHiLo(r, i)
    case Transferring => Transferred(r, i)
    case Loading => Accessed(r, i)
    case Storing => Accessed(r, i)
  }

  // ---- laws of the step ----

  /** A trap is restartable: the counters still point at the trapping instruction and every general register holds what
      it held, the pending load having landed; a second trap at the same place changes no general register at all. */
  lemma TrapIsRestartable(r: Regs, bad: word)
    requires RegsOk(r)
    ensures var u := Trapped(r, bad);
            && RegsOk(u) && u[PC] == r[PC] && u[NEXT_PC] == r[NEXT_PC] && u[HI] == r[HI] && u[LO] == r[LO]
               && u[BAD_VADDR] == bad
            && (forall k :: 1 <= k < 32 ==> u[k] == if k == r[LOAD] then r[LOAD_VALUE] else r[k])
            && (forall k :: 0 <= k < 32 ==> Trapped(u, bad)[k] == u[k])
  {
  }

  /** The registers a completed instruction may write besides the counters and the pending load. */
  function Destination(i: Instruction): set<nat> {
    match i.op
    case ADD | ADDU | AND | JALR | MFHI | MFLO | NOR | OR | SLL | SLLV | SLT | SLTU | SRA | SRAV | SRL | SRLV | SUB
       | SUBU | XOR => {i.rd}
    case ADDI | ADDIU | ANDI | LUI | ORI | SLTI | SLTIU | XORI => {i.rt}
    case BGEZAL | BLTZAL | JAL => {R31}
    case DIV | DIVU | MULT | MULTU => {HI, LO}
    case MTHI => {HI}
    case MTLO => {LO}
    case _ => {}
  }

  /** Nothing else is written. */
  lemma OnlyDestination(r: Regs, i: Instruction, k: nat)
    requires i.Ok() && k < 40 && k !in Destination(i) && Wanted(r, i).Finish?
    ensures Wanted(r, i).regs[k] == r[k]
  {
    hide Signed, Unsigned, Flag, FitsInt32, Plus, Minus, Offset, And, Or, Xor, Not, ShiftLeft, ShiftRightSigned,
         Region, Wrap, CDiv, CMod;
  }

  lemma FinishKeeps(r: Regs, i: Instruction)
    requires i.Ok() && Wanted(r, i).Finish?
    ensures var u := Wanted(r, i).regs;
            u[PC] == r[PC] && u[NEXT_PC] == r[NEXT_PC] && u[LOAD] == r[LOAD] && u[LOAD_VALUE] == r[LOAD_VALUE]
  {
    OnlyDestination(r, i, PC);
    OnlyDestination(r, i, NEXT_PC);
    OnlyDestination(r, i, LOAD);
    OnlyDestination(r, i, LOAD_VALUE);
  }

  /** The same registers, but for the recorded bad address -- which is for the kernel to read; no instruction looks
      at it. */
  ghost predicate Alike(r1: Regs, r2: Regs) {
    forall k :: 0 <= k < 40 && k != BAD_VADDR ==> r1[k] == r2[k]
  }

  lemma EndsAlike(r1: Regs, r2: Regs)
    requires Alike(r1, r2) && r1[LOAD] < 32
    ensures forall bad :: Alike(Trapped(r1, bad), Trapped(r2, bad))
    ensures forall reg, value, p :: Alike(Retired(r1, reg, value, p), Retired(r2, reg, value, p))
  {
  }

  ghost predicate SameRequest(a1: Action, a2: Action) {
    if a1.Finish? && a2.Finish? then Alike(a1.regs, a2.regs) && a1.pcAfter == a2.pcAfter else a1 == a2
  }

  lemma ComputedAlike(r1: Regs, r2: Regs, i: Instruction)
    requires i.Ok() && Alike(r1, r2)
    ensures SameRequest(Computed(r1, i), Computed(r2, i))
  {
    hide Signed, Unsigned, Offset, And, Or, Xor, Not, ShiftLeft, ShiftRightSigned, Region, Wrap, CDiv, CMod;
  }

  lemma CheckedAlike(r1: Regs, r2: Regs, i: Instruction)
    requires i.Ok() && Alike(r1, r2)
    ensures SameRequest(Checked(r1, i), Checked(r2, i))
  {
    hide Signed, Unsigned, Offset, And, Or, Xor, Not, ShiftLeft, ShiftRightSigned, Region, Wrap, CDiv, CMod;
  }

  lemma HiLoAlike(r1: Regs, r2: Regs, i: Instruction)
    requires i.Ok() && Alike(r1, r2)
    ensures SameRequest(ThroughHiLo(r1, i), ThroughHiLo(r2, i))
  {
    hide Signed, Unsigned, Offset, And, Or, Xor, Not, ShiftLeft, ShiftRightSigned, Region, Wrap, CDiv, CMod;
  }

  predicate Links(op: Op) {
    op.BGEZAL? || op.BLTZAL? || op.JAL? || op.JALR?
  }

  lemma LinkedAlike(r1: Regs, r2: Regs, i: Instruction)
    requires i.Ok() && Alike(r1, r2) && Links(i.op)
    ensures SameRequest(Transferred(r1, i), Transferred(r2, i))
  {
    var n := NextOf(r1);
    assert n == NextOf(r2) && BranchOf(r1, i.extra) == BranchOf(r2, i.extra);
    assert Alike(r1[R31 := n], r2[R31 := n]) && r1[R31 := n][i.rs] == r2[R31 := n][i.rs];
    assert Alike(r1[i.rd := n], r2[i.rd := n]) && r1[i.rd := n][i.rs] == r2[i.rd := n][i.rs];
    hide Signed, Unsigned, Offset, Region, Wrap, NextOf, BranchOf, Alike;
  }

  lemma TransferredAlike(r1: Regs, r2: Regs, i: Instruction)
    requires i.Ok() && Alike(r1, r2)
    ensures SameRequest(Transferred(r1, i), Transferred(r2, i))
  {
    if Links(i.op) {
      LinkedAlike(r1, r2, i);
    } else {
      assert NextOf(r1) == NextOf(r2) && BranchOf(r1, i.extra) == BranchOf(r2, i.extra);
      assert r1[i.rs] == r2[i.rs] && r1[i.rt] == r2[i.rt];
      hide Signed, Unsigned, Offset, Region, Wrap, NextOf, BranchOf, Alike;
    }
  }

  lemma AccessedAlike(r1: Regs, r2: Regs, i: Instruction)
    requires i.Ok() && Alike(r1, r2)
    ensures SameRequest(Accessed(r1, i), Accessed(r2, i))
  {
    hide Signed, Unsigned, Offset, And, Or, Xor, Not, ShiftLeft, ShiftRightSigned, Region, Wrap, CDiv, CMod;
  }

  lemma BadAddressInert(r1: Regs, r2: Regs, i: Instruction)
    requires i.Ok() && Alike(r1, r2)
    ensures SameRequest(Wanted(r1, i), Wanted(r2, i))
  {
    hide Computed, Checked, ThroughHiLo, Transferred, Accessed, SameRequest, Alike;
    ComputedAlike(r1, r2, i);
    CheckedAlike(r1, r2, i);
    HiLoAlike(r1, r2, i);
    TransferredAlike(r1, r2, i);
    AccessedAlike(r1, r2, i);
  }

  /** Load delay: the instruction after a load still sees the old value of the target (unless an older load was due
      there), and the one after that sees the loaded value even if the first one wrote the same register. */
  lemma LoadDelaySlot(r: Regs, target: nat, value: word, pc1: word, i: Instruction, pc2: word)
    requires RegsOk(r) && 1 <= target < 32 && i.Ok()
    ensures var r1 := Retired(r, target, value, pc1);
            && r1[target] == (if r[LOAD] == target then r[LOAD_VALUE] else r[target])
            && (Wanted(r1, i).Finish? ==> Retired(Wanted(r1, i).regs, 0, 0, pc2)[target] == value)
  {
    var r1 := Retired(r, target, value, pc1);
    if Wanted(r1, i).Finish? {
      FinishKeeps(r1, i);
    }
  }

  /** Branch delay: whatever an instruction decides, the next one to run is the one already fetched; the decision takes
      effect one instruction later. */
  lemma BranchDelaySlot(r: Regs, i: Instruction, nextReg: word, nextValue: word)
    requires RegsOk(r) && i.Ok() && Wanted(r, i).Finish?
    ensures var a := Wanted(r, i); var u := Retired(a.regs, nextReg, nextValue, a.pcAfter);
            u[PC] == r[NEXT_PC] && u[NEXT_PC] == a.pcAfter && u[PREV_PC] == r[PC]
  {
    FinishKeeps(r, i);
  }

  // ---- what the bitwise instructions deliver ----

  /** The bit that an instruction on corresponding bits of rs and of rt, or of the immediate, is to deliver. */
  predicate BitWanted(op: Op, s: bool, t: bool) {
    match op
    case AND | ANDI => s && t
    case ORI => s || t
    case XOR | XORI => s != t
    case NOR => !(s || t)
    case _ => false
  }

  /** Each bit of the result is made of the corresponding bits of the operands; an immediate is zero-extended. */
  lemma BitwiseResult(r: Regs, i: Instruction, k: nat)
    requires i.Ok() && i.op in {AND, ANDI, NOR, ORI, XOR, XORI} && k < 32
    ensures var a, byRegister := Wanted(r, i), i.op in {AND, NOR, XOR};
            var t: nat := if byRegister then r[i.rt] else Unsigned(i.extra) % 0x1_0000;
            var d := if byRegister then i.rd else i.rt;
            && a.Finish? && a.pcAfter == NextOf(r) && a.regs == r[d := a.regs[d]]
            && (BitOf(a.regs[d], k) <==> BitWanted(i.op, BitOf(r[i.rs], k), BitOf(t, k)))
  {
    hide And, Or, Xor, Not, BitOf, Unsigned, BitWanted, NextOf, Checked, ThroughHiLo, Transferred, Accessed;
    var byRegister := i.op in {AND, NOR, XOR};
    var s, t: word := r[i.rs], if byRegister then r[i.rt] else Unsigned(i.extra) % 0x1_0000;
    CombinedBits(i.op, s, t, k);
    assert Wanted(r, i) == Finish(r[if byRegister then i.rd else i.rt := Combined(i.op, s, t)], NextOf(r));
  }

  function Combined(op: Op, s: word, t: word): word {
    match op
    case AND | ANDI => And(s, t)
    case ORI => Or(s, t)
    case XOR | XORI => Xor(s, t)
    case NOR => Not(Or(s, t))
    case _ => 0
  }

  lemma CombinedBits(op: Op, s: word, t: word, k: nat)
    requires op in {AND, ANDI, NOR, ORI, XOR, XORI} && k < 32
    ensures BitOf(Combined(op, s, t), k) <==> BitWanted(op, BitOf(s, k), BitOf(t, k))
  {
    hide And, Or, Xor, Not, BitOf;
    AndBits(s, t, k);
    OrBits(s, t, k);
    XorBits(s, t, k);
    NotBits(Or(s, t), k);
  }

  /** How far a shift instruction shifts. */
  function ShiftAmount(r: Regs, i: Instruction): (n: nat)
    requires i.Ok() && i.op in {SLL, SRA, SRL, SLLV, SRAV, SRLV}
    ensures n < 32
  {
    if i.op in {SLL, SRA, SRL} then i.extra else r[i.rs] % 32
  }

  /** Each bit of a shifted word comes from where the shift says; SRL and SRLV do as SRA and SRAV. */
  lemma ShiftResult(r: Regs, i: Instruction, k: nat)
    requires i.Ok() && i.op in {SLL, SRA, SRL, SLLV, SRAV, SRLV} && k < 32
    ensures var a, t, n := Wanted(r, i), r[i.rt], ShiftAmount(r, i);
            && a.Finish? && a.pcAfter == NextOf(r) && a.regs == r[i.rd := a.regs[i.rd]]
            && (BitOf(a.regs[i.rd], k)
                <==> if i.op in {SLL, SLLV} then n <= k && BitOf(t, k - n)
                     else BitOf(t, if k + n < 32 then k + n else 31))
  {
    hide ShiftLeft, ShiftRightSigned, BitOf, NextOf, Checked, ThroughHiLo, Transferred, Accessed;
    ShiftLeftBits(r[i.rt], ShiftAmount(r, i), k);
    ShiftRightSignedBits(r[i.rt], ShiftAmount(r, i), k);
  }

  // ---- where the simulator is not a MIPS ----

  lemma {:induction false} AndSelf(x: nat)
    ensures And(x, x) == x
  {
    if x != 0 {
      AndSelf(x / 2);
    }
  }

  /** OR reads rs twice, and delivers rs.  That is the union of the operands exactly when rt has no bit that rs
      lacks. */
  lemma OrOnlyCopies(r: Regs, i: Instruction)
    requires i.Ok() && i.op == OR
    ensures var s, t := r[i.rs], r[i.rt];
            && Wanted(r, i) == Finish(r[i.rd := s], NextOf(r))
            && (s == Or(s, t) <==> AddsNoBit(s, t))
  {
    var s, t := r[i.rs], r[i.rt];
    AndSelf(s);
    UnionIsFirst(s, t);
    hide And;
  }

  /** t has no bit that s lacks. */
  ghost predicate AddsNoBit(s: word, t: word) {
    forall k :: 0 <= k < 32 && BitOf(t, k) ==> BitOf(s, k)
  }

  lemma UnionIsFirst(s: word, t: word)
    ensures s == Or(s, t) <==> AddsNoBit(s, t)
  {
    hide Or, Pow2;
    WordWidth();
    var u := Or(s, t);
    forall k | 0 <= k < 32
      ensures BitOf(u, k) <==> BitOf(s, k) || BitOf(t, k)
    {
      OrBits(s, t, k);
    }
    if AddsNoBit(s, t) {
      SameBits(s, u, 32);
    }
    if s == u {
      forall k | 0 <= k < 32 && BitOf(t, k)
        ensures BitOf(s, k)
      {
        OrBits(s, t, k);
      }
      assert AddsNoBit(s, t);
    }
  }

  /** OR $3, $1, $2 with 1 in $1 and 2 in $2 leaves 1 in $3. */
  lemma OrMissesABit(r: Regs)
    requires r[1] == 1 && r[2] == 2
    ensures Wanted(r, Instruction(OR, 1, 2, 3, 0)) == Finish(r[3 := 1], NextOf(r)) && Or(1, 2) == 3
  {
    OrOnlyCopies(r, Instruction(OR, 1, 2, 3, 0));
    assert And(1, 2) == 0;
  }

  /** SRL and SRLV shift an int, so copies of the sign come in from the left.  The result is the logical shift
      exactly for words below 2^31, or when nothing is shifted. */
  lemma ShiftIsArithmetic(r: Regs, i: Instruction)
    requires i.Ok() && i.op in {SRL, SRLV}
    ensures var t, n := r[i.rt], ShiftAmount(r, i);
            Wanted(r, i) == Finish(r[i.rd := ShiftRightLogical(t, n)], NextOf(r)) <==> t < TWO31 || n == 0
  {
    hide ShiftRightSigned, ShiftRightLogical, NextOf, Checked, ThroughHiLo, Transferred, Accessed;
    var t, n := r[i.rt], ShiftAmount(r, i);
    SignedShiftIsLogical(t, n);
    assert Wanted(r, i) == Finish(r[i.rd := ShiftRightSigned(t, n)], NextOf(r));
    assert r[i.rd := ShiftRightLogical(t, n)][i.rd] == ShiftRightLogical(t, n);
    assert r[i.rd := ShiftRightSigned(t, n)][i.rd] == ShiftRightSigned(t, n);
  }

  /** SRL $2, $1, 1 with 0x80000000 in $1 leaves 0xc0000000 in $2. */
  lemma SrlBringsInTheSign(r: Regs)
    requires r[1] == 0x8000_0000
    ensures Wanted(r, Instruction(SRL, 0, 1, 2, 1)) == Finish(r[2 := 0xc000_0000], NextOf(r))
    ensures ShiftRightLogical(r[1], 1) == 0x4000_0000
  {
    assert Pow2(1) == 2;
    WrapSmall(-0x4000_0000);
    assert ShiftRightSigned(r[1], 1) == 0xc000_0000;
  }

  lemma SignedShiftIsLogical(t: word, n: nat)
    requires n < 32
    ensures ShiftRightSigned(t, n) == ShiftRightLogical(t, n) <==> t < TWO31 || n == 0
  {
    if n == 0 {
      assert Pow2(0) == 1;
      WrapSmall(Signed(t));
    } else {
      Pow2Step(n);
      var p := Pow2(n);
      Quotients(t, p, Pow2(n - 1), t / p, Signed(t) / p);
      hide Pow2, Wrap;
      WrapSmall(Signed(t) / p);
    }
  }

  lemma WrapSmall(v: int)
    requires -TWO32 <= v < TWO32
    ensures Wrap(v) == if v < 0 then v + TWO32 else v
  {
  }

  lemma Quotients(t: word, p: nat, h: nat, q: int, m: int)
    requires p == 2 * h && h >= 1 && q == t / p && m == Signed(t) / p
    ensures 0 <= q <= t && (t < TWO31 ==> m == q) && (t >= TWO31 ==> q < TWO31 && -TWO31 <= m < 0)
  {
    QuotientBelow(t, p, TWO31);
    QuotientBelow(Signed(t), p, 0);
    QuotientBelow(Signed(t), p, -TWO31);
    QuotientBelow(t, p, 0);
    MulMonotone(t + 1, 1, p);
    QuotientBelow(t, p, t + 1);
  }

  // ---- decoding ----

  /** An immediate-format word is taken apart into the fields it was built from. */
  lemma DecodeImmediate(code: nat, rs: nat, rt: nat, h: nat)
    requires code < 64 && rs < 32 && rt < 32 && h < 0x1_0000 && OpTable(code).Plain? && OpTable(code).format == IFmt
    ensures var v := ((code * 32 + rs) * 32 + rt) * 0x1_0000 + h;
            && v < TWO32
            && Decoded(v) == Instruction(OpTable(code).op, rs, rt, h / 0x800, SignExtend16(h))
  {
    hide Decoded, OpTable, SignExtend16;
    var top := code * 32 + rs;
    var v := (top * 32 + rt) * 0x1_0000 + h;
    Cut16(top * 32 + rt, h);
    Cut5(top, rt);
    Cut5(code, rs);
    Nested(v);
    Below16(top * 32 + rt, h);
    DecodedImmediate(v, code, rs, rt, h);
  }

  /** Decode, given the values of the fields it cuts out. */
  lemma DecodedImmediate(v: word, code: nat, rs: nat, rt: nat, h: nat)
    requires code < 64 && rs < 32 && rt < 32 && h < 0x1_0000 && OpTable(code).Plain? && OpTable(code).format == IFmt
    requires v / 0x400_0000 == code && v / 0x20_0000 % 32 == rs && v / 0x1_0000 % 32 == rt
    requires v / 0x800 % 32 == h / 0x800 && v % 0x1_0000 == h
    ensures Decoded(v) == Instruction(OpTable(code).op, rs, rt, h / 0x800, SignExtend16(h))
  {
    hide OpTable, SignExtend16;
  }

  lemma Cut16(x: nat, y: nat)
    requires y < 0x1_0000
    ensures (x * 0x1_0000 + y) / 0x1_0000 == x && (x * 0x1_0000 + y) % 0x1_0000 == y
  {
  }

  lemma Cut5(x: nat, y: nat)
    requires y < 32
    ensures (x * 32 + y) / 32 == x && (x * 32 + y) % 32 == y
  {
  }

  lemma Nested(v: nat)
    ensures v / 0x20_0000 == v / 0x1_0000 / 32 && v / 0x400_0000 == v / 0x20_0000 / 32
  {
  }

  lemma Below16(x: nat, y: nat)
    requires y < 0x1_0000
    ensures (x * 0x1_0000 + y) / 0x800 == x * 32 + y / 0x800 && (x * 32 + y / 0x800) % 32 == y / 0x800
  {
    assert y / 0x800 < 32;
  }
}
