/** The encodings of the instruction set, as a MIPS I manual gives them, and that the decoder of machine/mipssim.cc
    keeps to them. */
module Encoding {
  import opened Words
  import opened Isa

  /** What tells an operation from others: the function field of a word with primary opcode 0, the rt field of one with
      primary opcode 1, or the primary opcode. */
  datatype Form = Register(funct: nat) | Condition(code: nat) | Immediate(opcode: nat) | Jump(opcode: nat) | None

  function FormOf(op: Op): Form {
    if Funct(op) < 64 then Register(Funct(op))
    else if Code(op) < 32 then Condition(Code(op))
    else if op.J? then Jump(2)
    else if op.JAL? then Jump(3)
    else if Opcode(op) < 64 then Immediate(Opcode(op))
    else None
  }

  function Funct(op: Op): nat {
    match op
    case SLL => 0 case SRL => 2 case SRA => 3 case SLLV => 4 case SRLV => 6 case SRAV => 7
    case JR => 8 case JALR => 9 case SYSCALL => 12
    case MFHI => 16 case MTHI => 17 case MFLO => 18 case MTLO => 19
    case MULT => 24 case MULTU => 25 case DIV => 26 case DIVU => 27
    case ADD => 32 case ADDU => 33 case SUB => 34 case SUBU => 35
    case AND => 36 case OR => 37 case XOR => 38 case NOR => 39
    case SLT => 42 case SLTU => 43
    case _ => 64
  }

  function Code(op: Op): nat {
    match op
    case BLTZ => 0 case BGEZ => 1 case BLTZAL => 16 case BGEZAL => 17
    case _ => 32
  }

  function Opcode(op: Op): nat {
    match op
    case BEQ => 4 case BNE => 5 case BLEZ => 6 case BGTZ => 7
    case ADDI => 8 case ADDIU => 9 case SLTI => 10 case SLTIU => 11
    case ANDI => 12 case ORI => 13 case XORI => 14 case LUI => 15
    case LB => 32 case LH => 33 case LWL => 34 case LW => 35
    case LBU => 36 case LHU => 37 case LWR => 38
    case SB => 40 case SH => 41 case SWL => 42 case SW => 43 case SWR => 46
    case _ => 64
  }

  /** Six bits of zeros, three registers and a shift amount of five bits each, and the function. */
  function RegisterWord(rs: nat, rt: nat, rd: nat, sh: nat, funct: nat): nat {
    (((rs * 32 + rt) * 32 + rd) * 32 + sh) * 64 + funct
  }

  /** Opcode, two registers, and sixteen bits. */
  function ImmediateWord(opcode: nat, rs: nat, rt: nat, h: nat): nat {
    ((opcode * 32 + rs) * 32 + rt) * 0x1_0000 + h
  }

  function JumpWord(opcode: nat, target: nat): nat {
    opcode * 0x400_0000 + target
  }

  /** Sixteen bits in two's complement. */
  function Short(h: nat): int {
    if h < 0x8000 then h else h - 0x1_0000
  }

  lemma DecodeRegister(op: Op, rs: nat, rt: nat, rd: nat, sh: nat)
    requires FormOf(op).Register? && rs < 32 && rt < 32 && rd < 32 && sh < 32
    ensures var v := RegisterWord(rs, rt, rd, sh, FormOf(op).funct);
            v < TWO32 && Decoded(v) == Instruction(op, rs, rt, rd, sh)
  {
    hide Decoded, SpecialTable, FormOf;
    var f := FormOf(op).funct;
    FunctionTable(op);
    RegisterFields(rs, rt, rd, sh, f);
    DecodedRegister(RegisterWord(rs, rt, rd, sh, f), rs, rt, rd, sh, f);
  }

  lemma FunctionTable(op: Op)
    requires FormOf(op).Register?
    ensures FormOf(op).funct < 64 && SpecialTable(FormOf(op).funct) == op
  {
    hide Opcode, Code, Funct, SpecialTable;
    if Funct(op) < 24 {
      LowFunctions(op);
    } else {
      HighFunctions(op);
    }
  }

  lemma LowFunctions(op: Op)
    requires Funct(op) < 24
    ensures SpecialTable(Funct(op)) == op
  {
  }

  lemma HighFunctions(op: Op)
    requires 24 <= Funct(op) < 64
    ensures SpecialTable(Funct(op)) == op
  {
  }

  lemma RegisterFields(rs: nat, rt: nat, rd: nat, sh: nat, f: nat)
    requires rs < 32 && rt < 32 && rd < 32 && sh < 32 && f < 64
    ensures var v := RegisterWord(rs, rt, rd, sh, f);
            && v / 0x400_0000 == 0 && v / 0x20_0000 % 32 == rs && v / 0x1_0000 % 32 == rt && v / 0x800 % 32 == rd
            && v / 64 % 32 == sh && v % 64 == f
  {
    var b := rs * 32 + rt;
    var c := b * 32 + rd;
    var d := c * 32 + sh;
    var v := d * 64 + f;
    Cut5(rs, rt);
    Cut5(b, rd);
    Cut5(c, sh);
    assert v / 64 == d && v % 64 == f;
    assert v / 0x800 == d / 32 == c;
    assert v / 0x1_0000 == c / 32 == b;
    assert v / 0x20_0000 == b / 32 == rs;
  }

  lemma DecodedRegister(v: word, rs: nat, rt: nat, rd: nat, sh: nat, f: nat)
    requires v / 0x400_0000 == 0 && v / 0x20_0000 % 32 == rs && v / 0x1_0000 % 32 == rt && v / 0x800 % 32 == rd
    requires v / 64 % 32 == sh && v % 64 == f
    ensures Decoded(v) == Instruction(SpecialTable(f), rs, rt, rd, sh)
  {
    hide SpecialTable;
  }

  lemma ImmediateFields(opcode: nat, rs: nat, rt: nat, h: nat)
    requires opcode < 64 && rs < 32 && rt < 32 && h < 0x1_0000
    ensures var v := ImmediateWord(opcode, rs, rt, h);
            && v < TWO32 && v / 0x400_0000 == opcode && v / 0x20_0000 % 32 == rs && v / 0x1_0000 % 32 == rt
            && v % 0x1_0000 == h
  {
    var b := opcode * 32 + rs;
    Cut16(b * 32 + rt, h);
    Cut5(b, rt);
    Cut5(opcode, rs);
    Nested(ImmediateWord(opcode, rs, rt, h));
  }

  lemma DecodeImmediateWord(op: Op, rs: nat, rt: nat, h: nat)
    requires FormOf(op).Immediate? && rs < 32 && rt < 32 && h < 0x1_0000
    ensures var v := ImmediateWord(FormOf(op).opcode, rs, rt, h);
            && v < TWO32
            && var i := Decoded(v); i.op == op && i.rs == rs && i.rt == rt && i.extra == Short(h)
  {
    hide Decoded, OpTable, FormOf;
    OpcodeTable(op);
    ImmediateFields(FormOf(op).opcode, rs, rt, h);
    DecodedByOpcode(ImmediateWord(FormOf(op).opcode, rs, rt, h), op);
  }

  lemma OpcodeTable(op: Op)
    requires FormOf(op).Immediate?
    ensures FormOf(op).opcode < 64 && OpTable(FormOf(op).opcode) == Plain(op, IFmt)
  {
    hide Funct, Code, Opcode, OpTable;
    if Opcode(op) < 16 {
      LowOpcodes(op);
    } else {
      HighOpcodes(op);
    }
  }

  lemma LowOpcodes(op: Op)
    requires Opcode(op) < 16
    ensures OpTable(Opcode(op)) == Plain(op, IFmt)
  {
  }

  lemma HighOpcodes(op: Op)
    requires 16 <= Opcode(op) < 64
    ensures OpTable(Opcode(op)) == Plain(op, IFmt)
  {
  }

  lemma DecodedByOpcode(v: word, op: Op)
    requires OpTable(v / 0x400_0000) == Plain(op, IFmt)
    ensures var i := Decoded(v);
            && i.op == op && i.rs == v / 0x20_0000 % 32 && i.rt == v / 0x1_0000 % 32 && i.extra == Short(v % 0x1_0000)
  {
    hide OpTable;
  }

  lemma DecodeCondition(op: Op, rs: nat, h: nat)
    requires FormOf(op).Condition? && rs < 32 && h < 0x1_0000
    ensures var v := ImmediateWord(1, rs, FormOf(op).code, h);
            && v < TWO32
            && var i := Decoded(v); i.op == op && i.rs == rs && i.extra == Short(h)
  {
    hide ImmediateWord, Decoded, FormOf, BcondOp;
    ConditionTable(op);
    ImmediateFields(1, rs, FormOf(op).code, h);
    DecodedByCondition(ImmediateWord(1, rs, FormOf(op).code, h));
  }

  lemma ConditionTable(op: Op)
    requires FormOf(op).Condition?
    ensures FormOf(op).code < 32 && BcondOp(FormOf(op).code) == op
  {
    hide Funct, Opcode;
  }

  lemma DecodedByCondition(v: word)
    requires v / 0x400_0000 == 1
    ensures var i := Decoded(v);
            i.op == BcondOp(v / 0x1_0000 % 32) && i.rs == v / 0x20_0000 % 32 && i.extra == Short(v % 0x1_0000)
  {
    hide BcondOp;
  }

  lemma DecodeJump(op: Op, target: nat)
    requires FormOf(op).Jump? && target < 0x400_0000
    ensures var v := JumpWord(FormOf(op).opcode, target);
            v < TWO32 && Decoded(v).op == op && Decoded(v).extra == target
  {
    var v := JumpWord(FormOf(op).opcode, target);
    assert v / 0x400_0000 == FormOf(op).opcode && v % 0x400_0000 == target;
    hide JumpWord;
  }

  /** No other word is taken for one of these operations. */
  lemma OnlyEncodingsDecode(v: word)
    ensures var i := Decoded(v);
            match FormOf(i.op)
            case Register(f) => v == RegisterWord(i.rs, i.rt, i.rd, v / 64 % 32, f)
            case Condition(c) => i.rt == c && v == ImmediateWord(1, i.rs, c, v % 0x1_0000)
            case Immediate(code) => v == ImmediateWord(code, i.rs, i.rt, v % 0x1_0000)
            case Jump(code) => v == JumpWord(code, v % 0x400_0000)
            case None => i.op.UNIMP? || i.op.RES?
  {
    hide RegisterWord, ImmediateWord, JumpWord, FormOf, OpTable, SpecialTable, BcondOp;
    ReassembledImmediate(v);
    ReassembledRegister(v);
    SpecialForms(v % 64);
    BcondForms(v / 0x1_0000 % 32);
    OpcodeForms(v / 0x400_0000);
  }

  lemma SpecialForms(f: nat)
    requires f < 64
    ensures var op := SpecialTable(f);
            if op.UNIMP? || op.RES? then FormOf(op).None? else FormOf(op).Register? && FormOf(op).funct == f
  {
    hide Funct, Code, Opcode, SpecialTable;
    if f < 24 {
      LowSpecials(f);
    } else {
      HighSpecials(f);
    }
    NoForm();
  }

  lemma NoForm()
    ensures FormOf(UNIMP).None? && FormOf(RES).None?
  {
  }

  lemma LowSpecials(f: nat)
    requires f < 24
    ensures SpecialTable(f).UNIMP? || SpecialTable(f).RES? || Funct(SpecialTable(f)) == f
  {
  }

  lemma HighSpecials(f: nat)
    requires 24 <= f
    ensures SpecialTable(f).UNIMP? || SpecialTable(f).RES? || Funct(SpecialTable(f)) == f
  {
  }

  lemma BcondForms(c: nat)
    ensures var op := BcondOp(c);
            if op.UNIMP? then FormOf(op).None? else FormOf(op).Condition? && FormOf(op).code == c
  {
  }

  lemma OpcodeForms(code: nat)
    requires code < 64
    ensures match OpTable(code)
            case Special => code == 0
            case Bcond => code == 1
            case Plain(op, format) =>
              if op.UNIMP? || op.RES? then FormOf(op).None?
              else if format.IFmt? then FormOf(op).Immediate? && FormOf(op).opcode == code
              else FormOf(op).Jump? && FormOf(op).opcode == code
  {
    hide Funct, Code, Opcode, OpTable;
    NoForm();
    if code < 16 {
      LowForms(code);
    } else {
      HighForms(code);
    }
  }

  predicate OfOpcode(p: Primary, code: nat) {
    match p
    case Special => code == 0
    case Bcond => code == 1
    case Plain(op, format) =>
      op.UNIMP? || op.RES?
      || (Funct(op) == 64 && Code(op) == 32
          && if format.IFmt? then !op.J? && !op.JAL? && Opcode(op) == code
             else (op.J? && code == 2) || (op.JAL? && code == 3))
  }

  lemma LowForms(code: nat)
    requires code < 16
    ensures OfOpcode(OpTable(code), code)
  {
  }

  lemma HighForms(code: nat)
    requires 16 <= code < 64
    ensures OfOpcode(OpTable(code), code)
  {
  }

  lemma ReassembledImmediate(v: word)
    ensures v == JumpWord(v / 0x400_0000, v % 0x400_0000)
    ensures v == ImmediateWord(v / 0x400_0000, v / 0x20_0000 % 32, v / 0x1_0000 % 32, v % 0x1_0000)
  {
    var b := v / 0x1_0000;
    var a := b / 32;
    Nested(v);
    assert v == b * 0x1_0000 + v % 0x1_0000 && b == a * 32 + b % 32 && a == a / 32 * 32 + a % 32;
  }

  lemma ReassembledRegister(v: word)
    ensures v < 0x400_0000 ==>
              v == RegisterWord(v / 0x20_0000 % 32, v / 0x1_0000 % 32, v / 0x800 % 32, v / 64 % 32, v % 64)
  {
    var d := v / 64;
    var c := d / 32;
    var b := c / 32;
    Shifts(v);
    assert v == d * 64 + v % 64 && d == c * 32 + d % 32 && c == b * 32 + c % 32 && b == b / 32 * 32 + b % 32;
    assert v < 0x400_0000 ==> b / 32 < 32;
  }

  lemma Shifts(v: nat)
    ensures v / 0x800 == v / 64 / 32 && v / 0x1_0000 == v / 64 / 32 / 32 && v / 0x20_0000 == v / 64 / 32 / 32 / 32
  {
    assert v / 0x800 == v / 64 / 32;
    assert v / 0x1_0000 == v / 0x800 / 32;
    assert v / 0x20_0000 == v / 0x1_0000 / 32;
  }
}
