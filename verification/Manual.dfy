/** What each instruction delivers, on integers and on the bytes of virtual memory, as a MIPS I manual has it, and
    that the simulator of machine/mipssim.cc keeps to that.  Where it does not, module Isa says so. */
module Manual {
  import opened Words
  import opened Translation
  import opened Isa
  import opened Encoding
  import opened Machines

  /** A word as an integer in two's complement, and the words that stand for an integer modulo 2^32. */
  function Int(w: word): int {
    if w < 0x8000_0000 then w else w - 0x1_0000_0000
  }

  predicate Is(w: word, v: int) {
    (v - w) % 0x1_0000_0000 == 0
  }

  lemma WrapIs(v: int)
    ensures Is(Wrap(v), v)
  {
    assert v - v % TWO32 == TWO32 * (v / TWO32);
  }

  lemma SameInt(w: word)
    ensures Int(w) == Signed(w)
  {
  }

  lemma AddWordIs(s: word, t: word)
    ensures Is(AddWord(s, t), s as int + t as int)
  {
    WrapIs(s as int + t as int);
  }

  // ---- computing ----

  /** The instruction goes on, behind the delay slot. */
  predicate GoesOn(r: Regs, a: Action) {
    a.Finish? && Is(a.pcAfter, r[35] as int + 4)
  }

  /** It writes v to one register, and nothing else. */
  predicate Writes(r: Regs, a: Action, reg: nat, v: int) {
    reg < 40 && GoesOn(r, a) && a.regs == r[reg := a.regs[reg]] && Is(a.regs[reg], v)
  }

  lemma Written(r: Regs, reg: nat, w: word, v: int)
    requires reg < 40 && Is(w, v)
    ensures Writes(r, Finish(r[reg := w], NextOf(r)), reg, v)
  {
    hide Is, AddWord;
    AddWordIs(r[35], 4);
  }

  function OneIf(b: bool): int {
    if b then 1 else 0
  }

  lemma SumsDeliver(r: Regs, i: Instruction)
    requires i.Ok() && KindOf(i.op).Summing?
    ensures var a, s: int, t: int, x: int := Wanted(r, i), r[i.rs], r[i.rt], i.extra;
            match i.op
            case ADDU => Writes(r, a, i.rd, s + t)
            case ADDIU => Writes(r, a, i.rt, s + x)
            case SUBU => Writes(r, a, i.rd, s - t)
            case LUI => Writes(r, a, i.rt, x * 0x1_0000)
            case SLT => Writes(r, a, i.rd, OneIf(Int(r[i.rs]) < Int(r[i.rt])))
            case SLTI => Writes(r, a, i.rt, OneIf(Int(r[i.rs]) < x))
            case SLTU => Writes(r, a, i.rd, OneIf(s < t))
            case SLTIU => Writes(r, a, i.rt, OneIf(s < if x < 0 then x + 0x1_0000_0000 else x))
  {
    hide Writes, Is, Int, Signed, Wrap, AddWord, NextOf;
    var s: int, t: int, x: int := r[i.rs], r[i.rt], i.extra;
    SameInt(r[i.rs]);
    SameInt(r[i.rt]);
    match i.op
    case ADDU =>
      AddWordIs(r[i.rs], r[i.rt]);
      Written(r, i.rd, AddWord(r[i.rs], r[i.rt]), s + t);
    case ADDIU =>
      WrapIs(s + x);
      Written(r, i.rt, Wrap(s + x), s + x);
    case SUBU =>
      WrapIs(s - t);
      Written(r, i.rd, Wrap(s - t), s - t);
    case LUI =>
      WrapIs(x * 0x1_0000);
      Written(r, i.rt, Wrap(x * 0x1_0000), x * 0x1_0000);
    case SLT =>
      FlagWritten(r, i.rd, Signed(r[i.rs]) < Signed(r[i.rt]));
    case SLTI =>
      FlagWritten(r, i.rt, Signed(r[i.rs]) < x);
    case SLTU =>
      FlagWritten(r, i.rd, s < t);
    case SLTIU =>
      FlagWritten(r, i.rt, s < Unsigned(i.extra));
  }

  lemma FlagWritten(r: Regs, reg: nat, b: bool)
    requires reg < 40
    ensures Writes(r, Finish(r[reg := Flag(b)], NextOf(r)), reg, OneIf(b))
  {
    Written(r, reg, Flag(b), OneIf(b));
    hide Writes, NextOf;
  }

  /** The additions and the subtraction that trap do so exactly when the result is not an int. */
  lemma CheckedDeliver(r: Regs, i: Instruction)
    requires i.Ok() && KindOf(i.op).Checking?
    ensures var a, s, t := Wanted(r, i), Int(r[i.rs]), Int(r[i.rt]);
            match i.op
            case ADD => WritesChecked(r, a, i.rd, s + t)
            case ADDI => WritesChecked(r, a, i.rt, s + i.extra)
            case SUB => WritesChecked(r, a, i.rd, s - t)
            case SYSCALL => a == Raise(SyscallException, 0)
            case UNIMP => a == Raise(IllegalInstrException, 0)
            case RES => a == Raise(IllegalInstrException, 0)
  {
    hide WritesChecked, Is, Int, Signed, Wrap, NextOf, FitsInt32;
    SameInt(r[i.rs]);
    SameInt(r[i.rt]);
    match i.op
    case ADD => CheckedWritten(r, i.rd, Signed(r[i.rs]) as int + Signed(r[i.rt]));
    case ADDI => CheckedWritten(r, i.rt, Signed(r[i.rs]) as int + i.extra);
    case SUB => CheckedWritten(r, i.rd, Signed(r[i.rs]) as int - Signed(r[i.rt]));
    case SYSCALL =>
    case UNIMP =>
    case RES =>
  }

  predicate WritesChecked(r: Regs, a: Action, reg: nat, v: int) {
    if -0x8000_0000 <= v < 0x8000_0000 then Writes(r, a, reg, v) else a == Raise(OverflowException, 0)
  }

  lemma CheckedWritten(r: Regs, reg: nat, v: int)
    requires reg < 40
    ensures WritesChecked(r, if FitsInt32(v) then Finish(r[reg := Wrap(v)], NextOf(r)) else Raise(OverflowException, 0),
                          reg, v)
  {
    hide Writes, Is, Wrap, NextOf;
    WrapIs(v);
    Written(r, reg, Wrap(v), v);
  }

  // ---- hi and lo ----

  /** Only hi and lo are written. */
  predicate WritesPair(r: Regs, a: Action, hi: word, lo: word) {
    GoesOn(r, a) && a.regs == r[32 := hi][33 := lo]
  }

  lemma PairWritten(r: Regs, hi: word, lo: word)
    ensures WritesPair(r, Finish(r[32 := hi][33 := lo], NextOf(r)), hi, lo)
    ensures WritesPair(r, Finish(r[33 := lo][32 := hi], NextOf(r)), hi, lo)
  {
    AddWordIs(r[35], 4);
    hide Is, AddWord;
    assert r[33 := lo][32 := hi] == r[32 := hi][33 := lo];
  }

  /** The pair holds all 64 bits of the product, of ints or of words. */
  lemma ProductsDeliver(r: Regs, i: Instruction)
    requires i.Ok() && (i.op.MULT? || i.op.MULTU?)
    ensures exists hi: word, lo: word ::
              && WritesPair(r, Wanted(r, i), hi, lo)
              && if i.op.MULT? then Int(hi) * 0x1_0000_0000 + lo == Int(r[i.rs]) * Int(r[i.rt])
                 else (hi as int) * 0x1_0000_0000 + lo == (r[i.rs] as int) * r[i.rt]
  {
    hide WritesPair, Signed, Int, Wrap, NextOf;
    SameInt(r[i.rs]);
    SameInt(r[i.rt]);
    if i.op.MULT? {
      var p: int := Signed(r[i.rs]) as int * Signed(r[i.rt]) as int;
      PairWritten(r, Wrap(p / TWO32), Wrap(p));
      SignedProduct(Signed(r[i.rs]), Signed(r[i.rt]));
      SignedPair(p);
      assert Wanted(r, i) == Finish(r[32 := Wrap(p / TWO32)][33 := Wrap(p)], NextOf(r));
    } else {
      var p: int := r[i.rs] as int * r[i.rt] as int;
      PairWritten(r, Wrap(p / TWO32), Wrap(p));
      WordProduct(r[i.rs], r[i.rt]);
      WordPair(p);
      assert Wanted(r, i) == Finish(r[32 := Wrap(p / TWO32)][33 := Wrap(p)], NextOf(r));
    }
  }

  lemma ProductBelow(x: nat, y: nat, m: nat, n: nat)
    requires x <= m && y <= n
    ensures 0 <= x * y <= m * n
  {
    assert x * y <= m * y <= m * n;
  }

  lemma SignsOut(a: int, b: int, x: int, y: int)
    requires (x == a || x == -a) && (y == b || y == -b)
    ensures a * b == x * y || a * b == -(x * y)
  {
  }

  lemma SignedProduct(a: int32, b: int32)
    ensures -0x4000_0000_0000_0000 <= a as int * b as int <= 0x4000_0000_0000_0000
  {
    var v: int, w: int := a, b;
    var x, y := if v < 0 then -v else v, if w < 0 then -w else w;
    ProductBelow(x, y, 0x8000_0000, 0x8000_0000);
    SignsOut(v, w, x, y);
  }

  lemma WordProduct(a: word, b: word)
    ensures 0 <= a as int * b as int < 0x1_0000_0000_0000_0000
  {
    ProductBelow(a, b, 0xffff_ffff, 0xffff_ffff);
  }

  lemma SignedPair(p: int)
    requires -0x8000_0000_0000_0000 <= p < 0x8000_0000_0000_0000
    ensures Int(Wrap(p / TWO32)) * 0x1_0000_0000 + Wrap(p) == p
  {
    var q := p / TWO32;
    assert p == TWO32 * q + p % TWO32;
    assert -0x8000_0000 <= q < 0x8000_0000;
  }

  lemma WordPair(p: int)
    requires 0 <= p < 0x1_0000_0000_0000_0000
    ensures (Wrap(p / TWO32) as int) * 0x1_0000_0000 + Wrap(p) == p
  {
    var q := p / TWO32;
    assert p == TWO32 * q + p % TWO32;
    assert 0 <= q < 0x1_0000_0000;
  }

  /** q and m are quotient and remainder of n by d, the quotient truncated: the remainder is smaller than d and has the
      sign of n. */
  predicate Divides(n: int, d: int, q: int, m: int) {
    && n == d * q + m
    && (m < 0 ==> n < 0) && (m > 0 ==> n > 0)
    && (if m < 0 then -m else m) < if d < 0 then -d else d
  }

  /** lo gets the quotient and hi the remainder; division by zero clears both; -2^31 / -1 stops the simulator. */
  lemma QuotientsDeliver(r: Regs, i: Instruction)
    requires i.Ok() && (i.op.DIV? || i.op.DIVU?)
    ensures var a, s, t := Wanted(r, i), r[i.rs], r[i.rt];
            if t == 0 then WritesPair(r, a, 0, 0)
            else if i.op.DIV? && Int(s) == -0x8000_0000 && Int(t) == -1 then a == Stop
            else exists hi: word, lo: word ::
              && WritesPair(r, a, hi, lo)
              && if i.op.DIV? then Divides(Int(s), Int(t), Int(lo), Int(hi)) else Divides(s, t, lo, hi)
  {
    hide WritesPair, Signed, Int, Wrap, NextOf, CDiv, CMod, Divides;
    var s, t := r[i.rs], r[i.rt];
    SameInt(s);
    SameInt(t);
    SignedZero(t);
    if t == 0 {
      PairWritten(r, 0, 0);
    } else if i.op.DIVU? {
      PairWritten(r, s % t, s / t);
      WordsDivide(s, t);
    } else if !(Signed(s) == -TWO31 && Signed(t) == -1) {
      var q, m := CDiv(Signed(s), Signed(t)), CMod(Signed(s), Signed(t));
      IntsDivide(Signed(s), Signed(t));
      PairWritten(r, Wrap(m), Wrap(q));
      IntWrapped(q);
      IntWrapped(m);
    }
  }

  lemma IntWrapped(v: int)
    requires -0x8000_0000 <= v < 0x8000_0000
    ensures Int(Wrap(v)) == v
  {
  }

  lemma WordsDivide(n: word, d: word)
    requires d != 0
    ensures 0 <= n / d < TWO32 && n % d < TWO32 && Divides(n, d, n / d, n % d)
  {
    QuotientFits(n, d);
  }

  lemma QuotientFits(x: nat, y: nat)
    requires y != 0
    ensures 0 <= x / y <= x && x == y * (x / y) + x % y
    ensures y >= 2 ==> 2 * (x / y) <= x
  {
    Times(1, y, x / y);
    if y >= 2 {
      Times(2, y, x / y);
    }
  }

  lemma Times(c: nat, y: nat, k: nat)
    requires c <= y
    ensures c * k <= y * k
  {
  }

  lemma IntsDivide(n: int32, d: int32)
    requires d != 0 && !(n == -TWO31 && d == -1)
    ensures var q, m := CDiv(n, d), CMod(n, d);
            -0x8000_0000 <= q < 0x8000_0000 && -0x8000_0000 <= m < 0x8000_0000 && Divides(n, d, q, m)
  {
    hide CDiv, CMod;
    var v: int, w: int := n, d;
    var x, y := if v < 0 then -v else v, if w < 0 then -w else w;
    QuotientFits(x, y);
    Magnitudes(v, w, x, y, x / y, x % y);
    SignedDivides(v, w, x, y, x / y, x % y);
  }

  lemma SignedDivides(n: int, d: int, x: int, y: int, k: int, l: int)
    requires d != 0 && x == (if n < 0 then -n else n) && y == (if d < 0 then -d else d)
    requires 0 <= k && x == y * k + l && 0 <= l < y
    ensures Divides(n, d, if (n < 0) == (d < 0) then k else -k, if n < 0 then -l else l)
  {
    NegatedProducts(y, k);
    assert d == y || d == -y;
  }

  lemma NegatedProducts(y: int, k: int)
    ensures (-y) * k == -(y * k) && y * (-k) == -(y * k) && (-y) * (-k) == y * k
    ensures 0 <= y && 0 <= k ==> 0 <= y * k
  {
  }

  lemma Magnitudes(n: int, d: int, x: int, y: int, k: int, l: int)
    requires d != 0 && x == (if n < 0 then -n else n) && y == (if d < 0 then -d else d) && k == x / y && l == x % y
    ensures CDiv(n, d) == if (n < 0) == (d < 0) then k else -k
    ensures CMod(n, d) == if n < 0 then -l else l
  {
    assert x == y * k + l;
    DivisorSign(x, y, k, l);
  }

  lemma DivisorSign(x: int, y: int, k: int, l: int)
    requires y > 0 && x >= 0 && k == x / y && l == x % y
    ensures x / -y == -k
  {
    assert x == (-y) * (-k) + l && 0 <= l < y;
    QuotientIs(x, -y, -k, l);
  }

  lemma QuotientIs(x: int, d: int, q: int, m: int)
    requires d < 0 && x == d * q + m && 0 <= m < -d
    ensures x / d == q
  {
    var e := x / d;
    assert x == d * e + x % d && 0 <= x % d < -d;
    assert e < q ==> d * (e + 1) >= d * q;
    assert q < e ==> d * (q + 1) >= d * e;
  }

  lemma PairMoves(r: Regs, i: Instruction)
    requires i.Ok() && (i.op.MFHI? || i.op.MFLO? || i.op.MTHI? || i.op.MTLO?)
    ensures var a := Wanted(r, i);
            if i.op.MFHI? then Writes(r, a, i.rd, r[32]) else if i.op.MFLO? then Writes(r, a, i.rd, r[33])
            else Writes(r, a, if i.op.MTHI? then 32 else 33, r[i.rs])
  {
    hide Writes, NextOf;
    var reg, w := if i.op.MTHI? then 32 else if i.op.MTLO? then 33 else i.rd,
                  if i.op.MFHI? then r[32] else if i.op.MFLO? then r[33] else r[i.rs];
    assert Wanted(r, i) == Finish(r[reg := w], NextOf(r));
    Written(r, reg, w, w);
  }

  // ---- branches and jumps ----

  /** Control goes to v after the delay slot, and no register is written. */
  predicate Goes(r: Regs, a: Action, v: int) {
    a.Finish? && a.regs == r && Is(a.pcAfter, v)
  }

  /** Register `link`, and no other, gets the address behind the delay slot. */
  predicate Linked(r: Regs, a: Action, link: nat) {
    link < 32 && a.Finish? && a.regs == r[link := a.regs[link]] && Is(a.regs[link], r[35] as int + 4)
  }

  /** r[35] is the address of the delay slot; a branch that is taken counts words from there. */
  function Target(r: Regs, taken: bool, x: int): int {
    r[35] as int + if taken then 4 * x else 4
  }

  lemma TargetIs(r: Regs, taken: bool, x: int32)
    ensures Is(if taken then BranchOf(r, x) else NextOf(r), Target(r, taken, x))
  {
    WrapIs(r[35] as int + 4 * (x as int));
    AddWordIs(r[35], 4);
    hide Is, Wrap, AddWord;
  }

  lemma BranchesGo(r: Regs, i: Instruction)
    requires i.Ok() && KindOf(i.op).Transferring?
    ensures var a, s, t, x := Wanted(r, i), Int(r[i.rs]), Int(r[i.rt]), i.extra;
            match i.op
            case BEQ => Goes(r, a, Target(r, s == t, x))
            case BNE => Goes(r, a, Target(r, s != t, x))
            case BLEZ => Goes(r, a, Target(r, s <= 0, x))
            case BGTZ => Goes(r, a, Target(r, s > 0, x))
            case BLTZ => Goes(r, a, Target(r, s < 0, x))
            case BGEZ => Goes(r, a, Target(r, s >= 0, x))
            case _ => true
  {
    hide Int, Signed, BranchOf, NextOf, Is, Target;
    var s, t := r[i.rs], r[i.rt];
    SameInt(s);
    SameInt(t);
    SameWord(s, t);
    match i.op
    case BEQ => TargetIs(r, s == t, i.extra);
    case BNE => TargetIs(r, s != t, i.extra);
    case BLEZ => TargetIs(r, Signed(s) <= 0, i.extra);
    case BGTZ => TargetIs(r, Signed(s) > 0, i.extra);
    case BLTZ => TargetIs(r, Signed(s) < 0, i.extra);
    case BGEZ => TargetIs(r, Signed(s) >= 0, i.extra);
    case _ =>
  }

  lemma SameWord(s: word, t: word)
    ensures Int(s) == Int(t) <==> s == t
  {
  }

  /** The link is written first: a condition on register 31 is a condition on the link. */
  lemma LinkingBranchesGo(r: Regs, i: Instruction)
    requires i.Ok() && (i.op.BLTZAL? || i.op.BGEZAL?)
    ensures var a := Wanted(r, i);
            && Linked(r, a, 31)
            && var s := Int(a.regs[i.rs]);
               Is(a.pcAfter, Target(r, if i.op.BLTZAL? then s < 0 else s >= 0, i.extra))
  {
    hide Int, Signed, BranchOf, NextOf, Is, Target;
    var l: Regs := r[31 := NextOf(r)];
    SameInt(l[i.rs]);
    LinkIs(r);
    TargetIs(r, if i.op.BLTZAL? then Signed(l[i.rs]) < 0 else Signed(l[i.rs]) >= 0, i.extra);
  }

  lemma LinkIs(r: Regs)
    ensures Is(NextOf(r), r[35] as int + 4)
  {
    AddWordIs(r[35], 4);
  }

  /** A jump keeps the top four bits of the address behind the delay slot. */
  lemma JumpsGo(r: Regs, i: Instruction)
    requires i.Ok() && (i.op.J? || i.op.JAL?)
    ensures var a, n := Wanted(r, i), (r[35] as int + 4) % 0x1_0000_0000;
            && (if i.op.JAL? then Linked(r, a, 31) else a.Finish? && a.regs == r)
            && a.pcAfter / 0x1000_0000 == n / 0x1000_0000 && a.pcAfter % 0x1000_0000 == 4 * i.extra
  {
    hide Is;
    LinkIs(r);
    RegionIs(NextOf(r), i.extra);
    hide Region, AddWord;
    assert NextOf(r) == (r[35] as int + 4) % 0x1_0000_0000 by { NextIs(r); }
  }

  lemma NextIs(r: Regs)
    ensures NextOf(r) == (r[35] as int + 4) % 0x1_0000_0000
  {
  }

  lemma RegionIs(n: word, target: nat)
    requires target < 0x400_0000
    ensures Region(n, target) / 0x1000_0000 == n / 0x1000_0000 && Region(n, target) % 0x1000_0000 == 4 * target
  {
    assert n - n % 0x1000_0000 == 0x1000_0000 * (n / 0x1000_0000);
  }

  lemma RegisterJumpsGo(r: Regs, i: Instruction)
    requires i.Ok() && (i.op.JR? || i.op.JALR?)
    ensures var a := Wanted(r, i);
            && (if i.op.JALR? then Linked(r, a, i.rd) else a.Finish? && a.regs == r)
            && a.pcAfter == a.regs[i.rs]
  {
    hide Is, NextOf;
    LinkIs(r);
  }
}
