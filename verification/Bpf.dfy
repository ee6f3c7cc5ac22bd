/** The part of the BPF instruction set that the D compiler emits, and its execution:
    sections 4.1 (arithmetic), 4.3 (jumps) and 5.4 (64-bit immediates) of RFC 9669. */
module Bpf {
  import opened Wrappers
  import opened Arith

  const HALF: nat := 0x8000_0000_0000_0000

  type u64 = x: nat | x < 0x1_0000_0000_0000_0000

  /** Two's complement reading of a register. */
  function S(x: u64): int {
    if x < HALF then x else x - WORD
  }

  /** The register contents for an integer, modulo 2^64. */
  function W(i: int): u64 {
    i % WORD
  }

  predicate Int64(v: int) {
    0 - HALF <= v < HALF
  }

  function Abs(v: int): nat {
    if v < 0 then -v else v
  }

  lemma WAdd(a: int, b: int)
    ensures W(W(a) + b) == W(a + b)
  {
  }

  // ----- bitwise operations -----

  function BitsXor(x: nat, y: nat, n: nat): nat
    decreases n
  {
    if n == 0 then 0 else (x % 2 + y % 2) % 2 + 2 * BitsXor(x / 2, y / 2, n - 1)
  }

  function BitsAnd(x: nat, y: nat, n: nat): nat
    decreases n
  {
    if n == 0 then 0 else (if x % 2 == 1 && y % 2 == 1 then 1 else 0) + 2 * BitsAnd(x / 2, y / 2, n - 1)
  }

  function BitsOr(x: nat, y: nat, n: nat): nat
    decreases n
  {
    if n == 0 then 0 else (if x % 2 == 1 || y % 2 == 1 then 1 else 0) + 2 * BitsOr(x / 2, y / 2, n - 1)
  }

  lemma {:induction false} BitsBound(x: nat, y: nat, n: nat)
    ensures BitsXor(x, y, n) < Pow2(n) && BitsAnd(x, y, n) < Pow2(n) && BitsOr(x, y, n) < Pow2(n)
    decreases n
  {
    if n > 0 {
      BitsBound(x / 2, y / 2, n - 1);
    }
  }

  /** Exclusive or with all ones is the complement. */
  lemma {:induction false} XorOnes(x: nat, n: nat)
    requires x < Pow2(n)
    ensures BitsXor(x, Pow2(n) - 1, n) == Pow2(n) - 1 - x
    decreases n
  {
    if n > 0 {
      var y := Pow2(n) - 1;
      assert y / 2 == Pow2(n - 1) - 1 && y % 2 == 1;
      XorOnes(x / 2, n - 1);
    }
  }

  lemma {:induction false} XorZeros(n: nat)
    ensures BitsXor(0, 0, n) == 0
    decreases n
  {
    if n > 0 {
      XorZeros(n - 1);
    }
  }

  function Xor(x: u64, y: u64): u64 {
    Pow2Word(); BitsBound(x, y, 64); BitsXor(x, y, 64)
  }

  function And(x: u64, y: u64): u64 {
    Pow2Word(); BitsBound(x, y, 64); BitsAnd(x, y, 64)
  }

  function Or(x: u64, y: u64): u64 {
    Pow2Word(); BitsBound(x, y, 64); BitsOr(x, y, 64)
  }

  lemma XorTruth(x: u64, y: u64)
    requires x <= 1 && y <= 1
    ensures Xor(x, y) == if x != y then 1 else 0
  {
    XorLowBit(x, y, 64);
  }

  lemma XorLowBit(x: nat, y: nat, n: nat)
    requires x <= 1 && y <= 1 && n > 0
    ensures BitsXor(x, y, n) == if x != y then 1 else 0
  {
    XorZeros(n - 1);
  }

  lemma XorMinusOne(x: u64)
    ensures Xor(x, WORD - 1) == WORD - 1 - x
  {
    Pow2Word();
    XorOnes(x, 64);
  }

  // ----- instructions -----

  datatype AluOp = ADD | SUB | MUL | DIV | OR | AND | LSH | RSH | MOD | XOR | MOV | ARSH

  datatype Cond = JEQ | JNE | JGT | JGE | JLT | JLE | JSGT | JSGE | JSLT | JSLE

  /** `off` is a label number before assembly and a relative distance afterwards. */
  datatype Insn =
    | AluReg(op: AluOp, dst: nat, src: nat)
    | AluImm(op: AluOp, dst: nat, imm: int)
    | NegReg(dst: nat)
    | Lddw(dst: nat, lo: nat)
    | LddwHi(hi: nat)
    | Load(dst: nat, src: nat, disp: int)
    | Store(dst: nat, disp: int, src: nat)
    | BranchReg(cond: Cond, dst: nat, src: nat, off: int)
    | BranchImm(cond: Cond, dst: nat, imm: int, off: int)
    | Ja(off: int)
    | CallFunc(id: nat)
    | Exit

  function Alu(op: AluOp, x: u64, y: u64): u64 {
    match op
    case ADD => W(x + y)
    case SUB => W(x - y)
    case MUL => W(x * y)
    case DIV => if y == 0 then 0 else Quotient(x, y)
    case OR => Or(x, y)
    case AND => And(x, y)
    case LSH => W(x * Pow2(y % 64))
    case RSH => Quotient(x, Pow2(y % 64))
    case MOD => if y == 0 then x else Remainder(x, y)
    case XOR => Xor(x, y)
    case MOV => y
    case ARSH => W(S(x) / Pow2(y % 64))
  }

  function Quotient(x: u64, y: nat): u64
    requires y > 0
  {
    QuotientSmall(x, y);
    x / y
  }

  lemma QuotientSmall(x: nat, y: nat)
    requires y > 0
    ensures 0 <= x / y <= x
  {
    ProductLarge(x / y, y);
  }

  lemma ProductLarge(a: nat, b: nat)
    requires b > 0
    ensures a * b >= a
  {
  }

  function Remainder(x: u64, y: u64): u64
    requires y > 0
  {
    x % y
  }

  predicate Holds(c: Cond, x: u64, y: u64) {
    match c
    case JEQ => x == y
    case JNE => x != y
    case JGT => x > y
    case JGE => x >= y
    case JLT => x < y
    case JLE => x <= y
    case JSGT => S(x) > S(y)
    case JSGE => S(x) >= S(y)
    case JSLT => S(x) < S(y)
    case JSLE => S(x) <= S(y)
  }

  // ----- machine -----

  const FP: nat := 10

  datatype Machine = Machine(regs: seq<u64>, mem: map<int, u64>, faults: seq<u64>) {
    function Get(r: nat): u64 {
      if r < |regs| then regs[r] else 0
    }

    function Set(r: nat, v: u64): Machine {
      if r < |regs| then Machine(regs[r := v], mem, faults) else this
    }

    function Write(a: int, v: u64): Machine {
      Machine(regs, mem[a := v], faults)
    }

    function Read(a: int): u64 {
      if a in mem then mem[a] else 0
    }
  }

  /** What a call does, which is not decided by the calling program. */
  datatype Env = Env(call: (nat, Machine) -> Machine)

  datatype Effect = Next(m: Machine) | Wide(m: Machine) | Goto(m: Machine, off: int) | Stop(m: Machine) | Bad

  /** One instruction; `follow` is the next one, which holds the upper half of a 64-bit immediate. */
  function Exec(env: Env, i: Insn, follow: Option<Insn>, m: Machine): Effect {
    match i
    case AluReg(op, dst, src) => Next(m.Set(dst, Alu(op, m.Get(dst), m.Get(src))))
    case AluImm(op, dst, imm) => Next(m.Set(dst, Alu(op, m.Get(dst), W(imm))))
    case NegReg(dst) => Next(m.Set(dst, W(0 - m.Get(dst))))
    case Lddw(dst, lo) =>
      if follow.Some? && follow.value.LddwHi? then Wide(m.Set(dst, W(lo + 0x1_0000_0000 * follow.value.hi))) else Bad
    case LddwHi(_) => Bad
    case Load(dst, src, disp) => Next(m.Set(dst, m.Read(m.Get(src) + disp)))
    case Store(dst, disp, src) => Next(m.Write(m.Get(dst) + disp, m.Get(src)))
    case BranchReg(cond, dst, src, off) => if Holds(cond, m.Get(dst), m.Get(src)) then Goto(m, off) else Next(m)
    case BranchImm(cond, dst, imm, off) => if Holds(cond, m.Get(dst), W(imm)) then Goto(m, off) else Next(m)
    case Ja(off) => if off == 0 then Next(m) else Goto(m, off)
    case CallFunc(id) => Next(env.call(id, m))
    case Exit => Stop(m)
  }

  datatype Config = At(pc: nat, m: Machine) | Halted(m: Machine) | Stuck

  // ----- flat code -----

  function FlatStep(env: Env, code: seq<Insn>, c: Config): Config {
    if !c.At? then c
    else if c.pc >= |code| then Stuck
    else
      match Exec(env, code[c.pc], if c.pc + 1 < |code| then Some(code[c.pc + 1]) else None, c.m)
      case Next(m) => At(c.pc + 1, m)
      case Wide(m) => At(c.pc + 2, m)
      case Goto(m, off) => if 0 <= c.pc + 1 + off <= |code| then At(c.pc + 1 + off, m) else Stuck
      case Stop(m) => Halted(m)
      case Bad => Stuck
  }

  function FlatRun(env: Env, code: seq<Insn>, c: Config, k: nat): Config {
    if k == 0 then c else FlatStep(env, code, FlatRun(env, code, c, k - 1))
  }
}
