/** Code generation for 64-bit integer D expressions. */
module CodeGen {
  import opened Wrappers
  import opened Arith
  import opened Bpf
  import opened Assembler

  // ----- expressions and their values -----

  datatype ArithOp = Plus | Minus | Times | Over | Modulo | BitAnd | BitOr | BitXor | Shl | Shr

  datatype CmpOp = Equal | NotEqual | Less | LessEqual | Greater | GreaterEqual

  datatype Expr =
    | Const(value: u64)
    | Arith(op: ArithOp, signed: bool, left: Expr, right: Expr)
    | Compare(cmp: CmpOp, signed: bool, left: Expr, right: Expr)
    | LogicalAnd(left: Expr, right: Expr)
    | LogicalOr(left: Expr, right: Expr)
    | LogicalXor(left: Expr, right: Expr)
    | LogicalNot(child: Expr)
    | Ternary(cond: Expr, left: Expr, right: Expr)
    | Comma(left: Expr, right: Expr)
    | BitNot(child: Expr)
    | Negate(child: Expr)

  /** A value, or the divide-by-zero fault that ends the clause. */
  datatype Value = Val(v: u64) | DivideByZero

  /** Division that truncates toward zero, as in section 6.5.5 of ISO C99. */
  function TruncDiv(a: int, b: int): int
    requires b != 0
  {
    if (a < 0) != (b < 0) then -(Abs(a) / Abs(b)) else Abs(a) / Abs(b)
  }

  /** The remainder that goes with truncating division; it takes the dividend's sign. */
  function TruncMod(a: int, b: int): int
    requires b != 0
  {
    if a < 0 then -(Abs(a) % Abs(b)) else Abs(a) % Abs(b)
  }

  /** What the signed remainder sequence computes: negative when the operand signs differ. */
  function EmittedMod(a: int, b: int): int
    requires b != 0
  {
    if (a < 0) != (b < 0) then -(Abs(a) % Abs(b)) else Abs(a) % Abs(b)
  }

  /** The emitted remainder is C's exactly for positive divisors or a zero remainder. */
  lemma ModuloMatchesC(a: int, b: int)
    requires b != 0
    ensures EmittedMod(a, b) == TruncMod(a, b) <==> b > 0 || Abs(a) % Abs(b) == 0
  {
  }

  lemma ModuloDiffersFromC()
    ensures EmittedMod(7, -2) == -1 && TruncMod(7, -2) == 1
    ensures EmittedMod(-7, -2) == 1 && TruncMod(-7, -2) == -1
  {
  }

  function ArithValue(op: ArithOp, signed: bool, x: u64, y: u64): Value {
    match op
    case Plus => Val(W(x + y))
    case Minus => Val(W(x - y))
    case Times => Val(W(x * y))
    case Over =>
      if !signed then Val(Alu(DIV, x, y))
      else if y == 0 then DivideByZero
      else Val(W(TruncDiv(S(x), S(y))))
    case Modulo =>
      if !signed then Val(Alu(MOD, x, y))
      else if y == 0 then DivideByZero
      else Val(W(EmittedMod(S(x), S(y))))
    case BitAnd => Val(And(x, y))
    case BitOr => Val(Or(x, y))
    case BitXor => Val(Xor(x, y))
    case Shl => Val(Alu(LSH, x, y))
    case Shr => Val(if signed then Alu(ARSH, x, y) else Alu(RSH, x, y))
  }

  predicate CmpHolds(cmp: CmpOp, signed: bool, x: u64, y: u64) {
    var a, b := if signed then S(x) else x, if signed then S(y) else y;
    match cmp
    case Equal => x == y
    case NotEqual => x != y
    case Less => a < b
    case LessEqual => a <= b
    case Greater => a > b
    case GreaterEqual => a >= b
  }

  function Truth(b: bool): u64 {
    if b then 1 else 0
  }

  /** Left operand first; a fault in an operand that is evaluated is the result. */
  function Eval(e: Expr): Value {
    match e
    case Const(v) => Val(v)
    case Arith(op, signed, l, r) =>
      var x, y := Eval(l), Eval(r);
      if x.DivideByZero? then x else if y.DivideByZero? then y else ArithValue(op, signed, x.v, y.v)
    case Compare(cmp, signed, l, r) =>
      var x, y := Eval(l), Eval(r);
      if x.DivideByZero? then x else if y.DivideByZero? then y else Val(Truth(CmpHolds(cmp, signed, x.v, y.v)))
    case LogicalAnd(l, r) =>
      var x := Eval(l);
      if x.DivideByZero? then x
      else if x.v == 0 then Val(0)
      else if Eval(r).DivideByZero? then DivideByZero else Val(Truth(Eval(r).v != 0))
    case LogicalOr(l, r) =>
      var x := Eval(l);
      if x.DivideByZero? then x
      else if x.v != 0 then Val(1)
      else if Eval(r).DivideByZero? then DivideByZero else Val(Truth(Eval(r).v != 0))
    case LogicalXor(l, r) =>
      var x, y := Eval(l), Eval(r);
      if x.DivideByZero? then x else if y.DivideByZero? then y else Val(Truth((x.v != 0) != (y.v != 0)))
    case LogicalNot(c) =>
      if Eval(c).DivideByZero? then DivideByZero else Val(Truth(Eval(c).v == 0))
    case Ternary(c, l, r) =>
      if Eval(c).DivideByZero? then DivideByZero else if Eval(c).v != 0 then Eval(l) else Eval(r)
    case Comma(l, r) =>
      if Eval(l).DivideByZero? then DivideByZero else Eval(r)
    case BitNot(c) =>
      if Eval(c).DivideByZero? then DivideByZero else Val(WORD - 1 - Eval(c).v)
    case Negate(c) =>
      if Eval(c).DivideByZero? then DivideByZero else Val(W(0 - Eval(c).v))
  }

  // ----- the generated code -----

  const DIVZERO: nat := 4
  const PROBE_ERROR: nat := 1
  const STK_DCTX: int := -72

  function SpillSlot(r: nat): int {
    STK_DCTX - 8 - 8 * r
  }

  /** The highest-numbered free register. */
  function Alloc(act: set<nat>, n: nat): Option<nat> {
    if n == 0 then None else if n - 1 !in act then Some(n - 1) else Alloc(act, n - 1)
  }

  function I(i: Insn): Node {
    Node(0, i, None)
  }

  function L(l: nat, i: Insn): Node {
    Node(l, i, None)
  }

  function SetX(r: nat, v: u64): Ir {
    [I(Lddw(r, v % 0x1_0000_0000)), I(LddwHi(v / 0x1_0000_0000))]
  }

  /** Argument registers in use are saved around the call; nothing after it is reached. */
  function Saves(act: set<nat>, rs: seq<nat>): Ir {
    if rs == [] then []
    else (if rs[0] in act then [I(Store(FP, SpillSlot(rs[0]), rs[0]))] else []) + Saves(act, rs[1..])
  }

  function Restores(act: set<nat>, rs: seq<nat>): Ir {
    if rs == [] then []
    else (if rs[0] in act then [I(Load(rs[0], FP, SpillSlot(rs[0])))] else []) + Restores(act, rs[1..])
  }

  const ARGS: seq<nat> := [1, 2, 3, 4, 5]

  function FaultArgs(fault: nat): Ir {
    [I(Load(1, FP, STK_DCTX)), I(AluImm(MOV, 2, -1)), I(AluImm(MOV, 3, fault)), I(AluImm(MOV, 4, 0))]
  }

  function FaultCode(act: set<nat>, fault: nat): Ir {
    Saves(act, ARGS) + FaultArgs(fault) + Saves(act, [0])
    + [Node(0, CallFunc(PROBE_ERROR), Some(PROBE_ERROR))]
    + Restores(act, ARGS) + Restores(act, [0])
    + [I(Exit)]
  }

  function AluFor(op: ArithOp, signed: bool): AluOp {
    match op
    case Plus => ADD
    case Minus => SUB
    case Times => MUL
    case Over => DIV
    case Modulo => MOD
    case BitAnd => AND
    case BitOr => OR
    case BitXor => XOR
    case Shl => LSH
    case Shr => if signed then ARSH else RSH
  }

  function CondFor(cmp: CmpOp, signed: bool): Cond {
    match cmp
    case Equal => JEQ
    case NotEqual => JNE
    case Less => if signed then JSLT else JLT
    case LessEqual => if signed then JSLE else JLE
    case Greater => if signed then JSGT else JGT
    case GreaterEqual => if signed then JSGE else JGE
  }

  /** Signed division on an unsigned divider: labels L1..L5 are l..l+4, the check's is l+5. */
  function DivisionBody(op: AluOp, x: nat, y: nat, l: nat): Ir {
    [L(l + 5, Ja(0)),
     I(BranchImm(JSLT, x, 0, l + 2)),
     I(BranchImm(JSLT, y, 0, l)),
     I(Ja(l + 3)),
     L(l, NegReg(y)),
     L(l + 1, AluReg(op, x, y)),
     I(NegReg(x)),
     I(Ja(l + 4)),
     L(l + 2, NegReg(x)),
     I(BranchImm(JSGE, y, 0, l + 1)),
     I(NegReg(y)),
     L(l + 3, AluReg(op, x, y)),
     L(l + 4, Ja(0))]
  }

  function SignedDivision(op: AluOp, x: nat, y: nat, act: set<nat>, l: nat): Ir {
    [I(BranchImm(JNE, y, 0, l + 5))] + FaultCode(act, DIVZERO) + DivisionBody(op, x, y, l)
  }

  datatype Out = Out(code: Ir, reg: nat, next: nat)

  predicate NeedsSignedDivision(op: ArithOp, signed: bool) {
    (op.Over? || op.Modulo?) && signed
  }

  /** The code for e with `act` allocated out of n registers and `l` the next label;
      None when it would need a register to be spilled. */
  function Compile(e: Expr, act: set<nat>, n: nat, l: nat): Option<Out> {
    match e
    case Const(v) =>
      var r := Alloc(act, n);
      if r.None? then None
      else Some(Out(if v > 0x7fff_ffff then SetX(r.value, v) else [I(AluImm(MOV, r.value, v))], r.value, l))
    case Arith(op, signed, left, right) =>
      var a := Compile(left, act, n, l);
      if a.None? then None else
      var b := Compile(right, act + {a.value.reg}, n, a.value.next);
      if b.None? then None else
      var x, y := a.value.reg, b.value.reg;
      if NeedsSignedDivision(op, signed) then
        Some(Out(a.value.code + b.value.code + SignedDivision(AluFor(op, signed), x, y, act + {x, y}, b.value.next),
                 x, b.value.next + 6))
      else
        Some(Out(a.value.code + b.value.code + [I(AluReg(AluFor(op, signed), x, y))], x, b.value.next))
    case Compare(cmp, signed, left, right) =>
      var a := Compile(left, act, n, l + 2);
      if a.None? then None else
      var b := Compile(right, act + {a.value.reg}, n, a.value.next);
      if b.None? then None else
      var x, y := a.value.reg, b.value.reg;
      Some(Out(a.value.code + b.value.code + CompareTail(CondFor(cmp, signed), x, y, l), x, b.value.next))
    case LogicalAnd(left, right) =>
      var a := Compile(left, act, n, l + 2);
      if a.None? then None else
      var b := Compile(right, act, n, a.value.next);
      if b.None? then None else
      Some(Out(a.value.code + [I(BranchImm(JEQ, a.value.reg, 0, l))] + b.value.code + AndTail(b.value.reg, l),
               b.value.reg, b.value.next))
    case LogicalOr(left, right) =>
      var a := Compile(left, act, n, l + 3);
      if a.None? then None else
      var b := Compile(right, act, n, a.value.next);
      if b.None? then None else
      Some(Out(a.value.code + [I(BranchImm(JNE, a.value.reg, 0, l))] + b.value.code + OrTail(b.value.reg, l),
               b.value.reg, b.value.next))
    case LogicalXor(left, right) =>
      var a := Compile(left, act, n, l + 2);
      if a.None? then None else
      var x := a.value.reg;
      var b := Compile(right, act + {x}, n, a.value.next);
      if b.None? then None else
      var y := b.value.reg;
      Some(Out(a.value.code + XorMiddle(x, l) + b.value.code + XorTail(x, y, l), x, b.value.next))
    case LogicalNot(child) =>
      var a := Compile(child, act, n, l + 2);
      if a.None? then None else
      Some(Out(a.value.code + NotTail(a.value.reg, l), a.value.reg, a.value.next))
    case Ternary(cond, left, right) =>
      var c := Compile(cond, act, n, l + 2);
      if c.None? then None else
      var a := Compile(left, act, n, c.value.next);
      if a.None? then None else
      var b := Compile(right, act, n, a.value.next);
      if b.None? then None else
      Some(Out(c.value.code + [I(BranchImm(JEQ, c.value.reg, 0, l))]
               + a.value.code + TernaryMiddle(b.value.reg, a.value.reg, l)
               + b.value.code + [L(l + 1, Ja(0))], b.value.reg, b.value.next))
    case Comma(left, right) =>
      var a := Compile(left, act, n, l);
      if a.None? then None else
      var b := Compile(right, act, n, a.value.next);
      if b.None? then None else
      Some(Out(a.value.code + b.value.code, b.value.reg, b.value.next))
    case BitNot(child) =>
      var a := Compile(child, act, n, l);
      if a.None? then None else
      Some(Out(a.value.code + [I(AluImm(XOR, a.value.reg, -1))], a.value.reg, a.value.next))
    case Negate(child) =>
      var a := Compile(child, act, n, l);
      if a.None? then None else
      Some(Out(a.value.code + [I(NegReg(a.value.reg))], a.value.reg, a.value.next))
  }

  function CompareTail(c: Cond, x: nat, y: nat, l: nat): Ir {
    [I(BranchReg(c, x, y, l)), I(AluImm(MOV, x, 0)), I(Ja(l + 1)), L(l, AluImm(MOV, x, 1)), L(l + 1, Ja(0))]
  }

  function AndTail(y: nat, l: nat): Ir {
    [I(BranchImm(JEQ, y, 0, l))] + SetX(y, 1) + [I(Ja(l + 1)), L(l, AluImm(MOV, y, 0)), L(l + 1, Ja(0))]
  }

  function OrTail(y: nat, l: nat): Ir {
    [I(BranchImm(JEQ, y, 0, l + 1)), L(l, AluImm(MOV, y, 1)), I(Ja(l + 2)),
     L(l + 1, AluImm(MOV, y, 0)), L(l + 2, Ja(0))]
  }

  function XorMiddle(x: nat, l: nat): Ir {
    [I(BranchImm(JEQ, x, 0, l))] + SetX(x, 1) + [L(l, Ja(0))]
  }

  function XorTail(x: nat, y: nat, l: nat): Ir {
    [I(BranchImm(JEQ, y, 0, l + 1))] + SetX(y, 1) + [L(l + 1, AluReg(XOR, x, y))]
  }

  function NotTail(x: nat, l: nat): Ir {
    [I(BranchImm(JEQ, x, 0, l)), I(AluImm(MOV, x, 0)), I(Ja(l + 1)), L(l, AluImm(MOV, x, 1)), L(l + 1, Ja(0))]
  }

  function TernaryMiddle(dst: nat, src: nat, l: nat): Ir {
    [I(AluReg(MOV, dst, src)), I(Ja(l + 1)), L(l, Ja(0))]
  }
}
