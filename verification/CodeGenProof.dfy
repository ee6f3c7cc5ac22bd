/** Correctness of the generated code: run from its first node, it leaves the
    expression's value in the result register and keeps every allocated register,
    or it takes the fault exit. */
module CodeGenProof {
  import opened Wrappers
  import opened Arith
  import opened Bpf
  import opened Assembler
  import opened CodeGen

  // ----- reachability -----

  ghost predicate Reaches(env: Env, p: Ir, c: Config, d: Config) {
    exists k: nat :: IrRun(env, p, c, k) == d
  }

  lemma {:induction false} RunAdd(env: Env, p: Ir, c: Config, j: nat, k: nat)
    ensures IrRun(env, p, c, j + k) == IrRun(env, p, IrRun(env, p, c, j), k)
    decreases k
  {
    hide IrStep;
    if k > 0 {
      RunAdd(env, p, c, j, k - 1);
      assert j + k - 1 == j + (k - 1);
    }
  }

  lemma Trans(env: Env, p: Ir, c: Config, d: Config, e: Config)
    requires Reaches(env, p, c, d) && Reaches(env, p, d, e)
    ensures Reaches(env, p, c, e)
  {
    hide IrRun;
    var j: nat :| IrRun(env, p, c, j) == d;
    var k: nat :| IrRun(env, p, d, k) == e;
    RunAdd(env, p, c, j, k);
  }

  lemma Refl(env: Env, p: Ir, c: Config)
    ensures Reaches(env, p, c, c)
  {
    assert IrRun(env, p, c, 0) == c;
  }

  lemma Step(env: Env, p: Ir, c: Config)
    ensures Reaches(env, p, c, IrStep(env, p, c))
  {
    hide IrStep;
    assert IrRun(env, p, c, 1) == IrStep(env, p, IrRun(env, p, c, 0));
  }

  // ----- single instructions -----

  /** Each label is given at most once. */
  ghost predicate Unique(p: Ir) {
    forall i, j :: 0 <= i < |p| && 0 <= j < |p| && p[i].lbl == p[j].lbl != 0 ==> i == j
  }

  lemma FindUnique(p: Ir, i: nat)
    requires Unique(p) && i < |p| && p[i].lbl != 0
    ensures Find(p, p[i].lbl) == i
  {
    assert Find(p, p[i].lbl) <= i;
  }

  lemma StepMov(env: Env, p: Ir, pc: nat, m: Machine, r: nat, v: u64)
    requires pc < |p| && p[pc].insn == AluImm(MOV, r, v)
    ensures Reaches(env, p, At(pc, m), At(pc + 1, m.Set(r, v)))
  {
    Step(env, p, At(pc, m));
  }

  lemma StepSetX(env: Env, p: Ir, pc: nat, m: Machine, r: nat, v: u64)
    requires pc + 1 < |p| && [p[pc], p[pc + 1]] == SetX(r, v)
    ensures Reaches(env, p, At(pc, m), At(pc + 2, m.Set(r, v)))
  {
    Step(env, p, At(pc, m));
  }

  lemma StepAlu(env: Env, p: Ir, pc: nat, m: Machine)
    requires pc < |p| && p[pc].insn.AluReg?
    ensures var i := p[pc].insn;
      Reaches(env, p, At(pc, m), At(pc + 1, m.Set(i.dst, Alu(i.op, m.Get(i.dst), m.Get(i.src)))))
  {
    hide Alu;
    Step(env, p, At(pc, m));
  }

  lemma StepNeg(env: Env, p: Ir, pc: nat, m: Machine)
    requires pc < |p| && p[pc].insn.NegReg?
    ensures var r := p[pc].insn.dst; Reaches(env, p, At(pc, m), At(pc + 1, m.Set(r, W(0 - m.Get(r)))))
  {
    hide W;
    Step(env, p, At(pc, m));
  }

  lemma StepNop(env: Env, p: Ir, pc: nat, m: Machine)
    requires pc < |p| && p[pc].insn == Ja(0)
    ensures Reaches(env, p, At(pc, m), At(pc + 1, m))
  {
    Step(env, p, At(pc, m));
  }

  lemma StepJa(env: Env, p: Ir, pc: nat, m: Machine, t: nat)
    requires Unique(p) && pc < |p| && t < |p| && p[t].lbl != 0 && p[pc].insn == Ja(p[t].lbl)
    ensures Reaches(env, p, At(pc, m), At(t, m))
  {
    FindUnique(p, t);
    Step(env, p, At(pc, m));
  }

  lemma StepBranch(env: Env, p: Ir, pc: nat, m: Machine, t: nat)
    requires Unique(p) && pc < |p| && t < |p| && p[t].lbl != 0
    requires p[pc].insn.BranchImm? && p[pc].insn.off == p[t].lbl
    ensures var i := p[pc].insn;
      Reaches(env, p, At(pc, m), At(if Holds(i.cond, m.Get(i.dst), W(i.imm)) then t else pc + 1, m))
  {
    hide Holds, W;
    FindUnique(p, t);
    Step(env, p, At(pc, m));
  }

  lemma StepBranchReg(env: Env, p: Ir, pc: nat, m: Machine, t: nat)
    requires Unique(p) && pc < |p| && t < |p| && p[t].lbl != 0
    requires p[pc].insn.BranchReg? && p[pc].insn.off == p[t].lbl
    ensures var i := p[pc].insn;
      Reaches(env, p, At(pc, m), At(if Holds(i.cond, m.Get(i.dst), m.Get(i.src)) then t else pc + 1, m))
  {
    hide Holds;
    FindUnique(p, t);
    Step(env, p, At(pc, m));
  }

  // ----- code fragments -----

  /** The code stands at index a of the program. */
  ghost predicate HasAt(p: Ir, a: nat, code: Ir) {
    a + |code| <= |p| && forall i :: 0 <= i < |code| ==> p[a + i] == code[i]
  }

  lemma Split(p: Ir, a: nat, x: Ir, y: Ir)
    requires HasAt(p, a, x + y)
    ensures HasAt(p, a, x) && HasAt(p, a + |x|, y)
  {
    forall i | 0 <= i < |x| ensures p[a + i] == x[i] {
      assert (x + y)[i] == x[i];
    }
    forall i | 0 <= i < |y| ensures p[a + |x| + i] == y[i] {
      assert (x + y)[|x| + i] == y[i];
    }
  }

  // ----- what running a piece of code must achieve -----

  ghost predicate Keeps(act: set<nat>, m: Machine, m': Machine) {
    && |m'.regs| == |m.regs| && m'.mem == m.mem && m'.faults == m.faults
    && forall r :: r in act ==> m'.Get(r) == m.Get(r)
  }

  /** From index a the machine gets to index b with the value in reg and `act` kept,
      or it halts having reported a divide-by-zero fault. */
  ghost predicate Achieves(env: Env, p: Ir, a: nat, b: nat, m: Machine, act: set<nat>, reg: nat, v: Value,
      m': Machine) {
    match v
    case Val(x) => Reaches(env, p, At(a, m), At(b, m')) && Keeps(act, m, m') && m'.Get(reg) == x
    case DivideByZero => Reaches(env, p, At(a, m), Halted(m')) && m'.faults == m.faults + [DIVZERO]
  }

  /** Reporting an error adds its fault code to the record of faults. */
  ghost predicate Reports(env: Env) {
    forall m: Machine :: env.call(PROBE_ERROR, m).faults == m.faults + [m.Get(3)]
  }

  lemma SetGet(m: Machine, r: nat, v: u64, act: set<nat>)
    requires r < |m.regs|
    ensures m.Set(r, v).Get(r) == v && |m.Set(r, v).regs| == |m.regs|
    ensures forall q :: q != r ==> m.Set(r, v).Get(q) == m.Get(q)
    ensures r !in act ==> Keeps(act, m, m.Set(r, v))
  {
  }

  lemma KeepsTrans(act: set<nat>, m: Machine, m': Machine, m'': Machine)
    requires Keeps(act, m, m') && Keeps(act, m', m'')
    ensures Keeps(act, m, m'')
  {
  }

  // ----- registers -----

  lemma {:induction false} AllocFree(act: set<nat>, n: nat)
    ensures var r := Alloc(act, n); r.Some? ==> r.value !in act && r.value < n
    ensures Alloc(act, n).None? <==> forall r :: 0 <= r < n ==> r in act
    decreases n
  {
    if n > 0 {
      AllocFree(act, n - 1);
    }
  }

  /** Compiling nets exactly one new register: the highest one that was free. */
  lemma {:induction false} CompileReg(e: Expr, act: set<nat>, n: nat, l: nat)
    requires Compile(e, act, n, l).Some?
    ensures Alloc(act, n) == Some(Compile(e, act, n, l).value.reg)
    ensures l <= Compile(e, act, n, l).value.next
    decreases e
  {
    match e
    case Const(_) =>
    case Arith(_, _, left, right) =>
      CompileReg(left, act, n, l);
      var a := Compile(left, act, n, l).value;
      CompileReg(right, act + {a.reg}, n, a.next);
    case Compare(_, _, left, right) =>
      CompileReg(left, act, n, l + 2);
      var a := Compile(left, act, n, l + 2).value;
      CompileReg(right, act + {a.reg}, n, a.next);
    case LogicalAnd(left, right) =>
      CompileReg(left, act, n, l + 2);
      CompileReg(right, act, n, Compile(left, act, n, l + 2).value.next);
    case LogicalOr(left, right) =>
      CompileReg(left, act, n, l + 3);
      CompileReg(right, act, n, Compile(left, act, n, l + 3).value.next);
    case LogicalXor(left, right) =>
      CompileReg(left, act, n, l + 2);
      var a := Compile(left, act, n, l + 2).value;
      CompileReg(right, act + {a.reg}, n, a.next);
    case LogicalNot(child) =>
      CompileReg(child, act, n, l + 2);
    case Ternary(cond, left, right) =>
      CompileReg(cond, act, n, l + 2);
      var c := Compile(cond, act, n, l + 2).value;
      CompileReg(left, act, n, c.next);
      CompileReg(right, act, n, Compile(left, act, n, c.next).value.next);
    case Comma(left, right) =>
      CompileReg(left, act, n, l);
      CompileReg(right, act, n, Compile(left, act, n, l).value.next);
    case BitNot(child) =>
      CompileReg(child, act, n, l);
    case Negate(child) =>
      CompileReg(child, act, n, l);
  }

  // ----- the tails of the individual constructs -----

  /** Nothing but the registers in rs has changed. */
  ghost predicate Only(rs: set<nat>, m: Machine, m': Machine) {
    && |m'.regs| == |m.regs| && m'.mem == m.mem && m'.faults == m.faults
    && forall r :: r !in rs ==> m'.Get(r) == m.Get(r)
  }

  lemma OnlyKeeps(rs: set<nat>, act: set<nat>, m: Machine, m': Machine)
    requires Only(rs, m, m') && rs !! act
    ensures Keeps(act, m, m')
  {
  }

  lemma RunCompareTail(env: Env, p: Ir, a: nat, m: Machine, c: Cond, x: nat, y: nat, l: nat) returns (m': Machine)
    requires Unique(p) && HasAt(p, a, CompareTail(c, x, y, l)) && l > 0 && x < |m.regs|
    ensures Reaches(env, p, At(a, m), At(a + 5, m'))
    ensures Only({x}, m, m') && m'.Get(x) == Truth(Holds(c, m.Get(x), m.Get(y)))
  {
    hide Holds, Reaches, Unique, Find;
    var t := CompareTail(c, x, y, l);
    assert p[a] == t[0] && p[a + 1] == t[1] && p[a + 2] == t[2] && p[a + 3] == t[3] && p[a + 4] == t[4];
    StepBranchReg(env, p, a, m, a + 3);
    if Holds(c, m.Get(x), m.Get(y)) {
      m' := m.Set(x, 1);
      StepMov(env, p, a + 3, m, x, 1);
      Trans(env, p, At(a, m), At(a + 3, m), At(a + 4, m'));
    } else {
      m' := m.Set(x, 0);
      StepMov(env, p, a + 1, m, x, 0);
      StepJa(env, p, a + 2, m', a + 4);
      Trans(env, p, At(a, m), At(a + 1, m), At(a + 2, m'));
      Trans(env, p, At(a, m), At(a + 2, m'), At(a + 4, m'));
    }
    StepNop(env, p, a + 4, m');
    Trans(env, p, At(a, m), At(a + 4, m'), At(a + 5, m'));
  }

  lemma RunNotTail(env: Env, p: Ir, a: nat, m: Machine, x: nat, l: nat) returns (m': Machine)
    requires Unique(p) && HasAt(p, a, NotTail(x, l)) && l > 0 && x < |m.regs|
    ensures Reaches(env, p, At(a, m), At(a + 5, m'))
    ensures Only({x}, m, m') && m'.Get(x) == Truth(m.Get(x) == 0)
  {
    hide Reaches, Unique, Find;
    var t := NotTail(x, l);
    assert p[a] == t[0] && p[a + 1] == t[1] && p[a + 2] == t[2] && p[a + 3] == t[3] && p[a + 4] == t[4];
    StepBranch(env, p, a, m, a + 3);
    if m.Get(x) == 0 {
      m' := m.Set(x, 1);
      StepMov(env, p, a + 3, m, x, 1);
      Trans(env, p, At(a, m), At(a + 3, m), At(a + 4, m'));
    } else {
      m' := m.Set(x, 0);
      StepMov(env, p, a + 1, m, x, 0);
      StepJa(env, p, a + 2, m', a + 4);
      Trans(env, p, At(a, m), At(a + 1, m), At(a + 2, m'));
      Trans(env, p, At(a, m), At(a + 2, m'), At(a + 4, m'));
    }
    StepNop(env, p, a + 4, m');
    Trans(env, p, At(a, m), At(a + 4, m'), At(a + 5, m'));
  }

  /** Second half of `&&`: entered at its start with the right operand in y. */
  lemma RunAndTail(env: Env, p: Ir, a: nat, m: Machine, y: nat, l: nat) returns (m': Machine)
    requires Unique(p) && HasAt(p, a, AndTail(y, l)) && l > 0 && y < |m.regs|
    ensures Reaches(env, p, At(a, m), At(a + 6, m'))
    ensures Only({y}, m, m') && m'.Get(y) == Truth(m.Get(y) != 0)
  {
    hide Reaches, Unique, Find;
    AndTailNodes(p, a, y, l);
    StepBranch(env, p, a, m, a + 4);
    if m.Get(y) == 0 {
      m' := RunAndFalse(env, p, a, m, y, l);
      Trans(env, p, At(a, m), At(a + 4, m), At(a + 6, m'));
    } else {
      m' := m.Set(y, 1);
      StepSetX(env, p, a + 1, m, y, 1);
      StepJa(env, p, a + 3, m', a + 5);
      StepNop(env, p, a + 5, m');
      Trans(env, p, At(a, m), At(a + 1, m), At(a + 3, m'));
      Trans(env, p, At(a, m), At(a + 3, m'), At(a + 5, m'));
      Trans(env, p, At(a, m), At(a + 5, m'), At(a + 6, m'));
    }
  }

  lemma AndTailNodes(p: Ir, a: nat, y: nat, l: nat)
    requires HasAt(p, a, AndTail(y, l))
    ensures a + 6 <= |p| && p[a] == I(BranchImm(JEQ, y, 0, l)) && [p[a + 1], p[a + 2]] == SetX(y, 1)
    ensures p[a + 3] == I(Ja(l + 1)) && p[a + 4] == L(l, AluImm(MOV, y, 0)) && p[a + 5] == L(l + 1, Ja(0))
  {
    var t := AndTail(y, l);
    assert p[a] == t[0] && p[a + 1] == t[1] && p[a + 2] == t[2] &&
      p[a + 3] == t[3] && p[a + 4] == t[4] && p[a + 5] == t[5];
  }

  lemma RunAndFalse(env: Env, p: Ir, a: nat, m: Machine, y: nat, l: nat) returns (m': Machine)
    requires Unique(p) && HasAt(p, a, AndTail(y, l)) && l > 0 && y < |m.regs|
    ensures Reaches(env, p, At(a + 4, m), At(a + 6, m'))
    ensures Only({y}, m, m') && m'.Get(y) == 0
  {
    hide Reaches, Unique, Find;
    AndTailNodes(p, a, y, l);
    m' := m.Set(y, 0);
    StepMov(env, p, a + 4, m, y, 0);
    StepNop(env, p, a + 5, m');
    Trans(env, p, At(a + 4, m), At(a + 5, m'), At(a + 6, m'));
  }

  /** Second half of `||`. */
  lemma RunOrTail(env: Env, p: Ir, a: nat, m: Machine, y: nat, l: nat) returns (m': Machine)
    requires Unique(p) && HasAt(p, a, OrTail(y, l)) && l > 0 && y < |m.regs|
    ensures Reaches(env, p, At(a, m), At(a + 5, m'))
    ensures Only({y}, m, m') && m'.Get(y) == Truth(m.Get(y) != 0)
  {
    hide Reaches, Unique, Find;
    OrTailNodes(p, a, y, l);
    StepBranch(env, p, a, m, a + 3);
    if m.Get(y) == 0 {
      m' := m.Set(y, 0);
      StepMov(env, p, a + 3, m, y, 0);
      StepNop(env, p, a + 4, m');
      Trans(env, p, At(a, m), At(a + 3, m), At(a + 4, m'));
      Trans(env, p, At(a, m), At(a + 4, m'), At(a + 5, m'));
    } else {
      m' := RunOrTrue(env, p, a, m, y, l);
      Trans(env, p, At(a, m), At(a + 1, m), At(a + 5, m'));
    }
  }

  lemma OrTailNodes(p: Ir, a: nat, y: nat, l: nat)
    requires HasAt(p, a, OrTail(y, l))
    ensures a + 5 <= |p| && p[a] == I(BranchImm(JEQ, y, 0, l + 1)) && p[a + 1] == L(l, AluImm(MOV, y, 1))
    ensures p[a + 2] == I(Ja(l + 2)) && p[a + 3] == L(l + 1, AluImm(MOV, y, 0)) && p[a + 4] == L(l + 2, Ja(0))
  {
    var t := OrTail(y, l);
    assert p[a] == t[0] && p[a + 1] == t[1] && p[a + 2] == t[2] && p[a + 3] == t[3] && p[a + 4] == t[4];
  }

  lemma RunOrTrue(env: Env, p: Ir, a: nat, m: Machine, y: nat, l: nat) returns (m': Machine)
    requires Unique(p) && HasAt(p, a, OrTail(y, l)) && l > 0 && y < |m.regs|
    ensures Reaches(env, p, At(a + 1, m), At(a + 5, m'))
    ensures Only({y}, m, m') && m'.Get(y) == 1
  {
    hide Reaches, Unique, Find;
    OrTailNodes(p, a, y, l);
    m' := m.Set(y, 1);
    StepMov(env, p, a + 1, m, y, 1);
    StepJa(env, p, a + 2, m', a + 4);
    StepNop(env, p, a + 4, m');
    Trans(env, p, At(a + 1, m), At(a + 2, m'), At(a + 4, m'));
    Trans(env, p, At(a + 1, m), At(a + 4, m'), At(a + 5, m'));
  }

  lemma RunXorMiddle(env: Env, p: Ir, a: nat, m: Machine, x: nat, l: nat) returns (m': Machine)
    requires Unique(p) && HasAt(p, a, XorMiddle(x, l)) && l > 0 && x < |m.regs|
    ensures Reaches(env, p, At(a, m), At(a + 4, m'))
    ensures Only({x}, m, m') && m'.Get(x) == Truth(m.Get(x) != 0)
  {
    hide Reaches, Unique, Find;
    var t := XorMiddle(x, l);
    assert p[a] == t[0] && p[a + 1] == t[1] && p[a + 2] == t[2] && p[a + 3] == t[3];
    StepBranch(env, p, a, m, a + 3);
    m' := m;
    if m.Get(x) != 0 {
      m' := m.Set(x, 1);
      StepSetX(env, p, a + 1, m, x, 1);
      Trans(env, p, At(a, m), At(a + 1, m), At(a + 3, m'));
    }
    StepNop(env, p, a + 3, m');
    Trans(env, p, At(a, m), At(a + 3, m'), At(a + 4, m'));
  }

  lemma RunXorTail(env: Env, p: Ir, a: nat, m: Machine, x: nat, y: nat, l: nat) returns (m': Machine)
    requires Unique(p) && HasAt(p, a, XorTail(x, y, l)) && l > 0 && x < |m.regs| && y < |m.regs| && x != y
    requires m.Get(x) <= 1
    ensures Reaches(env, p, At(a, m), At(a + 4, m'))
    ensures Only({x, y}, m, m') && m'.Get(x) == Truth((m.Get(x) != 0) != (m.Get(y) != 0))
  {
    hide Reaches, Unique, Find, Xor;
    var t := XorTail(x, y, l);
    assert p[a] == t[0] && p[a + 1] == t[1] && p[a + 2] == t[2] && p[a + 3] == t[3];
    StepBranch(env, p, a, m, a + 3);
    var m1 := m;
    if m.Get(y) != 0 {
      m1 := m.Set(y, 1);
      StepSetX(env, p, a + 1, m, y, 1);
      Trans(env, p, At(a, m), At(a + 1, m), At(a + 3, m1));
    }
    XorTruth(m1.Get(x), m1.Get(y));
    StepAlu(env, p, a + 3, m1);
    m' := m1.Set(x, Alu(XOR, m1.Get(x), m1.Get(y)));
    Trans(env, p, At(a, m), At(a + 3, m1), At(a + 4, m'));
  }

  // ----- the fault exit -----

  lemma {:induction false} RunSaves(env: Env, p: Ir, a: nat, m: Machine, act: set<nat>, rs: seq<nat>)
    returns (m': Machine)
    requires HasAt(p, a, Saves(act, rs))
    ensures Reaches(env, p, At(a, m), At(a + |Saves(act, rs)|, m'))
    ensures m'.regs == m.regs && m'.faults == m.faults
    decreases rs
  {
    hide Reaches;
    m' := m;
    if rs == [] {
      Refl(env, p, At(a, m));
    } else {
      var first := if rs[0] in act then [I(Store(FP, SpillSlot(rs[0]), rs[0]))] else [];
      Split(p, a, first, Saves(act, rs[1..]));
      if rs[0] in act {
        assert p[a] == first[0];
        Step(env, p, At(a, m));
        m' := m.Write(m.Get(FP) + SpillSlot(rs[0]), m.Get(rs[0]));
      } else {
        Refl(env, p, At(a, m));
      }
      var b := a + |first|;
      var m'' := RunSaves(env, p, b, m', act, rs[1..]);
      Trans(env, p, At(a, m), At(b, m'), At(b + |Saves(act, rs[1..])|, m''));
      m' := m'';
    }
  }

  lemma {:induction false} RunRestores(env: Env, p: Ir, a: nat, m: Machine, act: set<nat>, rs: seq<nat>)
    returns (m': Machine)
    requires HasAt(p, a, Restores(act, rs))
    ensures Reaches(env, p, At(a, m), At(a + |Restores(act, rs)|, m'))
    ensures m'.faults == m.faults
    decreases rs
  {
    hide Reaches;
    m' := m;
    if rs == [] {
      Refl(env, p, At(a, m));
    } else {
      var first := if rs[0] in act then [I(Load(rs[0], FP, SpillSlot(rs[0])))] else [];
      Split(p, a, first, Restores(act, rs[1..]));
      if rs[0] in act {
        assert p[a] == first[0];
        Step(env, p, At(a, m));
        m' := m.Set(rs[0], m.Read(m.Get(FP) + SpillSlot(rs[0])));
      } else {
        Refl(env, p, At(a, m));
      }
      var b := a + |first|;
      var m'' := RunRestores(env, p, b, m', act, rs[1..]);
      Trans(env, p, At(a, m), At(b, m'), At(b + |Restores(act, rs[1..])|, m''));
      m' := m'';
    }
  }

  lemma RunFaultArgs(env: Env, p: Ir, a: nat, m: Machine, fault: u64) returns (m': Machine)
    requires HasAt(p, a, FaultArgs(fault)) && |m.regs| > 4
    ensures Reaches(env, p, At(a, m), At(a + 4, m'))
    ensures m'.Get(3) == fault && m'.faults == m.faults
  {
    hide Reaches;
    var t := FaultArgs(fault);
    assert p[a] == t[0] && p[a + 1] == t[1] && p[a + 2] == t[2] && p[a + 3] == t[3];
    var m1 := m.Set(1, m.Read(m.Get(FP) + STK_DCTX));
    var m2 := m1.Set(2, W(-1));
    var m3 := m2.Set(3, fault);
    m' := m3.Set(4, 0);
    Step(env, p, At(a, m));
    Step(env, p, At(a + 1, m1));
    StepMov(env, p, a + 2, m2, 3, fault);
    StepMov(env, p, a + 3, m3, 4, 0);
    Trans(env, p, At(a, m), At(a + 1, m1), At(a + 2, m2));
    Trans(env, p, At(a, m), At(a + 2, m2), At(a + 3, m3));
    Trans(env, p, At(a, m), At(a + 3, m3), At(a + 4, m'));
  }

  lemma FaultParts(p: Ir, a: nat, act: set<nat>, fault: nat)
    requires HasAt(p, a, FaultCode(act, fault))
    ensures var b := a + |Saves(act, ARGS)|; var c := b + 4 + |Saves(act, [0])|; var d := c + 1 + |Restores(act, ARGS)|;
      var e := d + |Restores(act, [0])|;
      && HasAt(p, a, Saves(act, ARGS)) && HasAt(p, b, FaultArgs(fault)) && HasAt(p, b + 4, Saves(act, [0]))
      && c < |p| && p[c].insn == CallFunc(PROBE_ERROR)
      && HasAt(p, c + 1, Restores(act, ARGS)) && HasAt(p, d, Restores(act, [0]))
      && e < |p| && p[e].insn == Exit && e + 1 == a + |FaultCode(act, fault)|
  {
    hide Saves, Restores;
    var s, t, u, v, w := Saves(act, ARGS), FaultArgs(fault), Saves(act, [0]), Restores(act, ARGS), Restores(act, [0]);
    var call := [Node(0, CallFunc(PROBE_ERROR), Some(PROBE_ERROR))];
    var stop := [I(Exit)];
    Split(p, a, s + t + u + call + v + w, stop);
    Split(p, a, s + t + u + call + v, w);
    Split(p, a, s + t + u + call, v);
    Split(p, a, s + t + u, call);
    Split(p, a, s + t, u);
    Split(p, a, s, t);
    var c := a + |s + t + u|;
    assert p[c] == call[0];
    var e := a + |s + t + u + call + v + w|;
    assert p[e] == stop[0];
  }

  lemma RunFault(env: Env, p: Ir, a: nat, m: Machine, act: set<nat>, fault: u64) returns (m': Machine)
    requires HasAt(p, a, FaultCode(act, fault)) && |m.regs| > 4 && Reports(env)
    ensures Reaches(env, p, At(a, m), Halted(m')) && m'.faults == m.faults + [fault]
  {
    hide Reaches, Saves, Restores, HasAt, FaultCode, FaultArgs;
    FaultParts(p, a, act, fault);
    var b := a + |Saves(act, ARGS)|;
    var c := b + 4 + |Saves(act, [0])|;
    var d := c + 1 + |Restores(act, ARGS)|;
    var e := d + |Restores(act, [0])|;
    var m1 := RunSaves(env, p, a, m, act, ARGS);
    var m2 := RunFaultArgs(env, p, b, m1, fault);
    var m3 := RunSaves(env, p, b + 4, m2, act, [0]);
    var m4 := env.call(PROBE_ERROR, m3);
    Step(env, p, At(c, m3));
    var m5 := RunRestores(env, p, c + 1, m4, act, ARGS);
    m' := RunRestores(env, p, d, m5, act, [0]);
    Step(env, p, At(e, m'));
    Trans(env, p, At(a, m), At(b, m1), At(b + 4, m2));
    Trans(env, p, At(a, m), At(b + 4, m2), At(c, m3));
    Trans(env, p, At(a, m), At(c, m3), At(c + 1, m4));
    Trans(env, p, At(a, m), At(c + 1, m4), At(d, m5));
    Trans(env, p, At(a, m), At(d, m5), At(e, m'));
    Trans(env, p, At(a, m), At(e, m'), Halted(m'));
  }

  // ----- signed division -----

  /** Value of the sequence on nonzero divisors. */
  function SignedResult(op: AluOp, x: u64, y: u64): u64
    requires y != 0
  {
    var q := Alu(op, Abs(S(x)), Abs(S(y)));
    if (S(x) < 0) != (S(y) < 0) then W(0 - q) else q
  }

  lemma SignedResultMeaning(x: u64, y: u64)
    requires y != 0
    ensures SignedResult(DIV, x, y) == W(TruncDiv(S(x), S(y)))
    ensures SignedResult(MOD, x, y) == W(EmittedMod(S(x), S(y)))
  {
    var a, b := Abs(S(x)), Abs(S(y));
    QuotientSmall(a, b);
    assert Alu(DIV, a, b) == a / b && Alu(MOD, a, b) == a % b;
  }

  /** From L2: divide, negate, leave. */
  lemma RunDifferentSigns(env: Env, p: Ir, a: nat, m: Machine, op: AluOp, x: nat, y: nat, l: nat) returns (m': Machine)
    requires Unique(p) && HasAt(p, a, DivisionBody(op, x, y, l)) && l > 0 && x < |m.regs| && y < |m.regs| && x != y
    ensures Reaches(env, p, At(a + 5, m), At(a + 13, m'))
    ensures Only({x}, m, m') && m'.Get(x) == W(0 - Alu(op, m.Get(x), m.Get(y)))
  {
    hide Reaches, Unique, Find, Alu, W;
    var t := DivisionBody(op, x, y, l);
    assert p[a + 5] == t[5] && p[a + 6] == t[6] && p[a + 7] == t[7] && p[a + 12] == t[12];
    var m1 := m.Set(x, Alu(op, m.Get(x), m.Get(y)));
    m' := m1.Set(x, W(0 - m1.Get(x)));
    StepAlu(env, p, a + 5, m);
    StepNeg(env, p, a + 6, m1);
    StepJa(env, p, a + 7, m', a + 12);
    StepNop(env, p, a + 12, m');
    Trans(env, p, At(a + 5, m), At(a + 6, m1), At(a + 7, m'));
    Trans(env, p, At(a + 5, m), At(a + 7, m'), At(a + 12, m'));
    Trans(env, p, At(a + 5, m), At(a + 12, m'), At(a + 13, m'));
  }

  /** From L4: divide, leave. */
  lemma RunSameSigns(env: Env, p: Ir, a: nat, m: Machine, op: AluOp, x: nat, y: nat, l: nat) returns (m': Machine)
    requires Unique(p) && HasAt(p, a, DivisionBody(op, x, y, l)) && l > 0 && x < |m.regs| && y < |m.regs| && x != y
    ensures Reaches(env, p, At(a + 11, m), At(a + 13, m'))
    ensures Only({x}, m, m') && m'.Get(x) == Alu(op, m.Get(x), m.Get(y))
  {
    hide Reaches, Unique, Find, Alu;
    var t := DivisionBody(op, x, y, l);
    assert p[a + 11] == t[11] && p[a + 12] == t[12];
    m' := m.Set(x, Alu(op, m.Get(x), m.Get(y)));
    StepAlu(env, p, a + 11, m);
    StepNop(env, p, a + 12, m');
    Trans(env, p, At(a + 11, m), At(a + 12, m'), At(a + 13, m'));
  }

  lemma SignFacts(v: u64)
    ensures Holds(JSLT, v, W(0)) <==> S(v) < 0
    ensures Holds(JSGE, v, W(0)) <==> S(v) >= 0
    ensures S(v) < 0 ==> W(0 - v) == Abs(S(v))
    ensures S(v) >= 0 ==> v == Abs(S(v))
  {
  }

  /** Dividend not negative. */
  lemma RunDivisionPos(env: Env, p: Ir, a: nat, m: Machine, op: AluOp, x: nat, y: nat, l: nat) returns (m': Machine)
    requires Unique(p) && HasAt(p, a, DivisionBody(op, x, y, l)) && l > 0 && x < |m.regs| && y < |m.regs| && x != y
    requires m.Get(y) != 0 && S(m.Get(x)) >= 0
    ensures Reaches(env, p, At(a + 2, m), At(a + 13, m'))
    ensures Only({x, y}, m, m') && m'.Get(x) == SignedResult(op, m.Get(x), m.Get(y))
  {
    hide Reaches, Unique, Find, Alu, W, S, Holds;
    var t := DivisionBody(op, x, y, l);
    assert p[a + 2] == t[2] && p[a + 3] == t[3] && p[a + 4] == t[4] && p[a + 11] == t[11];
    SignFacts(m.Get(x));
    SignFacts(m.Get(y));
    StepBranch(env, p, a + 2, m, a + 4);
    if S(m.Get(y)) < 0 {
      StepNeg(env, p, a + 4, m);
      var m1 := m.Set(y, W(0 - m.Get(y)));
      m' := RunDifferentSigns(env, p, a, m1, op, x, y, l);
      Trans(env, p, At(a + 2, m), At(a + 4, m), At(a + 5, m1));
      Trans(env, p, At(a + 2, m), At(a + 5, m1), At(a + 13, m'));
    } else {
      StepJa(env, p, a + 3, m, a + 11);
      m' := RunSameSigns(env, p, a, m, op, x, y, l);
      Trans(env, p, At(a + 2, m), At(a + 3, m), At(a + 11, m));
      Trans(env, p, At(a + 2, m), At(a + 11, m), At(a + 13, m'));
    }
  }

  /** Dividend negative. */
  lemma RunDivisionNeg(env: Env, p: Ir, a: nat, m: Machine, op: AluOp, x: nat, y: nat, l: nat) returns (m': Machine)
    requires Unique(p) && HasAt(p, a, DivisionBody(op, x, y, l)) && l > 0 && x < |m.regs| && y < |m.regs| && x != y
    requires m.Get(y) != 0 && S(m.Get(x)) < 0
    ensures Reaches(env, p, At(a + 8, m), At(a + 13, m'))
    ensures Only({x, y}, m, m') && m'.Get(x) == SignedResult(op, m.Get(x), m.Get(y))
  {
    hide Reaches, Unique, Find, Alu, W, S, Holds;
    var t := DivisionBody(op, x, y, l);
    assert p[a + 8] == t[8] && p[a + 9] == t[9] && p[a + 10] == t[10] && p[a + 5] == t[5];
    SignFacts(m.Get(x));
    SignFacts(m.Get(y));
    StepNeg(env, p, a + 8, m);
    var m1 := m.Set(x, W(0 - m.Get(x)));
    StepBranch(env, p, a + 9, m1, a + 5);
    if S(m.Get(y)) >= 0 {
      m' := RunDifferentSigns(env, p, a, m1, op, x, y, l);
      Trans(env, p, At(a + 8, m), At(a + 9, m1), At(a + 5, m1));
      Trans(env, p, At(a + 8, m), At(a + 5, m1), At(a + 13, m'));
    } else {
      StepNeg(env, p, a + 10, m1);
      var m2 := m1.Set(y, W(0 - m1.Get(y)));
      m' := RunSameSigns(env, p, a, m2, op, x, y, l);
      Trans(env, p, At(a + 8, m), At(a + 9, m1), At(a + 10, m1));
      Trans(env, p, At(a + 8, m), At(a + 10, m1), At(a + 11, m2));
      Trans(env, p, At(a + 8, m), At(a + 11, m2), At(a + 13, m'));
    }
  }

  /** The whole sequence: fault exit on a zero divisor, else the signed result. */
  lemma RunDivision(env: Env, p: Ir, a: nat, m: Machine, op: AluOp, x: nat, y: nat, act: set<nat>, l: nat)
    returns (m': Machine)
    requires Unique(p) && HasAt(p, a, SignedDivision(op, x, y, act, l)) && l > 0 && Reports(env)
    requires x < |m.regs| && y < |m.regs| && x != y && |m.regs| > 4
    ensures m.Get(y) == 0 ==> Reaches(env, p, At(a, m), Halted(m')) && m'.faults == m.faults + [DIVZERO]
    ensures m.Get(y) != 0 ==> Reaches(env, p, At(a, m), At(a + |SignedDivision(op, x, y, act, l)|, m'))
    ensures m.Get(y) != 0 ==> Only({x, y}, m, m') && m'.Get(x) == SignedResult(op, m.Get(x), m.Get(y))
  {
    hide Reaches, Unique, Find, Alu, W, S, Holds, FaultCode;
    var fault, body := FaultCode(act, DIVZERO), DivisionBody(op, x, y, l);
    var b := a + 1 + |fault|;
    Split(p, a, [I(BranchImm(JNE, y, 0, l + 5))] + fault, body);
    Split(p, a, [I(BranchImm(JNE, y, 0, l + 5))], fault);
    assert p[a] == [I(BranchImm(JNE, y, 0, l + 5))][0];
    assert p[b] == body[0] && p[b + 1] == body[1] && p[b + 8] == body[8];
    StepBranch(env, p, a, m, b);
    ZeroTest(m.Get(y));
    if m.Get(y) == 0 {
      m' := RunFault(env, p, a + 1, m, act, DIVZERO);
      Trans(env, p, At(a, m), At(a + 1, m), Halted(m'));
    } else {
      SignFacts(m.Get(x));
      StepNop(env, p, b, m);
      StepBranch(env, p, b + 1, m, b + 8);
      Trans(env, p, At(a, m), At(b, m), At(b + 1, m));
      if S(m.Get(x)) < 0 {
        m' := RunDivisionNeg(env, p, b, m, op, x, y, l);
        Trans(env, p, At(a, m), At(b + 1, m), At(b + 8, m));
        Trans(env, p, At(a, m), At(b + 8, m), At(b + 13, m'));
      } else {
        m' := RunDivisionPos(env, p, b, m, op, x, y, l);
        Trans(env, p, At(a, m), At(b + 1, m), At(b + 2, m));
        Trans(env, p, At(a, m), At(b + 2, m), At(b + 13, m'));
      }
    }
  }

  lemma ZeroTest(v: u64)
    ensures Holds(JNE, v, W(0)) <==> v != 0
    ensures Holds(JEQ, v, W(0)) <==> v == 0
  {
  }

  // ----- the theorem -----

  /** A program in which e's code, made with next label l, stands at index a. */
  ghost predicate Placed(e: Expr, act: set<nat>, n: nat, l: nat, env: Env, p: Ir, a: nat, m: Machine) {
    && Compile(e, act, n, l).Some? && HasAt(p, a, Compile(e, act, n, l).value.code)
    && Unique(p) && l > 0 && Reports(env) && n <= |m.regs| && |m.regs| > 4
  }

  /** Running e's code achieves e's value. */
  lemma {:induction false} RunExpr(e: Expr, act: set<nat>, n: nat, l: nat, env: Env, p: Ir, a: nat, m: Machine)
    returns (m': Machine)
    requires Placed(e, act, n, l, env, p, a, m)
    ensures var o := Compile(e, act, n, l).value;
      Achieves(env, p, a, a + |o.code|, m, act, o.reg, Eval(e), m')
    decreases e, 2
  {
    hide Achieves, Placed, Eval, Compile;
    match e
    case Const(_) => m' := RunConst(e, act, n, l, env, p, a, m);
    case Arith(_, _, _, _) => m' := RunArith(e, act, n, l, env, p, a, m);
    case Compare(_, _, _, _) => m' := RunCompare(e, act, n, l, env, p, a, m);
    case LogicalAnd(_, _) => m' := RunAnd(e, act, n, l, env, p, a, m);
    case LogicalOr(_, _) => m' := RunOr(e, act, n, l, env, p, a, m);
    case LogicalXor(_, _) => m' := RunXor(e, act, n, l, env, p, a, m);
    case LogicalNot(_) => m' := RunNot(e, act, n, l, env, p, a, m);
    case Ternary(_, _, _) => m' := RunTernary(e, act, n, l, env, p, a, m);
    case Comma(_, _) => m' := RunComma(e, act, n, l, env, p, a, m);
    case BitNot(_) => m' := RunUnary(e, act, n, l, env, p, a, m);
    case Negate(_) => m' := RunUnary(e, act, n, l, env, p, a, m);
  }

  lemma RunConst(e: Expr, act: set<nat>, n: nat, l: nat, env: Env, p: Ir, a: nat, m: Machine) returns (m': Machine)
    requires Placed(e, act, n, l, env, p, a, m) && e.Const?
    ensures var o := Compile(e, act, n, l).value;
      Achieves(env, p, a, a + |o.code|, m, act, o.reg, Eval(e), m')
    decreases e, 1
  {
    hide Reaches, Unique, SetX, Reports;
    var o := Compile(e, act, n, l).value;
    AllocFree(act, n);
    m' := m.Set(o.reg, e.value);
    SetGet(m, o.reg, e.value, act);
    if e.value > 0x7fff_ffff {
      SetXNodes(p, a, o.reg, e.value);
      StepSetX(env, p, a, m, o.reg, e.value);
    } else {
      assert p[a] == o.code[0];
      StepMov(env, p, a, m, o.reg, e.value);
    }
  }

  lemma SetXNodes(p: Ir, a: nat, r: nat, v: u64)
    requires HasAt(p, a, SetX(r, v))
    ensures |SetX(r, v)| == 2 && a + 1 < |p| && [p[a], p[a + 1]] == SetX(r, v)
  {
    assert p[a] == SetX(r, v)[0] && p[a + 1] == SetX(r, v)[1];
  }

  /** The expression below e that follows other code in the same program. */
  lemma Sub(e: Expr, act: set<nat>, n: nat, l: nat, env: Env, p: Ir, a: nat, m: Machine)
    requires Compile(e, act, n, l).Some? && HasAt(p, a, Compile(e, act, n, l).value.code)
    requires Unique(p) && l > 0 && Reports(env) && n <= |m.regs| && |m.regs| > 4
    ensures Placed(e, act, n, l, env, p, a, m)
    ensures var r := Compile(e, act, n, l).value.reg; r < n && r !in act && Compile(e, act, n, l).value.next > 0
  {
    hide Compile, HasAt, Unique, Reports;
    CompileReg(e, act, n, l);
    AllocFree(act, n);
  }

  /** Both operands of a strict operator: the left register is kept while the right one is computed. */
  lemma RunBoth(e: Expr, act: set<nat>, n: nat, l: nat, env: Env, p: Ir, a: nat, m: Machine) returns (m': Machine)
    requires (e.Arith? || e.Compare?) && Placed(e.left, act, n, l, env, p, a, m)
    requires var o := Compile(e.left, act, n, l).value;
      && Compile(e.right, act + {o.reg}, n, o.next).Some?
      && HasAt(p, a + |o.code|, Compile(e.right, act + {o.reg}, n, o.next).value.code)
    ensures var o := Compile(e.left, act, n, l).value; var q := Compile(e.right, act + {o.reg}, n, o.next).value;
      var b := a + |o.code|; var c := b + |q.code|;
      && o.reg < n && q.reg < n && o.reg !in act && q.reg !in act && o.reg != q.reg && q.next > 0
      && (Eval(e.left).DivideByZero? || Eval(e.right).DivideByZero? ==>
            Reaches(env, p, At(a, m), Halted(m')) && m'.faults == m.faults + [DIVZERO])
      && (Eval(e.left).Val? && Eval(e.right).Val? ==>
            && Reaches(env, p, At(a, m), At(c, m')) && Keeps(act, m, m')
            && m'.Get(o.reg) == Eval(e.left).v && m'.Get(q.reg) == Eval(e.right).v)
    decreases e, 0
  {
    hide Reaches, Eval, Compile, HasAt, Unique, Reports;
    var o := Compile(e.left, act, n, l).value;
    var b := a + |o.code|;
    Sub(e.left, act, n, l, env, p, a, m);
    Sub(e.right, act + {o.reg}, n, o.next, env, p, b, m);
    m' := RunExpr(e.left, act, n, l, env, p, a, m);
    if Eval(e.left).Val? {
      var m1 := m';
      Sub(e.right, act + {o.reg}, n, o.next, env, p, b, m1);
      m' := RunExpr(e.right, act + {o.reg}, n, o.next, env, p, b, m1);
      var q := Compile(e.right, act + {o.reg}, n, o.next).value;
      if Eval(e.right).Val? {
        Trans(env, p, At(a, m), At(b, m1), At(b + |q.code|, m'));
      } else {
        Trans(env, p, At(a, m), At(b, m1), Halted(m'));
      }
    }
  }

  lemma RunArith(e: Expr, act: set<nat>, n: nat, l: nat, env: Env, p: Ir, a: nat, m: Machine) returns (m': Machine)
    requires Placed(e, act, n, l, env, p, a, m) && e.Arith?
    ensures var o := Compile(e, act, n, l).value;
      Achieves(env, p, a, a + |o.code|, m, act, o.reg, Eval(e), m')
    decreases e, 1
  {
    hide Reaches, Unique, Reports, Alu, SignedDivision, ArithValue;
    var o := Compile(e.left, act, n, l).value;
    var q := Compile(e.right, act + {o.reg}, n, o.next).value;
    var c := a + |o.code| + |q.code|;
    var tail := Compile(e, act, n, l).value.code[|o.code + q.code|..];
    assert Compile(e, act, n, l).value.code == o.code + q.code + tail;
    Split(p, a, o.code + q.code, tail);
    Split(p, a, o.code, q.code);
    hide HasAt;
    Sub(e.left, act, n, l, env, p, a, m);
    m' := RunBoth(e, act, n, l, env, p, a, m);
    if Eval(e.left).Val? && Eval(e.right).Val? {
      var m1 := m';
      m' := RunArithTail(env, p, c, m1, e, act, o.reg, q.reg, q.next, tail);
      var v := ArithValue(e.op, e.signed, Eval(e.left).v, Eval(e.right).v);
      if v.Val? {
        Trans(env, p, At(a, m), At(c, m1), At(c + |tail|, m'));
        KeepsTrans(act, m, m1, m');
      } else {
        Trans(env, p, At(a, m), At(c, m1), Halted(m'));
      }
    }
  }

  lemma RunArithTail(env: Env, p: Ir, c: nat, m: Machine, e: Expr, act: set<nat>, x: nat, y: nat, l: nat, tail: Ir)
    returns (m': Machine)
    requires e.Arith? && Unique(p) && HasAt(p, c, tail) && l > 0 && Reports(env) && |m.regs| > 4
    requires x < |m.regs| && y < |m.regs| && x != y && x !in act && y !in act
    requires tail == if NeedsSignedDivision(e.op, e.signed) then
      SignedDivision(AluFor(e.op, e.signed), x, y, act + {x, y}, l)
                     else [I(AluReg(AluFor(e.op, e.signed), x, y))]
    ensures Achieves(env, p, c, c + |tail|, m, act, x, ArithValue(e.op, e.signed, m.Get(x), m.Get(y)), m')
  {
    hide Reaches, Unique, Reports, SignedDivision, TruncDiv, EmittedMod, W, S, Xor, And, Or, Quotient, Remainder;
    if NeedsSignedDivision(e.op, e.signed) {
      m' := RunDivision(env, p, c, m, AluFor(e.op, e.signed), x, y, act + {x, y}, l);
      if m.Get(y) != 0 {
        SignedResultMeaning(m.Get(x), m.Get(y));
        OnlyKeeps({x, y}, act, m, m');
      }
    } else {
      assert p[c] == tail[0];
      StepAlu(env, p, c, m);
      var v := Alu(AluFor(e.op, e.signed), m.Get(x), m.Get(y));
      m' := m.Set(x, v);
      SetGet(m, x, v, act);
    }
  }

  lemma RunCompare(e: Expr, act: set<nat>, n: nat, l: nat, env: Env, p: Ir, a: nat, m: Machine) returns (m': Machine)
    requires Placed(e, act, n, l, env, p, a, m) && e.Compare?
    ensures var o := Compile(e, act, n, l).value;
      Achieves(env, p, a, a + |o.code|, m, act, o.reg, Eval(e), m')
    decreases e, 1
  {
    hide Reaches, Unique, Reports, Compile, HasAt, CompareTail, CmpHolds, Holds;
    CompareLayout(e, act, n, l, p, a);
    var o := Compile(e.left, act, n, l + 2).value;
    var q := Compile(e.right, act + {o.reg}, n, o.next).value;
    var c := a + |o.code| + |q.code|;
    Sub(e.left, act, n, l + 2, env, p, a, m);
    m' := RunBoth(e, act, n, l + 2, env, p, a, m);
    if Eval(e.left).Val? && Eval(e.right).Val? {
      var m1 := m';
      CondMeaning(e.cmp, e.signed, Eval(e.left).v, Eval(e.right).v);
      m' := RunCompareTail(env, p, c, m1, CondFor(e.cmp, e.signed), o.reg, q.reg, l);
      Trans(env, p, At(a, m), At(c, m1), At(c + 5, m'));
      OnlyKeeps({o.reg}, act, m1, m');
      KeepsTrans(act, m, m1, m');
    }
  }

  lemma CondMeaning(cmp: CmpOp, signed: bool, x: u64, y: u64)
    ensures Holds(CondFor(cmp, signed), x, y) <==> CmpHolds(cmp, signed, x, y)
  {
  }

  lemma CompareLayout(e: Expr, act: set<nat>, n: nat, l: nat, p: Ir, a: nat)
    requires e.Compare? && Compile(e, act, n, l).Some? && HasAt(p, a, Compile(e, act, n, l).value.code)
    ensures Compile(e.left, act, n, l + 2).Some?
    ensures var o := Compile(e.left, act, n, l + 2).value; Compile(e.right, act + {o.reg}, n, o.next).Some?
    ensures var o := Compile(e.left, act, n, l + 2).value; var q := Compile(e.right, act + {o.reg}, n, o.next).value;
      var b := a + |o.code|; var c := b + |q.code|;
      && Compile(e, act, n, l).value.reg == o.reg && a + |Compile(e, act, n, l).value.code| == c + 5
      && HasAt(p, a, o.code) && HasAt(p, b, q.code)
      && HasAt(p, c, CompareTail(CondFor(e.cmp, e.signed), o.reg, q.reg, l))
  {
    hide CompareTail;
    var o := Compile(e.left, act, n, l + 2).value;
    var q := Compile(e.right, act + {o.reg}, n, o.next).value;
    var tail := CompareTail(CondFor(e.cmp, e.signed), o.reg, q.reg, l);
    CompareTailLength(CondFor(e.cmp, e.signed), o.reg, q.reg, l);
    Split(p, a, o.code + q.code, tail);
    Split(p, a, o.code, q.code);
  }

  lemma CompareTailLength(c: Cond, x: nat, y: nat, l: nat)
    ensures |CompareTail(c, x, y, l)| == 5
  {
  }

  lemma RunAnd(e: Expr, act: set<nat>, n: nat, l: nat, env: Env, p: Ir, a: nat, m: Machine) returns (m': Machine)
    requires Placed(e, act, n, l, env, p, a, m) && e.LogicalAnd?
    ensures var o := Compile(e, act, n, l).value;
      Achieves(env, p, a, a + |o.code|, m, act, o.reg, Eval(e), m')
    decreases e, 1
  {
    hide Reaches, Unique, Reports, Compile, HasAt, AndTail;
    AndLayout(e, act, n, l, p, a);
    var o := Compile(e.left, act, n, l + 2).value;
    var q := Compile(e.right, act, n, o.next).value;
    var b := a + |o.code|;
    var c := b + 1 + |q.code|;
    AndTailNodes(p, c, q.reg, l);
    Sub(e.left, act, n, l + 2, env, p, a, m);
    Sub(e.right, act, n, o.next, env, p, b + 1, m);
    m' := RunExpr(e.left, act, n, l + 2, env, p, a, m);
    if Eval(e.left).Val? {
      var m1 := m';
      ZeroTest(m1.Get(o.reg));
      StepBranch(env, p, b, m1, c + 4);
      if Eval(e.left).v == 0 {
        Trans(env, p, At(a, m), At(b, m1), At(c + 4, m1));
        m' := RunAndFalse(env, p, c, m1, q.reg, l);
        Trans(env, p, At(a, m), At(c + 4, m1), At(c + 6, m'));
        OnlyKeeps({q.reg}, act, m1, m');
        KeepsTrans(act, m, m1, m');
      } else {
        Trans(env, p, At(a, m), At(b, m1), At(b + 1, m1));
        Sub(e.right, act, n, o.next, env, p, b + 1, m1);
        m' := RunExpr(e.right, act, n, o.next, env, p, b + 1, m1);
        m' := AfterRight(env, p, a, b + 1, m, m1, m', act, q.reg, Eval(e.right), c);
        if Eval(e.right).Val? {
          var m2 := m';
          m' := RunAndTail(env, p, c, m2, q.reg, l);
          Trans(env, p, At(a, m), At(c, m2), At(c + 6, m'));
          OnlyKeeps({q.reg}, act, m2, m');
          KeepsTrans(act, m, m2, m');
        }
      }
    }
  }

  lemma AndLayout(e: Expr, act: set<nat>, n: nat, l: nat, p: Ir, a: nat)
    requires e.LogicalAnd? && Compile(e, act, n, l).Some? && HasAt(p, a, Compile(e, act, n, l).value.code)
    ensures Compile(e.left, act, n, l + 2).Some?
    ensures Compile(e.right, act, n, Compile(e.left, act, n, l + 2).value.next).Some?
    ensures var o := Compile(e.left, act, n, l + 2).value; var q := Compile(e.right, act, n, o.next).value;
      var b := a + |o.code|; var c := b + 1 + |q.code|;
      && Compile(e, act, n, l).value.reg == q.reg && a + |Compile(e, act, n, l).value.code| == c + 6
      && HasAt(p, a, o.code) && HasAt(p, b + 1, q.code) && HasAt(p, c, AndTail(q.reg, l))
      && b < |p| && p[b] == I(BranchImm(JEQ, o.reg, 0, l))
  {
    hide AndTail;
    var o := Compile(e.left, act, n, l + 2).value;
    var q := Compile(e.right, act, n, o.next).value;
    var br := [I(BranchImm(JEQ, o.reg, 0, l))];
    AndTailLength(q.reg, l);
    Split(p, a, o.code + br + q.code, AndTail(q.reg, l));
    Split(p, a, o.code + br, q.code);
    Split(p, a, o.code, br);
    assert p[a + |o.code|] == br[0];
  }

  lemma AndTailLength(y: nat, l: nat)
    ensures |AndTail(y, l)| == 6
  {
  }

  /** Chaining a finished part with the operand that runs after it. */
  lemma AfterRight(env: Env, p: Ir, a: nat, b: nat, m: Machine, m1: Machine, m2: Machine, act: set<nat>, reg: nat,
      v: Value, c: nat)
      returns (m': Machine)
    requires Reaches(env, p, At(a, m), At(b, m1)) && Keeps(act, m, m1)
    requires Achieves(env, p, b, c, m1, act, reg, v, m2)
    ensures m' == m2 && Achieves(env, p, a, c, m, act, reg, v, m')
  {
    hide Reaches;
    m' := m2;
    if v.Val? {
      Trans(env, p, At(a, m), At(b, m1), At(c, m2));
      KeepsTrans(act, m, m1, m2);
    } else {
      Trans(env, p, At(a, m), At(b, m1), Halted(m2));
    }
  }

  lemma RunOr(e: Expr, act: set<nat>, n: nat, l: nat, env: Env, p: Ir, a: nat, m: Machine) returns (m': Machine)
    requires Placed(e, act, n, l, env, p, a, m) && e.LogicalOr?
    ensures var o := Compile(e, act, n, l).value;
      Achieves(env, p, a, a + |o.code|, m, act, o.reg, Eval(e), m')
    decreases e, 1
  {
    hide Reaches, Unique, Reports, Compile, HasAt, OrTail;
    OrLayout(e, act, n, l, p, a);
    var o := Compile(e.left, act, n, l + 3).value;
    var q := Compile(e.right, act, n, o.next).value;
    var b := a + |o.code|;
    var c := b + 1 + |q.code|;
    OrTailNodes(p, c, q.reg, l);
    Sub(e.left, act, n, l + 3, env, p, a, m);
    Sub(e.right, act, n, o.next, env, p, b + 1, m);
    m' := RunExpr(e.left, act, n, l + 3, env, p, a, m);
    if Eval(e.left).Val? {
      var m1 := m';
      ZeroTest(m1.Get(o.reg));
      StepBranch(env, p, b, m1, c + 1);
      if Eval(e.left).v != 0 {
        Trans(env, p, At(a, m), At(b, m1), At(c + 1, m1));
        m' := RunOrTrue(env, p, c, m1, q.reg, l);
        Trans(env, p, At(a, m), At(c + 1, m1), At(c + 5, m'));
        OnlyKeeps({q.reg}, act, m1, m');
        KeepsTrans(act, m, m1, m');
      } else {
        Trans(env, p, At(a, m), At(b, m1), At(b + 1, m1));
        Sub(e.right, act, n, o.next, env, p, b + 1, m1);
        m' := RunExpr(e.right, act, n, o.next, env, p, b + 1, m1);
        m' := AfterRight(env, p, a, b + 1, m, m1, m', act, q.reg, Eval(e.right), c);
        if Eval(e.right).Val? {
          var m2 := m';
          m' := RunOrTail(env, p, c, m2, q.reg, l);
          Trans(env, p, At(a, m), At(c, m2), At(c + 5, m'));
          OnlyKeeps({q.reg}, act, m2, m');
          KeepsTrans(act, m, m2, m');
        }
      }
    }
  }

  lemma OrLayout(e: Expr, act: set<nat>, n: nat, l: nat, p: Ir, a: nat)
    requires e.LogicalOr? && Compile(e, act, n, l).Some? && HasAt(p, a, Compile(e, act, n, l).value.code)
    ensures Compile(e.left, act, n, l + 3).Some?
    ensures Compile(e.right, act, n, Compile(e.left, act, n, l + 3).value.next).Some?
    ensures var o := Compile(e.left, act, n, l + 3).value; var q := Compile(e.right, act, n, o.next).value;
      var b := a + |o.code|; var c := b + 1 + |q.code|;
      && Compile(e, act, n, l).value.reg == q.reg && a + |Compile(e, act, n, l).value.code| == c + 5
      && HasAt(p, a, o.code) && HasAt(p, b + 1, q.code) && HasAt(p, c, OrTail(q.reg, l))
      && b < |p| && p[b] == I(BranchImm(JNE, o.reg, 0, l))
  {
    hide OrTail;
    var o := Compile(e.left, act, n, l + 3).value;
    var q := Compile(e.right, act, n, o.next).value;
    var br := [I(BranchImm(JNE, o.reg, 0, l))];
    OrTailLength(q.reg, l);
    Split(p, a, o.code + br + q.code, OrTail(q.reg, l));
    Split(p, a, o.code + br, q.code);
    Split(p, a, o.code, br);
    assert p[a + |o.code|] == br[0];
  }

  lemma OrTailLength(y: nat, l: nat)
    ensures |OrTail(y, l)| == 5
  {
  }

  lemma RunXor(e: Expr, act: set<nat>, n: nat, l: nat, env: Env, p: Ir, a: nat, m: Machine) returns (m': Machine)
    requires Placed(e, act, n, l, env, p, a, m) && e.LogicalXor?
    ensures var o := Compile(e, act, n, l).value;
      Achieves(env, p, a, a + |o.code|, m, act, o.reg, Eval(e), m')
    decreases e, 1
  {
    hide Reaches, Unique, Reports, Compile, HasAt, XorTail, XorMiddle;
    XorLayout(e, act, n, l, p, a);
    var o := Compile(e.left, act, n, l + 2).value;
    var q := Compile(e.right, act + {o.reg}, n, o.next).value;
    var b := a + |o.code|;
    var c := b + 4 + |q.code|;
    Sub(e.left, act, n, l + 2, env, p, a, m);
    Sub(e.right, act + {o.reg}, n, o.next, env, p, b + 4, m);
    m' := RunExpr(e.left, act, n, l + 2, env, p, a, m);
    if Eval(e.left).Val? {
      var m1 := m';
      var m2 := RunXorMiddle(env, p, b, m1, o.reg, l);
      Trans(env, p, At(a, m), At(b, m1), At(b + 4, m2));
      OnlyKeeps({o.reg}, act, m1, m2);
      KeepsTrans(act, m, m1, m2);
      Sub(e.right, act + {o.reg}, n, o.next, env, p, b + 4, m2);
      var m3 := RunExpr(e.right, act + {o.reg}, n, o.next, env, p, b + 4, m2);
      m' := m3;
      if Eval(e.right).Val? {
        Trans(env, p, At(a, m), At(b + 4, m2), At(c, m3));
        m' := RunXorTail(env, p, c, m3, o.reg, q.reg, l);
        Trans(env, p, At(a, m), At(c, m3), At(c + 4, m'));
        OnlyKeeps({o.reg, q.reg}, act, m3, m');
        assert Keeps(act, m2, m3);
        KeepsTrans(act, m, m2, m3);
        KeepsTrans(act, m, m3, m');
      } else {
        Trans(env, p, At(a, m), At(b + 4, m2), Halted(m3));
      }
    }
  }

  lemma XorLayout(e: Expr, act: set<nat>, n: nat, l: nat, p: Ir, a: nat)
    requires e.LogicalXor? && Compile(e, act, n, l).Some? && HasAt(p, a, Compile(e, act, n, l).value.code)
    ensures Compile(e.left, act, n, l + 2).Some?
    ensures var o := Compile(e.left, act, n, l + 2).value; Compile(e.right, act + {o.reg}, n, o.next).Some?
    ensures var o := Compile(e.left, act, n, l + 2).value; var q := Compile(e.right, act + {o.reg}, n, o.next).value;
      var b := a + |o.code|; var c := b + 4 + |q.code|;
      && Compile(e, act, n, l).value.reg == o.reg && a + |Compile(e, act, n, l).value.code| == c + 4
      && HasAt(p, a, o.code) && HasAt(p, b, XorMiddle(o.reg, l)) && HasAt(p, b + 4, q.code)
      && HasAt(p, c, XorTail(o.reg, q.reg, l))
  {
    hide XorTail, XorMiddle;
    var o := Compile(e.left, act, n, l + 2).value;
    var q := Compile(e.right, act + {o.reg}, n, o.next).value;
    var mid, tail := XorMiddle(o.reg, l), XorTail(o.reg, q.reg, l);
    XorLengths(o.reg, q.reg, l);
    Split(p, a, o.code + mid + q.code, tail);
    Split(p, a, o.code + mid, q.code);
    Split(p, a, o.code, mid);
  }

  lemma XorLengths(x: nat, y: nat, l: nat)
    ensures |XorMiddle(x, l)| == 4 && |XorTail(x, y, l)| == 4
  {
  }

  lemma RunNot(e: Expr, act: set<nat>, n: nat, l: nat, env: Env, p: Ir, a: nat, m: Machine) returns (m': Machine)
    requires Placed(e, act, n, l, env, p, a, m) && e.LogicalNot?
    ensures var o := Compile(e, act, n, l).value;
      Achieves(env, p, a, a + |o.code|, m, act, o.reg, Eval(e), m')
    decreases e, 1
  {
    hide Reaches, Unique, Reports, NotTail;
    var o := Compile(e.child, act, n, l + 2).value;
    var b := a + |o.code|;
    Split(p, a, o.code, NotTail(o.reg, l));
    NotTailLength(o.reg, l);
    hide HasAt;
    Sub(e.child, act, n, l + 2, env, p, a, m);
    m' := RunExpr(e.child, act, n, l + 2, env, p, a, m);
    if Eval(e.child).Val? {
      var m1 := m';
      m' := RunNotTail(env, p, b, m1, o.reg, l);
      Trans(env, p, At(a, m), At(b, m1), At(b + 5, m'));
      OnlyKeeps({o.reg}, act, m1, m');
      KeepsTrans(act, m, m1, m');
    }
  }

  lemma NotTailLength(x: nat, l: nat)
    ensures |NotTail(x, l)| == 5
  {
  }

  lemma RunUnary(e: Expr, act: set<nat>, n: nat, l: nat, env: Env, p: Ir, a: nat, m: Machine) returns (m': Machine)
    requires Placed(e, act, n, l, env, p, a, m) && (e.BitNot? || e.Negate?)
    ensures var o := Compile(e, act, n, l).value;
      Achieves(env, p, a, a + |o.code|, m, act, o.reg, Eval(e), m')
    decreases e, 1
  {
    hide Reaches, Unique, Reports, Xor;
    var o := Compile(e.child, act, n, l).value;
    var b := a + |o.code|;
    var tail := [if e.BitNot? then I(AluImm(XOR, o.reg, -1)) else I(NegReg(o.reg))];
    Split(p, a, o.code, tail);
    assert p[b] == tail[0];
    hide HasAt;
    Sub(e.child, act, n, l, env, p, a, m);
    m' := RunExpr(e.child, act, n, l, env, p, a, m);
    if Eval(e.child).Val? {
      var m1 := m';
      Step(env, p, At(b, m1));
      XorMinusOne(m1.Get(o.reg));
      var v: u64 := if e.BitNot? then WORD - 1 - m1.Get(o.reg) else W(0 - m1.Get(o.reg));
      m' := m1.Set(o.reg, v);
      SetGet(m1, o.reg, v, act);
      Trans(env, p, At(a, m), At(b, m1), At(b + 1, m'));
      KeepsTrans(act, m, m1, m');
    }
  }

  lemma RunComma(e: Expr, act: set<nat>, n: nat, l: nat, env: Env, p: Ir, a: nat, m: Machine) returns (m': Machine)
    requires Placed(e, act, n, l, env, p, a, m) && e.Comma?
    ensures var o := Compile(e, act, n, l).value;
      Achieves(env, p, a, a + |o.code|, m, act, o.reg, Eval(e), m')
    decreases e, 1
  {
    hide Reaches, Unique, Reports;
    var o := Compile(e.left, act, n, l).value;
    var q := Compile(e.right, act, n, o.next).value;
    var b := a + |o.code|;
    Split(p, a, o.code, q.code);
    hide HasAt;
    Sub(e.left, act, n, l, env, p, a, m);
    m' := RunExpr(e.left, act, n, l, env, p, a, m);
    if Eval(e.left).Val? {
      var m1 := m';
      Sub(e.right, act, n, o.next, env, p, b, m1);
      m' := RunExpr(e.right, act, n, o.next, env, p, b, m1);
      m' := AfterRight(env, p, a, b, m, m1, m', act, q.reg, Eval(e.right), b + |q.code|);
    }
  }

  lemma RunTernary(e: Expr, act: set<nat>, n: nat, l: nat, env: Env, p: Ir, a: nat, m: Machine) returns (m': Machine)
    requires Placed(e, act, n, l, env, p, a, m) && e.Ternary?
    ensures var o := Compile(e, act, n, l).value;
      Achieves(env, p, a, a + |o.code|, m, act, o.reg, Eval(e), m')
    decreases e, 1
  {
    hide Reaches, Unique, Reports, Compile, HasAt;
    TernaryLayout(e, act, n, l, p, a);
    var k := Compile(e.cond, act, n, l + 2).value;
    var o := Compile(e.left, act, n, k.next).value;
    var q := Compile(e.right, act, n, o.next).value;
    var b := a + |k.code|;
    var c := b + 1 + |o.code|;
    var d := c + 3 + |q.code|;
    Sub(e.cond, act, n, l + 2, env, p, a, m);
    Sub(e.left, act, n, k.next, env, p, b + 1, m);
    Sub(e.right, act, n, o.next, env, p, c + 3, m);
    m' := RunExpr(e.cond, act, n, l + 2, env, p, a, m);
    if Eval(e.cond).Val? {
      var m1 := m';
      ZeroTest(m1.Get(k.reg));
      StepBranch(env, p, b, m1, c + 2);
      if Eval(e.cond).v != 0 {
        Trans(env, p, At(a, m), At(b, m1), At(b + 1, m1));
        Sub(e.left, act, n, k.next, env, p, b + 1, m1);
        m' := RunExpr(e.left, act, n, k.next, env, p, b + 1, m1);
        m' := AfterRight(env, p, a, b + 1, m, m1, m', act, o.reg, Eval(e.left), c);
        if Eval(e.left).Val? {
          var m2 := m';
          m' := RunTernaryMiddle(env, p, c, d, m2, q.reg, o.reg, l);
          Trans(env, p, At(a, m), At(c, m2), At(d + 1, m'));
          SetGet(m2, q.reg, m2.Get(o.reg), act);
          KeepsTrans(act, m, m2, m');
        }
      } else {
        Trans(env, p, At(a, m), At(b, m1), At(c + 2, m1));
        StepNop(env, p, c + 2, m1);
        Trans(env, p, At(a, m), At(c + 2, m1), At(c + 3, m1));
        Sub(e.right, act, n, o.next, env, p, c + 3, m1);
        m' := RunExpr(e.right, act, n, o.next, env, p, c + 3, m1);
        m' := AfterRight(env, p, a, c + 3, m, m1, m', act, q.reg, Eval(e.right), d);
        if Eval(e.right).Val? {
          StepNop(env, p, d, m');
          Trans(env, p, At(a, m), At(d, m'), At(d + 1, m'));
        }
      }
    }
  }

  lemma TernaryLayout(e: Expr, act: set<nat>, n: nat, l: nat, p: Ir, a: nat)
    requires e.Ternary? && Compile(e, act, n, l).Some? && HasAt(p, a, Compile(e, act, n, l).value.code)
    ensures Compile(e.cond, act, n, l + 2).Some?
    ensures var k := Compile(e.cond, act, n, l + 2).value; Compile(e.left, act, n, k.next).Some?
    ensures var k := Compile(e.cond, act, n, l + 2).value; var o := Compile(e.left, act, n, k.next).value;
      Compile(e.right, act, n, o.next).Some?
    ensures var k := Compile(e.cond, act, n, l + 2).value; var o := Compile(e.left, act, n, k.next).value;
      var q := Compile(e.right, act, n, o.next).value;
      var b := a + |k.code|; var c := b + 1 + |o.code|; var d := c + 3 + |q.code|;
      && Compile(e, act, n, l).value.reg == q.reg && a + |Compile(e, act, n, l).value.code| == d + 1
      && HasAt(p, a, k.code) && HasAt(p, b + 1, o.code) && HasAt(p, c + 3, q.code)
      && d < |p| && p[b] == I(BranchImm(JEQ, k.reg, 0, l)) && p[d] == L(l + 1, Ja(0))
      && p[c] == I(AluReg(MOV, q.reg, o.reg)) && p[c + 1] == I(Ja(l + 1)) && p[c + 2] == L(l, Ja(0))
  {
    var k := Compile(e.cond, act, n, l + 2).value;
    var o := Compile(e.left, act, n, k.next).value;
    var q := Compile(e.right, act, n, o.next).value;
    hide HasAt;
    TernarySplit(p, a, k.code, o.code, q.code, k.reg, q.reg, o.reg, l);
  }

  lemma TernarySplit(p: Ir, a: nat, k: Ir, o: Ir, q: Ir, kr: nat, qr: nat, or: nat, l: nat)
    requires HasAt(p, a, k + [I(BranchImm(JEQ, kr, 0, l))] + o + TernaryMiddle(qr, or, l) + q + [L(l + 1, Ja(0))])
    ensures var b := a + |k|; var c := b + 1 + |o|; var d := c + 3 + |q|;
      && HasAt(p, a, k) && HasAt(p, b + 1, o) && HasAt(p, c + 3, q)
      && d < |p| && p[b] == I(BranchImm(JEQ, kr, 0, l)) && p[d] == L(l + 1, Ja(0))
      && p[c] == I(AluReg(MOV, qr, or)) && p[c + 1] == I(Ja(l + 1)) && p[c + 2] == L(l, Ja(0))
  {
    var br, mid, tail := [I(BranchImm(JEQ, kr, 0, l))], TernaryMiddle(qr, or, l), [L(l + 1, Ja(0))];
    var b := a + |k|;
    Split(p, a, k + br + o + mid + q, tail);
    Split(p, a, k + br + o + mid, q);
    Split(p, a, k + br + o, mid);
    Split(p, a, k + br, o);
    Split(p, a, k, br);
    assert p[b] == br[0] && p[b + 4 + |o| + |q|] == tail[0];
    TernaryNodes(p, b + 1 + |o|, qr, or, l);
  }

  lemma TernaryNodes(p: Ir, c: nat, x: nat, y: nat, l: nat)
    requires HasAt(p, c, TernaryMiddle(x, y, l))
    ensures c + 3 <= |p| && p[c] == I(AluReg(MOV, x, y)) && p[c + 1] == I(Ja(l + 1)) && p[c + 2] == L(l, Ja(0))
  {
    var t := TernaryMiddle(x, y, l);
    assert p[c] == t[0] && p[c + 1] == t[1] && p[c + 2] == t[2];
  }

  lemma RunTernaryMiddle(env: Env, p: Ir, c: nat, d: nat, m: Machine, x: nat, y: nat, l: nat) returns (m': Machine)
    requires Unique(p) && c + 1 < |p| && d < |p| && p[c] == I(AluReg(MOV, x, y)) && p[c + 1] == I(Ja(l + 1))
    requires p[d] == L(l + 1, Ja(0))
    ensures m' == m.Set(x, m.Get(y)) && Reaches(env, p, At(c, m), At(d + 1, m'))
  {
    hide Reaches, Unique;
    m' := m.Set(x, m.Get(y));
    StepAlu(env, p, c, m);
    StepJa(env, p, c + 1, m', d);
    StepNop(env, p, d, m');
    Trans(env, p, At(c, m), At(c + 1, m'), At(d, m'));
    Trans(env, p, At(c, m), At(d, m'), At(d + 1, m'));
  }
}
