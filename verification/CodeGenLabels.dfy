/** The generated code is a well-formed instruction list, and how many registers it takes. */
module CodeGenLabels {
  import opened Wrappers
  import opened Bpf
  import opened Assembler
  import opened CodeGen
  import opened CodeGenProof

  function Labels(p: Ir): set<int> {
    set i | 0 <= i < |p| && p[i].lbl != 0 :: p[i].lbl
  }

  function Targets(p: Ir): set<int> {
    set i | 0 <= i < |p| && IsJump(p[i].insn) :: p[i].insn.off
  }

  predicate WideOk(p: Ir) {
    forall i :: 0 <= i < |p| && p[i].insn.Lddw? ==> i + 1 < |p| && p[i + 1].insn.LddwHi?
  }

  predicate Apart(a: set<int>, b: set<int>) {
    forall l :: l in a ==> l !in b
  }

  lemma Concat(x: Ir, y: Ir)
    ensures Labels(x + y) == Labels(x) + Labels(y) && Targets(x + y) == Targets(x) + Targets(y)
    ensures Unique(x) && Unique(y) && Apart(Labels(x), Labels(y)) ==> Unique(x + y)
    ensures WideOk(x) && WideOk(y) ==> WideOk(x + y)
  {
    var z := x + y;
    forall l ensures l in Labels(z) <==> l in Labels(x) || l in Labels(y) {
      if l in Labels(x) { var i :| 0 <= i < |x| && x[i].lbl != 0 && x[i].lbl == l; assert z[i].lbl == l; }
      if l in Labels(y) { var i :| 0 <= i < |y| && y[i].lbl != 0 && y[i].lbl == l; assert z[|x| + i].lbl == l; }
    }
    forall t ensures t in Targets(z) <==> t in Targets(x) || t in Targets(y) {
      if t in Targets(x) {
        var i :| 0 <= i < |x| && IsJump(x[i].insn) && x[i].insn.off == t;
        assert z[i].insn.off == t;
      }
      if t in Targets(y) {
        var i :| 0 <= i < |y| && IsJump(y[i].insn) && y[i].insn.off == t;
        assert z[|x| + i].insn.off == t;
      }
    }
    if Unique(x) && Unique(y) && Apart(Labels(x), Labels(y)) {
      UniqueConcat(x, y);
    }
  }

  lemma UniqueConcat(x: Ir, y: Ir)
    requires Unique(x) && Unique(y) && Apart(Labels(x), Labels(y))
    ensures Unique(x + y)
  {
    var z := x + y;
    forall i, j | 0 <= i < |z| && 0 <= j < |z| && z[i].lbl == z[j].lbl != 0 ensures i == j {
      assert i < |x| ==> z[i].lbl in Labels(x);
      assert i >= |x| ==> y[i - |x|].lbl in Labels(y);
      assert j < |x| ==> z[j].lbl in Labels(x);
      assert j >= |x| ==> y[j - |x|].lbl in Labels(y);
    }
  }

  /** Labels come from [lo, hi), jumps stay inside. */
  ghost predicate Tidy(p: Ir, lo: nat, hi: nat) {
    && Unique(p) && WideOk(p) && Targets(p) <= Labels(p)
    && forall l :: l in Labels(p) ==> lo <= l < hi
  }

  /** A piece with its own labels ls, that may also jump to labels of other pieces. */
  ghost predicate Piece(p: Ir, ls: set<int>, ts: set<int>) {
    Unique(p) && WideOk(p) && Labels(p) == ls && Targets(p) == ts
  }

  lemma Join(x: Ir, y: Ir, lx: set<int>, tx: set<int>, ly: set<int>, ty: set<int>)
    requires Piece(x, lx, tx) && Piece(y, ly, ty) && Apart(lx, ly)
    ensures Piece(x + y, lx + ly, tx + ty)
  {
    hide Unique, WideOk, Labels, Targets;
    Concat(x, y);
  }

  lemma {:induction false} SavesPlain(act: set<nat>, rs: seq<nat>)
    ensures Piece(Saves(act, rs), {}, {}) && Piece(Restores(act, rs), {}, {})
    decreases rs
  {
    if rs != [] {
      SavesPlain(act, rs[1..]);
      var s := if rs[0] in act then [I(Store(FP, SpillSlot(rs[0]), rs[0]))] else [];
      var r := if rs[0] in act then [I(Load(rs[0], FP, SpillSlot(rs[0])))] else [];
      assert Piece(s, {}, {}) && Piece(r, {}, {});
      Join(s, Saves(act, rs[1..]), {}, {}, {}, {});
      Join(r, Restores(act, rs[1..]), {}, {}, {}, {});
    }
  }

  lemma JoinPlain(x: Ir, y: Ir)
    requires Piece(x, {}, {}) && Piece(y, {}, {})
    ensures Piece(x + y, {}, {})
  {
    hide Unique, WideOk, Labels, Targets;
    Concat(x, y);
  }

  lemma FaultPlain(act: set<nat>, fault: nat)
    ensures Piece(FaultCode(act, fault), {}, {})
  {
    hide Piece, Saves, Restores;
    SavesPlain(act, ARGS);
    SavesPlain(act, [0]);
    var call: Ir := [Node(0, CallFunc(PROBE_ERROR), Some(PROBE_ERROR))];
    var stop: Ir := [I(Exit)];
    PlainPieces(fault);
    JoinPlain(Saves(act, ARGS), FaultArgs(fault));
    JoinPlain(Saves(act, ARGS) + FaultArgs(fault), Saves(act, [0]));
    var x := Saves(act, ARGS) + FaultArgs(fault) + Saves(act, [0]);
    JoinPlain(x, call);
    JoinPlain(x + call, Restores(act, ARGS));
    JoinPlain(x + call + Restores(act, ARGS), Restores(act, [0]));
    JoinPlain(x + call + Restores(act, ARGS) + Restores(act, [0]), stop);
  }

  lemma PlainPieces(fault: nat)
    ensures Piece([Node(0, CallFunc(PROBE_ERROR), Some(PROBE_ERROR))], {}, {})
    ensures Piece([I(Exit)], {}, {}) && Piece(FaultArgs(fault), {}, {})
  {
  }

  lemma DivisionPiece(op: AluOp, x: nat, y: nat, l: nat)
    requires l > 0
    ensures Piece(DivisionBody(op, x, y, l), {l, l + 1, l + 2, l + 3, l + 4, l + 5}, {l, l + 1, l + 2, l + 3, l + 4})
  {
    hide Unique, WideOk, Labels, Targets;
    var d := DivisionBody(op, x, y, l);
    DivisionParts(op, x, y, l);
    Join(d[..4], d[4..8], {l + 5}, {l, l + 2, l + 3}, {l, l + 1}, {l + 4});
    Join(d[..4] + d[4..8], d[8..], {l + 5} + {l, l + 1}, {l, l + 2, l + 3} + {l + 4}, {l + 2, l + 3, l + 4}, {l + 1});
    assert d[..4] + d[4..8] + d[8..] == d;
    assert {l + 5} + {l, l + 1} + {l + 2, l + 3, l + 4} == {l, l + 1, l + 2, l + 3, l + 4, l + 5};
    assert {l, l + 2, l + 3} + {l + 4} + {l + 1} == {l, l + 1, l + 2, l + 3, l + 4};
  }

  lemma DivisionParts(op: AluOp, x: nat, y: nat, l: nat)
    requires l > 0
    ensures var d := DivisionBody(op, x, y, l);
      && Piece(d[..4], {l + 5}, {l, l + 2, l + 3}) && Piece(d[4..8], {l, l + 1}, {l + 4})
      && Piece(d[8..], {l + 2, l + 3, l + 4}, {l + 1})
  {
    var d := DivisionBody(op, x, y, l);
    DivisionPart1(d[..4], x, y, l);
    DivisionPart2(d[4..8], op, x, y, l);
    DivisionPart3(d[8..], op, x, y, l);
  }

  lemma DivisionPart1(d: Ir, x: nat, y: nat, l: nat)
    requires l > 0 && d == [L(l + 5, Ja(0)), I(BranchImm(JSLT, x, 0, l + 2)), I(BranchImm(JSLT, y, 0, l)), I(Ja(l + 3))]
    ensures Piece(d, {l + 5}, {l, l + 2, l + 3})
  {
    assert d[0].lbl in Labels(d);
    assert d[1].insn.off in Targets(d) && d[2].insn.off in Targets(d) && d[3].insn.off in Targets(d);
  }

  lemma DivisionPart2(d: Ir, op: AluOp, x: nat, y: nat, l: nat)
    requires l > 0 && d == [L(l, NegReg(y)), L(l + 1, AluReg(op, x, y)), I(NegReg(x)), I(Ja(l + 4))]
    ensures Piece(d, {l, l + 1}, {l + 4})
  {
    assert d[0].lbl in Labels(d) && d[1].lbl in Labels(d) && d[3].insn.off in Targets(d);
  }

  lemma DivisionPart3(d: Ir, op: AluOp, x: nat, y: nat, l: nat)
    requires l > 0 && d == [L(l + 2, NegReg(x)), I(BranchImm(JSGE, y, 0, l + 1)), I(NegReg(y)),
                            L(l + 3, AluReg(op, x, y)), L(l + 4, Ja(0))]
    ensures Piece(d, {l + 2, l + 3, l + 4}, {l + 1})
  {
    assert d[0].lbl in Labels(d) && d[3].lbl in Labels(d) && d[4].lbl in Labels(d) && d[1].insn.off in Targets(d);
  }

  lemma SmallPieces(r: nat, v: u64, i: Insn)
    requires !IsJump(i) && !i.Lddw?
    ensures Piece(SetX(r, v), {}, {}) && Piece([I(i)], {}, {})
  {
  }

  lemma BranchPiece(c: Cond, r: nat, l: nat)
    ensures Piece([I(BranchImm(c, r, 0, l))], {}, {l})
  {
    var d := [I(BranchImm(c, r, 0, l))];
    assert d[0].insn.off in Targets(d);
  }

  lemma ComparePiece(c: Cond, x: nat, y: nat, l: nat)
    requires l > 0
    ensures Piece(CompareTail(c, x, y, l), {l, l + 1}, {l, l + 1})
  {
    var d := CompareTail(c, x, y, l);
    assert d[3].lbl in Labels(d) && d[4].lbl in Labels(d) && d[0].insn.off in Targets(d) && d[2].insn.off in Targets(d);
  }

  lemma NotPiece(x: nat, l: nat)
    requires l > 0
    ensures Piece(NotTail(x, l), {l, l + 1}, {l, l + 1})
  {
    var d := NotTail(x, l);
    assert d[3].lbl in Labels(d) && d[4].lbl in Labels(d) && d[0].insn.off in Targets(d) && d[2].insn.off in Targets(d);
  }

  lemma AndPiece(y: nat, l: nat)
    requires l > 0
    ensures Piece(AndTail(y, l), {l, l + 1}, {l, l + 1})
  {
    var d := AndTail(y, l);
    assert d[4].lbl in Labels(d) && d[5].lbl in Labels(d) && d[0].insn.off in Targets(d) && d[3].insn.off in Targets(d);
  }

  lemma OrPiece(y: nat, l: nat)
    requires l > 0
    ensures Piece(OrTail(y, l), {l, l + 1, l + 2}, {l + 1, l + 2})
  {
    var d := OrTail(y, l);
    assert d[1].lbl in Labels(d) && d[3].lbl in Labels(d) && d[4].lbl in Labels(d);
    assert d[0].insn.off in Targets(d) && d[2].insn.off in Targets(d);
  }

  lemma XorPieces(x: nat, y: nat, l: nat)
    requires l > 0
    ensures Piece(XorMiddle(x, l), {l}, {l}) && Piece(XorTail(x, y, l), {l + 1}, {l + 1})
  {
    var d, e := XorMiddle(x, l), XorTail(x, y, l);
    assert d[3].lbl in Labels(d) && d[0].insn.off in Targets(d);
    assert e[3].lbl in Labels(e) && e[0].insn.off in Targets(e);
  }

  lemma TernaryPieces(x: nat, y: nat, l: nat)
    requires l > 0
    ensures Piece(TernaryMiddle(x, y, l), {l}, {l + 1}) && Piece([L(l + 1, Ja(0))], {l + 1}, {})
  {
    var d, e := TernaryMiddle(x, y, l), [L(l + 1, Ja(0))];
    assert d[2].lbl in Labels(d) && d[1].insn.off in Targets(d) && e[0].lbl in Labels(e);
  }

  // ----- all generated code -----

  /** Two tidy pieces with separate label ranges, and a tail with labels outside both. */
  lemma TidyJoin(x: Ir, lo: nat, mid: nat, y: Ir, hi: nat)
    requires Tidy(x, lo, mid) && Tidy(y, mid, hi) && lo <= mid <= hi
    ensures Tidy(x + y, lo, hi)
  {
    hide Unique, WideOk, Labels, Targets;
    Concat(x, y);
  }

  lemma TidyTail(x: Ir, lo: nat, mid: nat, t: Ir, ls: set<int>, ts: set<int>, lo': nat, hi: nat)
    requires Tidy(x, lo, mid) && Piece(t, ls, ts) && ts <= ls && lo' <= lo <= mid <= hi
    requires forall l :: l in ls ==> lo' <= l < lo || mid <= l < hi
    ensures Tidy(x + t, lo', hi)
  {
    hide Unique, WideOk, Labels, Targets;
    Concat(x, t);
  }

  /** Labels of the code are fresh ones, given once, and every jump goes to one of them. */
  lemma {:induction false} CompileTidy(e: Expr, act: set<nat>, n: nat, l: nat)
    requires Compile(e, act, n, l).Some? && l > 0
    ensures l <= Compile(e, act, n, l).value.next
    ensures Tidy(Compile(e, act, n, l).value.code, l, Compile(e, act, n, l).value.next)
    decreases e, 1
  {
    hide Piece, Tidy, CompareTail, AndTail, OrTail, XorMiddle, XorTail, NotTail, TernaryMiddle, SignedDivision, SetX;
    match e
    case Const(v) =>
      ConstTidy(Alloc(act, n).value, v, l);
    case Arith(op, signed, left, right) =>
      CompileTidy(left, act, n, l);
      var a := Compile(left, act, n, l).value;
      CompileTidy(right, act + {a.reg}, n, a.next);
      var b := Compile(right, act + {a.reg}, n, a.next).value;
      TidyJoin(a.code, l, a.next, b.code, b.next);
      ArithTidy(a.code + b.code, l, op, signed, a.reg, b.reg, act + {a.reg, b.reg}, b.next);
    case Compare(cmp, signed, left, right) =>
      CompileTidy(left, act, n, l + 2);
      var a := Compile(left, act, n, l + 2).value;
      CompileTidy(right, act + {a.reg}, n, a.next);
      var b := Compile(right, act + {a.reg}, n, a.next).value;
      TidyJoin(a.code, l + 2, a.next, b.code, b.next);
      ComparePiece(CondFor(cmp, signed), a.reg, b.reg, l);
      TidyTail(a.code + b.code, l + 2, b.next, CompareTail(CondFor(cmp, signed), a.reg, b.reg, l),
               {l, l + 1}, {l, l + 1}, l, b.next);
    case LogicalXor(left, right) =>
      CompileTidy(left, act, n, l + 2);
      var a := Compile(left, act, n, l + 2).value;
      CompileTidy(right, act + {a.reg}, n, a.next);
      var b := Compile(right, act + {a.reg}, n, a.next).value;
      XorTidy(a.code, a.next, b.code, b.next, a.reg, b.reg, l);
    case LogicalNot(child) =>
      CompileTidy(child, act, n, l + 2);
      var a := Compile(child, act, n, l + 2).value;
      NotPiece(a.reg, l);
      TidyTail(a.code, l + 2, a.next, NotTail(a.reg, l), {l, l + 1}, {l, l + 1}, l, a.next);
    case LogicalAnd(_, _) => TidyLogicalAnd(e, act, n, l);
    case LogicalOr(_, _) => TidyLogicalOr(e, act, n, l);
    case Ternary(_, _, _) => TidyTernary(e, act, n, l);
    case Comma(_, _) => TidyComma(e, act, n, l);
    case BitNot(_) => TidyBitNot(e, act, n, l);
    case Negate(_) => TidyNegate(e, act, n, l);
  }

  lemma TidyLogicalAnd(e: Expr, act: set<nat>, n: nat, l: nat)
    requires Compile(e, act, n, l).Some? && l > 0 && e.LogicalAnd?
    ensures l <= Compile(e, act, n, l).value.next
    ensures Tidy(Compile(e, act, n, l).value.code, l, Compile(e, act, n, l).value.next)
    decreases e, 0
  {
    hide Piece, Tidy, CompareTail, AndTail, OrTail, XorMiddle, XorTail, NotTail, TernaryMiddle, SignedDivision, SetX;
    var LogicalAnd(left, right) := e;
    CompileTidy(left, act, n, l + 2);
    var a := Compile(left, act, n, l + 2).value;
    CompileTidy(right, act, n, a.next);
    var b := Compile(right, act, n, a.next).value;
    AndPiece(b.reg, l);
    SplitTidy(a.code, a.next, JEQ, a.reg, b.code, b.next, AndTail(b.reg, l), {l, l + 1}, {l, l + 1}, l, l + 2);
  }

  lemma TidyLogicalOr(e: Expr, act: set<nat>, n: nat, l: nat)
    requires Compile(e, act, n, l).Some? && l > 0 && e.LogicalOr?
    ensures l <= Compile(e, act, n, l).value.next
    ensures Tidy(Compile(e, act, n, l).value.code, l, Compile(e, act, n, l).value.next)
    decreases e, 0
  {
    hide Piece, Tidy, CompareTail, AndTail, OrTail, XorMiddle, XorTail, NotTail, TernaryMiddle, SignedDivision, SetX;
    var LogicalOr(left, right) := e;
    CompileTidy(left, act, n, l + 3);
    var a := Compile(left, act, n, l + 3).value;
    CompileTidy(right, act, n, a.next);
    var b := Compile(right, act, n, a.next).value;
    OrPiece(b.reg, l);
    SplitTidy(a.code, a.next, JNE, a.reg, b.code, b.next, OrTail(b.reg, l),
              {l, l + 1, l + 2}, {l + 1, l + 2}, l, l + 3);
  }

  lemma TidyTernary(e: Expr, act: set<nat>, n: nat, l: nat)
    requires Compile(e, act, n, l).Some? && l > 0 && e.Ternary?
    ensures l <= Compile(e, act, n, l).value.next
    ensures Tidy(Compile(e, act, n, l).value.code, l, Compile(e, act, n, l).value.next)
    decreases e, 0
  {
    hide Piece, Tidy, CompareTail, AndTail, OrTail, XorMiddle, XorTail, NotTail, TernaryMiddle, SignedDivision, SetX;
    var Ternary(cond, left, right) := e;
    CompileTidy(cond, act, n, l + 2);
    var c := Compile(cond, act, n, l + 2).value;
    CompileTidy(left, act, n, c.next);
    var a := Compile(left, act, n, c.next).value;
    CompileTidy(right, act, n, a.next);
    var b := Compile(right, act, n, a.next).value;
    TernaryTidy(c.code, c.next, a.code, a.next, b.code, b.next, c.reg, a.reg, b.reg, l);
  }

  lemma TidyComma(e: Expr, act: set<nat>, n: nat, l: nat)
    requires Compile(e, act, n, l).Some? && l > 0 && e.Comma?
    ensures l <= Compile(e, act, n, l).value.next
    ensures Tidy(Compile(e, act, n, l).value.code, l, Compile(e, act, n, l).value.next)
    decreases e, 0
  {
    hide Piece, Tidy, CompareTail, AndTail, OrTail, XorMiddle, XorTail, NotTail, TernaryMiddle, SignedDivision, SetX;
    var Comma(left, right) := e;
    CompileTidy(left, act, n, l);
    var a := Compile(left, act, n, l).value;
    CompileTidy(right, act, n, a.next);
    var b := Compile(right, act, n, a.next).value;
    TidyJoin(a.code, l, a.next, b.code, b.next);
  }

  lemma TidyBitNot(e: Expr, act: set<nat>, n: nat, l: nat)
    requires Compile(e, act, n, l).Some? && l > 0 && e.BitNot?
    ensures l <= Compile(e, act, n, l).value.next
    ensures Tidy(Compile(e, act, n, l).value.code, l, Compile(e, act, n, l).value.next)
    decreases e, 0
  {
    hide Piece, Tidy, CompareTail, AndTail, OrTail, XorMiddle, XorTail, NotTail, TernaryMiddle, SignedDivision, SetX;
    var BitNot(child) := e;
    CompileTidy(child, act, n, l);
    var a := Compile(child, act, n, l).value;
    SmallPieces(0, 0, AluImm(XOR, a.reg, -1));
    TidyTail(a.code, l, a.next, [I(AluImm(XOR, a.reg, -1))], {}, {}, l, a.next);
  }

  lemma TidyNegate(e: Expr, act: set<nat>, n: nat, l: nat)
    requires Compile(e, act, n, l).Some? && l > 0 && e.Negate?
    ensures l <= Compile(e, act, n, l).value.next
    ensures Tidy(Compile(e, act, n, l).value.code, l, Compile(e, act, n, l).value.next)
    decreases e, 0
  {
    hide Piece, Tidy, CompareTail, AndTail, OrTail, XorMiddle, XorTail, NotTail, TernaryMiddle, SignedDivision, SetX;
    var Negate(child) := e;
    CompileTidy(child, act, n, l);
    var a := Compile(child, act, n, l).value;
    SmallPieces(0, 0, NegReg(a.reg));
    TidyTail(a.code, l, a.next, [I(NegReg(a.reg))], {}, {}, l, a.next);
  }

  lemma ConstTidy(r: nat, v: u64, l: nat)
    ensures Tidy(SetX(r, v), l, l) && Tidy([I(AluImm(MOV, r, v))], l, l)
  {
    SmallPieces(r, v, AluImm(MOV, r, v));
  }

  lemma ArithTidy(x: Ir, lo: nat, op: ArithOp, signed: bool, a: nat, b: nat, act: set<nat>, l: nat)
    requires Tidy(x, lo, l) && lo <= l && l > 0
    ensures Tidy(x + SignedDivision(AluFor(op, signed), a, b, act, l), lo, l + 6)
    ensures Tidy(x + [I(AluReg(AluFor(op, signed), a, b))], lo, l)
  {
    hide Tidy, Piece, FaultCode, DivisionBody;
    var o := AluFor(op, signed);
    SmallPieces(0, 0, AluReg(o, a, b));
    TidyTail(x, lo, l, [I(AluReg(o, a, b))], {}, {}, lo, l);
    BranchPiece(JNE, b, l + 5);
    FaultPlain(act, DIVZERO);
    DivisionPiece(o, a, b, l);
    var br := [I(BranchImm(JNE, b, 0, l + 5))];
    Join(br, FaultCode(act, DIVZERO), {}, {l + 5}, {}, {});
    Join(br + FaultCode(act, DIVZERO), DivisionBody(o, a, b, l), {} + {}, {l + 5} + {},
         {l, l + 1, l + 2, l + 3, l + 4, l + 5}, {l, l + 1, l + 2, l + 3, l + 4});
    TidyTail(x, lo, l, SignedDivision(o, a, b, act, l),
             {} + {} + {l, l + 1, l + 2, l + 3, l + 4, l + 5},
             {l + 5} + {} + {l, l + 1, l + 2, l + 3, l + 4}, lo, l + 6);
  }

  /** Left operand, branch past the right one to the tail's label l, right operand, tail. */
  lemma SplitTidy(x: Ir, mid: nat, c: Cond, r: nat, y: Ir, hi: nat, t: Ir, ls: set<int>, ts: set<int>, l: nat, lo: nat)
    requires Tidy(x, lo, mid) && Tidy(y, mid, hi) && l < lo <= mid <= hi && Piece(t, ls, ts) && ts <= ls && l in ls
    requires forall k :: k in ls ==> l <= k < lo
    ensures Tidy(x + [I(BranchImm(c, r, 0, l))] + y + t, l, hi)
  {
    hide Unique, WideOk, Labels, Targets;
    var br := [I(BranchImm(c, r, 0, l))];
    BranchPiece(c, r, l);
    Concat(x, br);
    Concat(x + br, y);
    Concat(x + br + y, t);
  }

  lemma XorTidy(x: Ir, mid: nat, y: Ir, hi: nat, a: nat, b: nat, l: nat)
    requires Tidy(x, l + 2, mid) && Tidy(y, mid, hi) && l > 0 && l + 2 <= mid <= hi
    ensures Tidy(x + XorMiddle(a, l) + y + XorTail(a, b, l), l, hi)
  {
    hide Unique, WideOk, Labels, Targets;
    XorPieces(a, b, l);
    var mid, t := XorMiddle(a, l), XorTail(a, b, l);
    Concat(x, mid);
    Concat(x + mid, y);
    Concat(x + mid + y, t);
  }

  lemma TernaryTidy(k: Ir, n1: nat, x: Ir, n2: nat, y: Ir, n3: nat, c: nat, a: nat, b: nat, l: nat)
    requires Tidy(k, l + 2, n1) && Tidy(x, n1, n2) && Tidy(y, n2, n3) && l > 0 && l + 2 <= n1 <= n2 <= n3
    ensures Tidy(k + [I(BranchImm(JEQ, c, 0, l))] + x + TernaryMiddle(b, a, l) + y + [L(l + 1, Ja(0))], l, n3)
  {
    hide Unique, WideOk, Labels, Targets, TernaryMiddle;
    var br, mid, t := [I(BranchImm(JEQ, c, 0, l))], TernaryMiddle(b, a, l), [L(l + 1, Ja(0))];
    BranchPiece(JEQ, c, l);
    TernaryPieces(b, a, l);
    Concat(k, br);
    Concat(k + br, x);
    Concat(k + br + x, mid);
    Concat(k + br + x + mid, y);
    Concat(k + br + x + mid + y, t);
  }

  // ----- from expression to flat code -----

  lemma TidyWellFormed(p: Ir, lo: nat, hi: nat)
    requires Tidy(p, lo, hi) && lo > 0
    ensures WellFormed(p)
  {
    forall i | 0 <= i < |p| && IsJump(p[i].insn) ensures p[i].insn.off != 0 && Find(p, p[i].insn.off) < |p| {
      assert p[i].insn.off in Targets(p);
      var j :| 0 <= j < |p| && p[j].lbl == p[i].insn.off;
    }
  }

  /** A complete program: the expression's code followed by a return. */
  function Program(e: Expr, n: nat): Option<Ir> {
    var o := Compile(e, {}, n, 1);
    if o.None? then None else Some(o.value.code + [I(Exit)])
  }

  /** The labels that compiling e uses up. */
  function LabelCount(e: Expr): nat {
    match e
    case Const(_) => 0
    case Arith(op, signed, l, r) => LabelCount(l) + LabelCount(r) + if NeedsSignedDivision(op, signed) then 6 else 0
    case Compare(_, _, l, r) => 2 + LabelCount(l) + LabelCount(r)
    case LogicalXor(l, r) => 2 + LabelCount(l) + LabelCount(r)
    case LogicalAnd(l, r) => 2 + LabelCount(l) + LabelCount(r)
    case LogicalOr(l, r) => 3 + LabelCount(l) + LabelCount(r)
    case Comma(l, r) => LabelCount(l) + LabelCount(r)
    case Ternary(c, l, r) => 2 + LabelCount(c) + LabelCount(l) + LabelCount(r)
    case LogicalNot(c) => 2 + LabelCount(c)
    case BitNot(c) => LabelCount(c)
    case Negate(c) => LabelCount(c)
  }

  lemma {:induction false} CompileNext(e: Expr, act: set<nat>, n: nat, l: nat)
    requires Compile(e, act, n, l).Some?
    ensures Compile(e, act, n, l).value.next == l + LabelCount(e)
    decreases e, 1
  {
    hide SignedDivision, CompareTail, AndTail, OrTail, XorMiddle, XorTail, NotTail, TernaryMiddle, SetX, Alloc;
    match e
    case Const(_) =>
    case Arith(_, _, left, right) => HeldNext(e, left, right, act, n, l);
    case Compare(_, _, left, right) => HeldNext(e, left, right, act, n, l + 2);
    case LogicalXor(left, right) => HeldNext(e, left, right, act, n, l + 2);
    case LogicalAnd(left, right) => TurnNext(e, left, right, act, n, l + 2);
    case LogicalOr(left, right) => TurnNext(e, left, right, act, n, l + 3);
    case Comma(left, right) => TurnNext(e, left, right, act, n, l);
    case Ternary(c, left, right) =>
      CompileNext(c, act, n, l + 2);
      TurnNext(e, left, right, act, n, Compile(c, act, n, l + 2).value.next);
    case LogicalNot(child) => CompileNext(child, act, n, l + 2);
    case BitNot(child) => CompileNext(child, act, n, l);
    case Negate(child) => CompileNext(child, act, n, l);
  }

  lemma {:induction false} HeldNext(e: Expr, left: Expr, right: Expr, act: set<nat>, n: nat, l: nat)
    requires left < e && right < e && BothHeld(left, right, act, n, l)
    ensures var a := Compile(left, act, n, l).value;
      Compile(right, act + {a.reg}, n, a.next).value.next == l + LabelCount(left) + LabelCount(right)
    decreases e, 0
  {
    hide Compile;
    CompileNext(left, act, n, l);
    var a := Compile(left, act, n, l).value;
    CompileNext(right, act + {a.reg}, n, a.next);
  }

  lemma {:induction false} TurnNext(e: Expr, left: Expr, right: Expr, act: set<nat>, n: nat, l: nat)
    requires left < e && right < e && BothInTurn(left, right, act, n, l)
    ensures var a := Compile(left, act, n, l).value;
      Compile(right, act, n, a.next).value.next == l + LabelCount(left) + LabelCount(right)
    decreases e, 0
  {
    hide Compile;
    CompileNext(left, act, n, l);
    CompileNext(right, act, n, Compile(left, act, n, l).value.next);
  }

  lemma ProgramTidy(e: Expr, n: nat)
    requires Program(e, n).Some?
    ensures Tidy(Program(e, n).value, 1, Compile(e, {}, n, 1).value.next)
  {
    hide Compile, Unique, Tidy;
    var o := Compile(e, {}, n, 1).value;
    CompileTidy(e, {}, n, 1);
    SmallPieces(0, 0, Exit);
    TidyTail(o.code, 1, o.next, [I(Exit)], {}, {}, 1, o.next);
  }

  /** An expression that uses fewer than 2^15 labels has no label number that does not fit. */
  lemma FewLabels(e: Expr, n: nat)
    requires Program(e, n).Some? && LabelCount(e) < 0x8000
    ensures SmallLabels(Program(e, n).value)
  {
    hide Compile, LabelCount, Unique;
    ProgramTidy(e, n);
    CompileNext(e, {}, n, 1);
    var p := Program(e, n).value;
    forall i | 0 <= i < |p| && IsJump(p[i].insn) ensures p[i].insn.off < 0x8000 {
      assert p[i].insn.off in Targets(p);
    }
  }

  /** From D expression to executed flat code: the assembled program halts with the
      expression's value in the result register, or with a reported division by zero. */
  lemma CompiledAndAssembled(e: Expr, n: nat, env: Env, m: Machine) returns (k: nat, m': Machine)
    requires Program(e, n).Some? && Near(Program(e, n).value)
    requires Reports(env) && n <= |m.regs| && |m.regs| > 4
    ensures var p := Program(e, n).value;
      && WellFormed(p) && InTable(Stored(p), Compile(e, {}, n, 1).value.next)
      && FlatRun(env, FlatCode(Stored(p)), At(0, m), k) == Halted(m')
    ensures match Eval(e)
      case Val(v) => m'.Get(Compile(e, {}, n, 1).value.reg) == v && m'.faults == m.faults && m'.mem == m.mem
      case DivideByZero => m'.faults == m.faults + [DIVZERO]
  {
    hide Compile, Eval, FlatCode, Near, Reports, WellFormed, Unique, Stored, InTable, SmallLabels, Tidy;
    var p := Program(e, n).value;
    var o := Compile(e, {}, n, 1).value;
    ProgramTidy(e, n);
    TidyWellFormed(p, 1, o.next);
    assert Unique(p) by { TidyUnique(p, 1, o.next); }
    assert Stored(p) == p && InTable(p, o.next) by { ProgramStored(p, 1, o.next); }
    Sub(e, {}, n, 1, env, p, 0, m);
    m' := RunExpr(e, {}, n, 1, env, p, 0, m);
    if Eval(e).Val? {
      assert p[|o.code|] == I(Exit);
      Step(env, p, At(|o.code|, m'));
      Trans(env, p, At(0, m), At(|o.code|, m'), Halted(m'));
    }
    var j: nat :| IrRun(env, p, At(0, m), j) == Halted(m');
    AssembledRuns(env, p, At(0, m), j);
    k := FlatSteps(env, p, At(0, m), j);
  }

  lemma ProgramStored(p: Ir, lo: nat, hi: nat)
    requires WellFormed(p) && Near(p) && Tidy(p, lo, hi)
    ensures Stored(p) == p && InTable(p, hi)
  {
    hide WellFormed;
    StoredSame(p);
    forall n | 0 <= n < |p| && IsJump(p[n].insn) ensures 0 <= p[n].insn.off < hi {
      assert p[n].insn.off in Targets(p);
    }
  }

  lemma TidyUnique(p: Ir, lo: nat, hi: nat)
    requires Tidy(p, lo, hi)
    ensures Unique(p)
  {
  }

  // ----- registers needed -----

  function Max(a: nat, b: nat): nat {
    if a < b then b else a
  }

  /** Registers live at once while e is computed. */
  function Need(e: Expr): nat {
    match e
    case Const(_) => 1
    case Arith(_, _, l, r) => Max(Need(l), Need(r) + 1)
    case Compare(_, _, l, r) => Max(Need(l), Need(r) + 1)
    case LogicalXor(l, r) => Max(Need(l), Need(r) + 1)
    case LogicalAnd(l, r) => Max(Need(l), Need(r))
    case LogicalOr(l, r) => Max(Need(l), Need(r))
    case Comma(l, r) => Max(Need(l), Need(r))
    case Ternary(c, l, r) => Max(Need(c), Max(Need(l), Need(r)))
    case LogicalNot(c) => Need(c)
    case BitNot(c) => Need(c)
    case Negate(c) => Need(c)
  }

  function FreeRegs(act: set<nat>, n: nat): nat {
    if n == 0 then 0 else FreeRegs(act, n - 1) + if n - 1 in act then 0 else 1
  }

  lemma {:induction false} FreeAfterAlloc(act: set<nat>, n: nat)
    ensures Alloc(act, n).Some? <==> FreeRegs(act, n) > 0
    ensures Alloc(act, n).Some? ==> FreeRegs(act + {Alloc(act, n).value}, n) == FreeRegs(act, n) - 1
    decreases n
  {
    if n > 0 {
      AllocFree(act, n - 1);
      if n - 1 in act {
        FreeAfterAlloc(act, n - 1);
      } else {
        FreeAbove(act, n - 1, n - 1);
      }
    }
  }

  lemma {:induction false} FreeAbove(act: set<nat>, r: nat, n: nat)
    requires n <= r
    ensures FreeRegs(act + {r}, n) == FreeRegs(act, n)
    decreases n
  {
    if n > 0 {
      FreeAbove(act, r, n - 1);
    }
  }

  /** Code is generated without spilling exactly when enough registers are free. */
  lemma {:induction false} CompileSucceeds(e: Expr, act: set<nat>, n: nat, l: nat)
    ensures Compile(e, act, n, l).Some? <==> Need(e) <= FreeRegs(act, n)
    decreases e, 2
  {
    hide FreeRegs, Compile;
    FreeAfterAlloc(act, n);
    CompileParts(e, act, n, l);
    match e
    case Const(_) =>
    case Arith(_, _, left, right) => Strict(e, left, right, act, n, l);
    case Compare(_, _, left, right) => Strict(e, left, right, act, n, l + 2);
    case LogicalXor(left, right) => Strict(e, left, right, act, n, l + 2);
    case LogicalAnd(left, right) => Sequential(e, left, right, act, n, l + 2);
    case LogicalOr(left, right) => Sequential(e, left, right, act, n, l + 3);
    case Comma(left, right) => Sequential(e, left, right, act, n, l);
    case Ternary(_, _, _) => TernarySucceeds(e, act, n, l);
    case LogicalNot(child) => CompileSucceeds(child, act, n, l + 2);
    case BitNot(child) => CompileSucceeds(child, act, n, l);
    case Negate(child) => CompileSucceeds(child, act, n, l);
  }

  /** Both operands can be compiled, the right one with the left one's register taken. */
  predicate BothHeld(left: Expr, right: Expr, act: set<nat>, n: nat, l: nat) {
    var a := Compile(left, act, n, l);
    a.Some? && Compile(right, act + {a.value.reg}, n, a.value.next).Some?
  }

  /** Both operands can be compiled, one after the other. */
  predicate BothInTurn(left: Expr, right: Expr, act: set<nat>, n: nat, l: nat) {
    var a := Compile(left, act, n, l);
    a.Some? && Compile(right, act, n, a.value.next).Some?
  }

  lemma CompileParts(e: Expr, act: set<nat>, n: nat, l: nat)
    ensures Compile(e, act, n, l).Some? <==>
      match e
      case Const(_) => Alloc(act, n).Some?
      case Arith(_, _, left, right) => BothHeld(left, right, act, n, l)
      case Compare(_, _, left, right) => BothHeld(left, right, act, n, l + 2)
      case LogicalXor(left, right) => BothHeld(left, right, act, n, l + 2)
      case LogicalAnd(left, right) => BothInTurn(left, right, act, n, l + 2)
      case LogicalOr(left, right) => BothInTurn(left, right, act, n, l + 3)
      case Comma(left, right) => BothInTurn(left, right, act, n, l)
      case Ternary(c, left, right) =>
        var o := Compile(c, act, n, l + 2); o.Some? && BothInTurn(left, right, act, n, o.value.next)
      case LogicalNot(child) => Compile(child, act, n, l + 2).Some?
      case BitNot(child) => Compile(child, act, n, l).Some?
      case Negate(child) => Compile(child, act, n, l).Some?
  {
    hide SignedDivision, CompareTail, AndTail, OrTail, XorMiddle, XorTail, NotTail, TernaryMiddle, SetX;
  }

  lemma TernarySucceeds(e: Expr, act: set<nat>, n: nat, l: nat)
    requires e.Ternary?
    ensures Compile(e, act, n, l).Some? <==> Need(e) <= FreeRegs(act, n)
    decreases e, 1
  {
    hide FreeRegs, Compile;
    CompileParts(e, act, n, l);
    var Ternary(cond, left, right) := e;
    CompileSucceeds(cond, act, n, l + 2);
    if Compile(cond, act, n, l + 2).Some? {
      Sequential(e, left, right, act, n, Compile(cond, act, n, l + 2).value.next);
    }
  }

  lemma Strict(e: Expr, left: Expr, right: Expr, act: set<nat>, n: nat, l: nat)
    requires left < e && right < e
    ensures BothHeld(left, right, act, n, l) <==> Max(Need(left), Need(right) + 1) <= FreeRegs(act, n)
    decreases e, 0
  {
    hide FreeRegs, Compile;
    CompileSucceeds(left, act, n, l);
    var a := Compile(left, act, n, l);
    if a.Some? {
      CompileReg(left, act, n, l);
      FreeAfterAlloc(act, n);
      CompileSucceeds(right, act + {a.value.reg}, n, a.value.next);
    }
  }

  lemma Sequential(e: Expr, left: Expr, right: Expr, act: set<nat>, n: nat, l: nat)
    requires left < e && right < e
    ensures BothInTurn(left, right, act, n, l) <==> Max(Need(left), Need(right)) <= FreeRegs(act, n)
    decreases e, 0
  {
    hide FreeRegs, Compile;
    CompileSucceeds(left, act, n, l);
    var a := Compile(left, act, n, l);
    if a.Some? {
      CompileSucceeds(right, act, n, a.value.next);
    }
  }
}
