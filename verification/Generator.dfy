/** The code generator at work: it appends to the instruction list, takes and
    returns registers, and reaches back to patch the move of a ternary's first arm. */
module Generator {
  import opened Wrappers
  import opened Bpf
  import opened Assembler
  import opened CodeGen
  import opened CodeGenProof

  class RegSet {
    const active: array<bool>

    constructor (size: nat)
      ensures fresh(active) && active.Length == size && InUse() == {}
    {
      active := new bool[size](_ => false);
    }

    ghost function InUse(): set<nat>
      reads active
    {
      set r: nat | r < active.Length && active[r]
    }

    /** The highest-numbered free register, if there is one. */
    method Take() returns (r: Option<nat>)
      modifies active
      ensures r == Alloc(old(InUse()), active.Length)
      ensures InUse() == old(InUse()) + if r.Some? then {r.value} else {}
    {
      var reg := active.Length;
      while reg > 0
        invariant 0 <= reg <= active.Length && InUse() == old(InUse())
        invariant Alloc(InUse(), active.Length) == Alloc(InUse(), reg)
      {
        if !active[reg - 1] {
          active[reg - 1] := true;
          return Some(reg - 1);
        }
        reg := reg - 1;
      }
      return None;
    }

    method Snapshot() returns (used: set<nat>)
      ensures used == InUse()
    {
      used := set r: nat | r < active.Length && active[r];
    }

    method Release(r: nat)
      requires r in InUse()
      modifies active
      ensures InUse() == old(InUse()) - {r}
    {
      active[r] := false;
    }
  }

  class Generator {
    const ir: IrList
    const regs: RegSet

    constructor (size: nat)
      ensures Valid() && fresh(ir) && fresh(regs) && fresh(regs.active)
      ensures ir.meant == [] && ir.nextLabel == 1 && regs.InUse() == {} && regs.active.Length == size
    {
      ir := new IrList();
      regs := new RegSet(size);
    }

    ghost predicate Valid()
      reads this, ir, regs, regs.active
    {
      ir.Valid()
    }

    method Emit(code: Ir)
      requires Valid() && LabelsBelow(code, ir.nextLabel)
      modifies ir`nodes, ir`len, ir`meant
      ensures Valid() && ir.meant == old(ir.meant) + code
    {
      hide Pos;
      for i := 0 to |code|
        invariant Valid() && ir.meant == old(ir.meant) + code[..i] && ir.nextLabel == old(ir.nextLabel)
      {
        ir.Append(code[i]);
        assert code[..i + 1] == code[..i] + [code[i]];
      }
      assert code[..|code|] == code;
    }

    /** What was appended is what `Compile` describes, and exactly the result
        register has been allocated. */
    ghost predicate Made(o: Option<Out>, r: Option<nat>, act: set<nat>, before: Ir)
      reads ir, regs, regs.active
    {
      if o.None? then r.None?
      else
        && r == Some(o.value.reg) && ir.meant == before + o.value.code && ir.nextLabel == o.value.next
        && regs.InUse() == act + {o.value.reg} && o.value.reg !in act
    }

    method Node(e: Expr) returns (r: Option<nat>)
      requires Valid()
      modifies ir, regs.active
      decreases e, 1
      ensures Valid() && Made(Compile(e, old(regs.InUse()), regs.active.Length, old(ir.nextLabel)),
        r, old(regs.InUse()), old(ir.meant))
    {
      hide Compile, Made, Pos;
      match e
      case Const(_) => r := Constant(e);
      case Arith(_, _, _, _) => r := ArithmeticOp(e);
      case Compare(_, _, _, _) => r := CompareOp(e);
      case LogicalAnd(_, _) => r := AndOp(e);
      case LogicalOr(_, _) => r := OrOp(e);
      case LogicalXor(_, _) => r := XorOp(e);
      case LogicalNot(_) => r := NotOp(e);
      case Ternary(_, _, _) => r := TernaryOp(e);
      case Comma(_, _) => r := CommaOp(e);
      case BitNot(_) => r := UnaryOp(e);
      case Negate(_) => r := UnaryOp(e);
    }

    method Constant(e: Expr) returns (r: Option<nat>)
      requires Valid() && e.Const?
      modifies ir, regs.active
      decreases e, 0
      ensures Valid() && Made(Compile(e, old(regs.InUse()), regs.active.Length, old(ir.nextLabel)),
        r, old(regs.InUse()), old(ir.meant))
    {
      hide RegSet.InUse, Pos, Alloc, CompareTail, AndTail, OrTail, XorMiddle, XorTail, NotTail, TernaryMiddle;
      hide SignedDivision, SetX;
      ghost var act, l0, nodes := regs.InUse(), ir.nextLabel, ir.meant;
      AllocFree(act, regs.active.Length);
      r := regs.Take();
      if r.Some? {
        PlainLabels(r.value, e.value);
        if e.value > 0x7fff_ffff {
          Emit(SetX(r.value, e.value));
        } else {
          Emit([I(AluImm(MOV, r.value, e.value))]);
        }
      }
    }

    method ArithmeticOp(e: Expr) returns (r: Option<nat>)
      requires Valid() && e.Arith?
      modifies ir, regs.active
      decreases e, 0
      ensures Valid() && Made(Compile(e, old(regs.InUse()), regs.active.Length, old(ir.nextLabel)),
        r, old(regs.InUse()), old(ir.meant))
    {
      hide RegSet.InUse, Pos, Alloc, CompareTail, AndTail, OrTail, XorMiddle, XorTail, NotTail, TernaryMiddle;
      hide SignedDivision, SetX, Compile;
      ArithUnfold(e, regs.InUse(), regs.active.Length, ir.nextLabel);
      ghost var act, l0, nodes := regs.InUse(), ir.nextLabel, ir.meant;
      var x := Node(e.left);
      if x.None? { return None; }
      var y := Node(e.right);
      if y.None? { return None; }
      var op := AluFor(e.op, e.signed);
      if NeedsSignedDivision(e.op, e.signed) {
        var l1 := ir.NewLabel();
        var l2 := ir.NewLabel();
        var l3 := ir.NewLabel();
        var l4 := ir.NewLabel();
        var l5 := ir.NewLabel();
        var valid := ir.NewLabel();
        var used := regs.Snapshot();
        DivisionLabels(op, x.value, y.value, used, l1);
        Emit(SignedDivision(op, x.value, y.value, used, l1));
        assert used == act + {x.value, y.value};
      } else {
        Emit([I(AluReg(op, x.value, y.value))]);
      }
      regs.Release(y.value);
      r := x;
    }

    method CompareOp(e: Expr) returns (r: Option<nat>)
      requires Valid() && e.Compare?
      modifies ir, regs.active
      decreases e, 0
      ensures Valid() && Made(Compile(e, old(regs.InUse()), regs.active.Length, old(ir.nextLabel)),
        r, old(regs.InUse()), old(ir.meant))
    {
      hide RegSet.InUse, Pos, Alloc, CompareTail, AndTail, OrTail, XorMiddle, XorTail, NotTail, TernaryMiddle;
      hide SignedDivision, SetX, Compile;
      BinaryUnfold(e, regs.InUse(), regs.active.Length, ir.nextLabel);
      ghost var act, l0, nodes := regs.InUse(), ir.nextLabel, ir.meant;
      var lblTrue := ir.NewLabel();
      var lblPost := ir.NewLabel();
      var x := Node(e.left);
      if x.None? { return None; }
      var y := Node(e.right);
      if y.None? { return None; }
      CompileGrows(e.left, act, regs.active.Length, l0 + 2);
      CompileGrows(e.right, act + {x.value}, regs.active.Length,
        Compile(e.left, act, regs.active.Length, l0 + 2).value.next);
      TailLabels(CondFor(e.cmp, e.signed), x.value, y.value, lblTrue);
      Emit(CompareTail(CondFor(e.cmp, e.signed), x.value, y.value, lblTrue));
      regs.Release(y.value);
      r := x;
    }

    method AndOp(e: Expr) returns (r: Option<nat>)
      requires Valid() && e.LogicalAnd?
      modifies ir, regs.active
      decreases e, 0
      ensures Valid() && Made(Compile(e, old(regs.InUse()), regs.active.Length, old(ir.nextLabel)),
        r, old(regs.InUse()), old(ir.meant))
    {
      hide RegSet.InUse, Pos, Alloc, CompareTail, AndTail, OrTail, XorMiddle, XorTail, NotTail, TernaryMiddle;
      hide SignedDivision, SetX, Compile;
      BinaryUnfold(e, regs.InUse(), regs.active.Length, ir.nextLabel);
      ghost var act, l0, nodes := regs.InUse(), ir.nextLabel, ir.meant;
      var lblFalse := ir.NewLabel();
      var lblPost := ir.NewLabel();
      var x := Node(e.left);
      if x.None? { return None; }
      Emit([I(BranchImm(JEQ, x.value, 0, lblFalse))]);
      regs.Release(x.value);
      assert regs.InUse() == act;
      var y := Node(e.right);
      if y.None? { return None; }
      CompileGrows(e.left, act, regs.active.Length, l0 + 2);
      CompileGrows(e.right, act, regs.active.Length, Compile(e.left, act, regs.active.Length, l0 + 2).value.next);
      TailLabels(JEQ, y.value, y.value, lblFalse);
      Emit(AndTail(y.value, lblFalse));
      r := y;
    }

    method OrOp(e: Expr) returns (r: Option<nat>)
      requires Valid() && e.LogicalOr?
      modifies ir, regs.active
      decreases e, 0
      ensures Valid() && Made(Compile(e, old(regs.InUse()), regs.active.Length, old(ir.nextLabel)),
        r, old(regs.InUse()), old(ir.meant))
    {
      hide RegSet.InUse, Pos, Alloc, CompareTail, AndTail, OrTail, XorMiddle, XorTail, NotTail, TernaryMiddle;
      hide SignedDivision, SetX, Compile;
      BinaryUnfold(e, regs.InUse(), regs.active.Length, ir.nextLabel);
      ghost var act, l0, nodes := regs.InUse(), ir.nextLabel, ir.meant;
      var lblTrue := ir.NewLabel();
      var lblFalse := ir.NewLabel();
      var lblPost := ir.NewLabel();
      var x := Node(e.left);
      if x.None? { return None; }
      Emit([I(BranchImm(JNE, x.value, 0, lblTrue))]);
      regs.Release(x.value);
      assert regs.InUse() == act;
      var y := Node(e.right);
      if y.None? { return None; }
      CompileGrows(e.left, act, regs.active.Length, l0 + 3);
      CompileGrows(e.right, act, regs.active.Length, Compile(e.left, act, regs.active.Length, l0 + 3).value.next);
      TailLabels(JEQ, y.value, y.value, lblTrue);
      Emit(OrTail(y.value, lblTrue));
      r := y;
    }

    method XorOp(e: Expr) returns (r: Option<nat>)
      requires Valid() && e.LogicalXor?
      modifies ir, regs.active
      decreases e, 0
      ensures Valid() && Made(Compile(e, old(regs.InUse()), regs.active.Length, old(ir.nextLabel)),
        r, old(regs.InUse()), old(ir.meant))
    {
      hide RegSet.InUse, Pos, Alloc, CompareTail, AndTail, OrTail, XorMiddle, XorTail, NotTail, TernaryMiddle;
      hide SignedDivision, SetX, Compile;
      BinaryUnfold(e, regs.InUse(), regs.active.Length, ir.nextLabel);
      ghost var act, l0, nodes := regs.InUse(), ir.nextLabel, ir.meant;
      var lblNext := ir.NewLabel();
      var lblTail := ir.NewLabel();
      var x := Node(e.left);
      if x.None? { return None; }
      CompileGrows(e.left, act, regs.active.Length, l0 + 2);
      TailLabels(JEQ, x.value, x.value, lblNext);
      Emit(XorMiddle(x.value, lblNext));
      var y := Node(e.right);
      if y.None? { return None; }
      CompileGrows(e.right, act + {x.value}, regs.active.Length,
        Compile(e.left, act, regs.active.Length, l0 + 2).value.next);
      TailLabels(JEQ, x.value, y.value, lblNext);
      Emit(XorTail(x.value, y.value, lblNext));
      regs.Release(y.value);
      r := x;
    }

    method NotOp(e: Expr) returns (r: Option<nat>)
      requires Valid() && e.LogicalNot?
      modifies ir, regs.active
      decreases e, 0
      ensures Valid() && Made(Compile(e, old(regs.InUse()), regs.active.Length, old(ir.nextLabel)),
        r, old(regs.InUse()), old(ir.meant))
    {
      hide RegSet.InUse, Pos, Alloc, CompareTail, AndTail, OrTail, XorMiddle, XorTail, NotTail, TernaryMiddle;
      hide SignedDivision, SetX;
      ghost var act, l0, nodes := regs.InUse(), ir.nextLabel, ir.meant;
      var lblZero := ir.NewLabel();
      var lblPost := ir.NewLabel();
      r := Node(e.child);
      if r.None? { return None; }
      CompileGrows(e.child, act, regs.active.Length, l0 + 2);
      TailLabels(JEQ, r.value, r.value, lblZero);
      Emit(NotTail(r.value, lblZero));
    }

    /** The first arm ends in a placeholder move; its target is known, and the
        move completed, only after the second arm has been generated. */
    method TernaryOp(e: Expr) returns (r: Option<nat>)
      requires Valid() && e.Ternary?
      modifies ir, regs.active
      decreases e, 0
      ensures Valid() && Made(Compile(e, old(regs.InUse()), regs.active.Length, old(ir.nextLabel)),
        r, old(regs.InUse()), old(ir.meant))
    {
      hide IrList.Valid, RegSet.InUse, Pos, Alloc, CompareTail, AndTail, OrTail, XorMiddle, XorTail, NotTail;
      hide TernaryMiddle, SignedDivision, SetX, Compile;
      TernaryUnfold(e, regs.InUse(), regs.active.Length, ir.nextLabel);
      ghost var act, l0, nodes := regs.InUse(), ir.nextLabel, ir.meant;
      var lblFalse := ir.NewLabel();
      var lblPost := ir.NewLabel();
      var c := Node(e.cond);
      if c.None? { return None; }
      CompileGrows(e.cond, act, regs.active.Length, l0 + 2);
      ghost var nextC := ir.nextLabel;
      Emit([I(BranchImm(JEQ, c.value, 0, lblFalse))]);
      regs.Release(c.value);
      assert regs.InUse() == act;
      var x := Node(e.left);
      if x.None? { return None; }
      CompileGrows(e.left, act, regs.active.Length, nextC);
      r := OtherArm(e.right, x.value, lblFalse, lblPost);
    }

    /** From the placeholder move on. */
    method OtherArm(e: Expr, x: nat, lblFalse: nat, lblPost: nat) returns (r: Option<nat>)
      requires Valid() && x in regs.InUse() && lblPost == lblFalse + 1 < ir.nextLabel
      modifies ir, regs.active
      decreases e, 2
      ensures Valid()
      ensures var o := Compile(e, old(regs.InUse()) - {x}, regs.active.Length, old(ir.nextLabel));
        if o.None? then r.None?
        else
          && r == Some(o.value.reg) && ir.nextLabel == o.value.next
          && ir.meant == old(ir.meant) + TernaryMiddle(o.value.reg, x, lblFalse) + o.value.code + [L(lblPost, Ja(0))]
          && regs.InUse() == old(regs.InUse()) - {x} + {o.value.reg} && o.value.reg !in old(regs.InUse()) - {x}
    {
      hide IrList.Valid, RegSet.InUse, Pos, TernaryMiddle, Compile;
      ghost var first, l0, act := ir.meant, ir.nextLabel, regs.InUse() - {x};
      ir.SameLength();
      var dip := |ir.nodes|;
      Emit([I(AluImm(MOV, x, 0))]);
      regs.Release(x);
      Emit([I(Ja(lblPost)), L(lblFalse, Ja(0))]);
      r := Node(e);
      if r.None? { return; }
      ghost var second := Compile(e, act, regs.active.Length, l0).value;
      CompileGrows(e, act, regs.active.Length, l0);
      assert ir.meant == first + [I(AluImm(MOV, x, 0))] + [I(Ja(lblPost)), L(lblFalse, Ja(0))] + second.code;
      ir.Patch(dip, AluReg(MOV, r.value, x));
      Emit([L(lblPost, Ja(0))]);
      PatchedMiddle(first, x, r.value, lblFalse, second.code);
    }

    method CommaOp(e: Expr) returns (r: Option<nat>)
      requires Valid() && e.Comma?
      modifies ir, regs.active
      decreases e, 0
      ensures Valid() && Made(Compile(e, old(regs.InUse()), regs.active.Length, old(ir.nextLabel)),
        r, old(regs.InUse()), old(ir.meant))
    {
      hide RegSet.InUse, Pos, Alloc, CompareTail, AndTail, OrTail, XorMiddle, XorTail, NotTail, TernaryMiddle;
      hide SignedDivision, SetX;
      ghost var act, l0, nodes := regs.InUse(), ir.nextLabel, ir.meant;
      var x := Node(e.left);
      if x.None? { return None; }
      regs.Release(x.value);
      assert regs.InUse() == act;
      r := Node(e.right);
    }

    method UnaryOp(e: Expr) returns (r: Option<nat>)
      requires Valid() && (e.BitNot? || e.Negate?)
      modifies ir, regs.active
      decreases e, 0
      ensures Valid() && Made(Compile(e, old(regs.InUse()), regs.active.Length, old(ir.nextLabel)),
        r, old(regs.InUse()), old(ir.meant))
    {
      hide RegSet.InUse, Pos, Alloc, CompareTail, AndTail, OrTail, XorMiddle, XorTail, NotTail, TernaryMiddle;
      hide SignedDivision, SetX;
      ghost var act, l0, nodes := regs.InUse(), ir.nextLabel, ir.meant;
      r := Node(e.child);
      if r.None? { return None; }
      Emit([I(if e.BitNot? then AluImm(XOR, r.value, -1) else NegReg(r.value))]);
    }
  }

  lemma TernaryUnfold(e: Expr, act: set<nat>, n: nat, l: nat)
    requires e.Ternary?
    ensures var c := Compile(e.cond, act, n, l + 2);
      if c.None? then Compile(e, act, n, l) == None else
      var a := Compile(e.left, act, n, c.value.next);
      if a.None? then Compile(e, act, n, l) == None else
      var b := Compile(e.right, act, n, a.value.next);
      if b.None? then Compile(e, act, n, l) == None else
      Compile(e, act, n, l) == Some(Out(c.value.code + [I(BranchImm(JEQ, c.value.reg, 0, l))]
               + a.value.code + TernaryMiddle(b.value.reg, a.value.reg, l)
               + b.value.code + [L(l + 1, Ja(0))], b.value.reg, b.value.next))
  {
  }

  lemma BinaryUnfold(e: Expr, act: set<nat>, n: nat, l: nat)
    requires e.Compare? || e.LogicalAnd? || e.LogicalOr? || e.LogicalXor?
    ensures var a := Compile(e.left, act, n, if e.LogicalOr? then l + 3 else l + 2);
      if a.None? then Compile(e, act, n, l) == None else
      var x := a.value.reg;
      var b := Compile(e.right, if e.Compare? || e.LogicalXor? then act + {x} else act, n, a.value.next);
      if b.None? then Compile(e, act, n, l) == None else
      var y := b.value.reg;
      Compile(e, act, n, l) == Some(
        match e
        case Compare(cmp, signed, _, _) =>
          Out(a.value.code + b.value.code + CompareTail(CondFor(cmp, signed), x, y, l), x, b.value.next)
        case LogicalAnd(_, _) =>
          Out(a.value.code + [I(BranchImm(JEQ, x, 0, l))] + b.value.code + AndTail(y, l), y, b.value.next)
        case LogicalOr(_, _) =>
          Out(a.value.code + [I(BranchImm(JNE, x, 0, l))] + b.value.code + OrTail(y, l), y, b.value.next)
        case LogicalXor(_, _) =>
          Out(a.value.code + XorMiddle(x, l) + b.value.code + XorTail(x, y, l), x, b.value.next))
  {
    hide CompareTail, AndTail, OrTail, XorMiddle, XorTail, Alloc;
  }

  lemma ArithUnfold(e: Expr, act: set<nat>, n: nat, l: nat)
    requires e.Arith?
    ensures var a := Compile(e.left, act, n, l);
      if a.None? then Compile(e, act, n, l) == None else
      var b := Compile(e.right, act + {a.value.reg}, n, a.value.next);
      if b.None? then Compile(e, act, n, l) == None else
      var x, y := a.value.reg, b.value.reg;
      Compile(e, act, n, l) ==
        if NeedsSignedDivision(e.op, e.signed) then
          Some(Out(a.value.code + b.value.code
                   + SignedDivision(AluFor(e.op, e.signed), x, y, act + {x, y}, b.value.next),
                   x, b.value.next + 6))
        else
          Some(Out(a.value.code + b.value.code + [I(AluReg(AluFor(e.op, e.signed), x, y))], x, b.value.next))
  {
    hide SignedDivision;
  }

  lemma CompileGrows(e: Expr, act: set<nat>, n: nat, l: nat)
    requires Compile(e, act, n, l).Some?
    ensures l <= Compile(e, act, n, l).value.next
  {
    CompileReg(e, act, n, l);
  }

  lemma PlainLabels(r: nat, v: u64)
    ensures LabelsBelow(SetX(r, v), 1)
  {
  }

  ghost predicate LabelsBelow(code: Ir, n: nat) {
    forall i :: 0 <= i < |code| ==> code[i].lbl < n
  }

  lemma TailLabels(c: Cond, x: nat, y: nat, l: nat)
    ensures LabelsBelow(CompareTail(c, x, y, l), l + 2) && LabelsBelow(AndTail(y, l), l + 2)
    ensures LabelsBelow(OrTail(y, l), l + 3)
    ensures LabelsBelow(XorMiddle(x, l), l + 1) && LabelsBelow(XorTail(x, y, l), l + 2)
    ensures LabelsBelow(NotTail(x, l), l + 2)
  {
  }

  lemma {:induction false} SavesUnlabelled(act: set<nat>, rs: seq<nat>)
    ensures LabelsBelow(Saves(act, rs), 1) && LabelsBelow(Restores(act, rs), 1)
    decreases rs
  {
    if rs != [] {
      SavesUnlabelled(act, rs[1..]);
    }
  }

  lemma DivisionLabels(op: AluOp, x: nat, y: nat, act: set<nat>, l: nat)
    ensures LabelsBelow(SignedDivision(op, x, y, act, l), l + 6)
  {
    hide Saves, Restores;
    SavesUnlabelled(act, ARGS);
    SavesUnlabelled(act, [0]);
    assert LabelsBelow(FaultCode(act, DIVZERO), 1);
    hide FaultCode;
    assert LabelsBelow(DivisionBody(op, x, y, l), l + 6);
  }

  lemma PatchedMiddle(first: Ir, x: nat, y: nat, l: nat, second: Ir)
    ensures (first + [I(AluImm(MOV, x, 0))] + [I(Ja(l + 1)), L(l, Ja(0))] + second)[|first| := I(AluReg(MOV, y, x))]
         == first + TernaryMiddle(y, x, l) + second
  {
  }
}
