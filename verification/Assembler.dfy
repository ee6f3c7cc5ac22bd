/** The intermediate instruction list with labels, its execution, and the
    translation to flat code with relative branches. */
module Assembler {
  import opened Wrappers
  import opened Bpf

  /** lbl 0 means "no label"; ext names an external identifier to relocate against. */
  datatype Node = Node(lbl: nat, insn: Insn, ext: Option<nat>)

  type Ir = seq<Node>

  predicate IsNop(i: Insn) {
    i == Ja(0)
  }

  /** Labelled no-ops only carry their label and are not emitted. */
  predicate Kept(n: Node) {
    n.lbl == 0 || !IsNop(n.insn)
  }

  predicate IsJump(i: Insn) {
    i.BranchReg? || i.BranchImm? || (i.Ja? && !IsNop(i))
  }

  /** Index of the node that carries the label, or |p| if there is none. */
  function Find(p: Ir, l: int): (n: nat)
    ensures n <= |p| && (n < |p| ==> p[n].lbl == l)
    ensures forall i :: 0 <= i < n ==> p[i].lbl != l
  {
    if p == [] then 0
    else if Find(p[..|p| - 1], l) < |p| - 1 then Find(p[..|p| - 1], l)
    else if p[|p| - 1].lbl == l then |p| - 1
    else |p|
  }

  /** No label is given twice. */
  ghost predicate Distinct(p: Ir) {
    forall i, j :: 0 <= i < |p| && 0 <= j < |p| && p[i].lbl == p[j].lbl != 0 ==> i == j
  }

  /** Labels are not given twice, every jump has a target, wide loads are complete. */
  ghost predicate WellFormed(p: Ir) {
    && Distinct(p)
    && (forall i :: 0 <= i < |p| && IsJump(p[i].insn) ==> p[i].insn.off != 0 && Find(p, p[i].insn.off) < |p|)
    && (forall i :: 0 <= i < |p| && p[i].insn.Lddw? ==> i + 1 < |p| && p[i + 1].insn.LddwHi?)
  }

  function IrStep(env: Env, p: Ir, c: Config): Config {
    if !c.At? then c
    else if c.pc >= |p| then Stuck
    else
      match Exec(env, p[c.pc].insn, if c.pc + 1 < |p| then Some(p[c.pc + 1].insn) else None, c.m)
      case Next(m) => At(c.pc + 1, m)
      case Wide(m) => At(c.pc + 2, m)
      case Goto(m, off) => if Find(p, off) < |p| then At(Find(p, off), m) else Stuck
      case Stop(m) => Halted(m)
      case Bad => Stuck
  }

  function IrRun(env: Env, p: Ir, c: Config, k: nat): Config {
    if k == 0 then c else IrStep(env, p, IrRun(env, p, c, k - 1))
  }

  // ----- the flat code, as a function of the list -----

  /** Where in the flat code the n-th node ends up: the kept nodes before it. */
  function Pos(p: Ir, n: nat): nat
    requires n <= |p|
  {
    if n == 0 then 0 else Pos(p, n - 1) + if Kept(p[n - 1]) then 1 else 0
  }

  function KeptInsns(p: Ir, n: nat): (s: seq<Insn>)
    requires n <= |p|
    ensures |s| == Pos(p, n)
  {
    if n == 0 then [] else KeptInsns(p, n - 1) + if Kept(p[n - 1]) then [p[n - 1].insn] else []
  }

  function SetOff(i: Insn, off: int): Insn
    requires IsJump(i)
  {
    match i
    case BranchReg(c, dst, src, _) => BranchReg(c, dst, src, off)
    case BranchImm(c, dst, imm, _) => BranchImm(c, dst, imm, off)
    case Ja(_) => Ja(off)
  }

  /** The offset of an instruction is stored in 16 bits. */
  function Trunc16(x: int): int {
    (x + 0x8000) % 0x1_0000 - 0x8000
  }

  /** The entry of the label table; 0 for labels that no node carries. */
  function Address(p: Ir, l: int): nat {
    if l != 0 && Find(p, l) < |p| then Pos(p, Find(p, l)) else 0
  }

  function Distance(p: Ir, i: Insn, at: nat): int
    requires IsJump(i)
  {
    Address(p, i.off) - at - 1
  }

  /** The instruction for flat address `at`, its label replaced by the distance to it. */
  function Relocated(p: Ir, i: Insn, at: nat): Insn {
    if IsJump(i) then SetOff(i, Trunc16(Distance(p, i, at))) else i
  }

  /** Label numbers fit the offset field, where they are kept until assembly. */
  ghost predicate SmallLabels(p: Ir) {
    forall n :: 0 <= n < |p| && IsJump(p[n].insn) ==> p[n].insn.off < 0x8000
  }

  /** Every branch can store its label number first, and then its distance. */
  ghost predicate Near(p: Ir) {
    && SmallLabels(p)
    && forall n :: 0 <= n < |p| && IsJump(p[n].insn) ==> -0x8000 <= Distance(p, p[n].insn, Pos(p, n)) < 0x8000
  }

  function FlatCode(p: Ir): (code: seq<Insn>)
    ensures |code| == Pos(p, |p|)
  {
    var s := KeptInsns(p, |p|);
    seq(|s|, i requires 0 <= i < |s| => Relocated(p, s[i], i))
  }

  lemma {:induction false} PosMono(p: Ir, i: nat, j: nat)
    requires i <= j <= |p|
    ensures Pos(p, i) <= Pos(p, j) <= j
    ensures i < j && Kept(p[i]) ==> Pos(p, i) < Pos(p, j)
    decreases j
  {
    if i < j {
      PosMono(p, i, j - 1);
    } else if j > 0 {
      PosMono(p, i - 1, j - 1);
    }
  }

  lemma {:induction false} KeptAt(p: Ir, n: nat, top: nat)
    requires n < top <= |p| && Kept(p[n])
    ensures Pos(p, n) < Pos(p, top) && KeptInsns(p, top)[Pos(p, n)] == p[n].insn
    decreases top
  {
    PosMono(p, n, top);
    if n < top - 1 {
      KeptAt(p, n, top - 1);
    }
  }

  /** The flat instruction that stands for a kept node. */
  lemma CodeAt(p: Ir, n: nat)
    requires n < |p| && Kept(p[n])
    ensures Pos(p, n) < |FlatCode(p)| && FlatCode(p)[Pos(p, n)] == Relocated(p, p[n].insn, Pos(p, n))
    ensures Pos(p, n + 1) == Pos(p, n) + 1
  {
    KeptAt(p, n, |p|);
  }

  // ----- label numbers in 16 bits -----

  /** The instruction as it is stored: its offset, a label number so far, is cut to 16 bits. */
  function Field(i: Insn): Insn {
    match i
    case BranchReg(c, dst, src, off) => BranchReg(c, dst, src, Trunc16(off))
    case BranchImm(c, dst, imm, off) => BranchImm(c, dst, imm, Trunc16(off))
    case Ja(off) => Ja(Trunc16(off))
    case _ => i
  }

  function FieldNode(n: Node): Node {
    Node(n.lbl, Field(n.insn), n.ext)
  }

  /** The list as it is stored. */
  function Stored(p: Ir): (q: Ir)
    ensures |q| == |p| && forall i :: 0 <= i < |p| ==> q[i] == FieldNode(p[i])
  {
    seq(|p|, i requires 0 <= i < |p| => FieldNode(p[i]))
  }

  /** Storing changes nothing exactly if all label numbers fit. */
  lemma StoredSame(p: Ir)
    requires WellFormed(p)
    ensures Stored(p) == p <==> SmallLabels(p)
  {
    hide Trunc16, Find;
    forall i | 0 <= i < |p| ensures FieldNode(p[i]) == p[i] <==> (IsJump(p[i].insn) ==> p[i].insn.off < 0x8000) {
      if IsJump(p[i].insn) {
        assert p[Find(p, p[i].insn.off)].lbl == p[i].insn.off;
        TruncSame(p[i].insn.off);
      } else {
        TruncSame(0);
      }
    }
    if Stored(p) == p {
      forall n | 0 <= n < |p| && IsJump(p[n].insn) ensures p[n].insn.off < 0x8000 {
        assert Stored(p)[n] == p[n];
      }
    }
  }

  lemma TruncSame(x: int)
    ensures Trunc16(x) == x <==> -0x8000 <= x < 0x8000
  {
  }

  /** All label numbers, as stored, are in the table of `bound` labels: what the assembler asserts. */
  ghost predicate InTable(p: Ir, bound: nat) {
    forall n :: 0 <= n < |p| && IsJump(p[n].insn) ==> 0 <= p[n].insn.off < bound
  }

  /** Half of the larger label numbers make the assembler stop. The others are taken for
      smaller ones. */
  lemma StopsExactly(p: Ir, bound: nat)
    requires WellFormed(p) && forall n :: 0 <= n < |p| ==> p[n].lbl < bound
    ensures InTable(Stored(p), bound) <==>
      forall n :: 0 <= n < |p| && IsJump(p[n].insn) ==> p[n].insn.off % 0x1_0000 < 0x8000
  {
    hide Trunc16, Find;
    var q := Stored(p);
    forall n | 0 <= n < |p|
      ensures IsJump(q[n].insn) ==> IsJump(p[n].insn)
      ensures IsJump(p[n].insn) ==>
        (p[n].insn.off % 0x1_0000 < 0x8000 <==> (IsJump(q[n].insn) ==> 0 <= q[n].insn.off < bound))
    {
      TruncSame(0);
      if IsJump(p[n].insn) {
        assert p[Find(p, p[n].insn.off)].lbl == p[n].insn.off;
        TruncIs(p[n].insn.off);
      }
    }
  }

  lemma TruncIs(x: nat)
    ensures Trunc16(x) == if x % 0x1_0000 < 0x8000 then x % 0x1_0000 else x % 0x1_0000 - 0x1_0000
    ensures x % 0x1_0000 <= x
  {
    var q, r := x / 0x1_0000, x % 0x1_0000;
    if r < 0x8000 {
      Remainder16(x + 0x8000, q, r + 0x8000);
    } else {
      Remainder16(x + 0x8000, q + 1, r - 0x8000);
    }
  }

  lemma Remainder16(x: nat, q: nat, r: nat)
    requires x == q * 0x1_0000 + r && r < 0x1_0000
    ensures x % 0x1_0000 == r
  {
  }

  /** A list with label 32768, at which the assembler stops. */
  lemma LabelTooLarge(p: Ir)
    requires p == [Node(0, Ja(0x8000), None), Node(0x8000, Exit, None)]
    ensures WellFormed(p) && !InTable(Stored(p), 0x8001)
  {
    assert Find(p, 0x8000) == 1;
    assert IsJump(Stored(p)[0].insn) && Stored(p)[0].insn.off == -0x8000;
  }

  /** A list with label 65536: the jump to it is assembled into a no-op. */
  lemma JumpLost(p: Ir)
    requires p == [Node(0, Ja(0x1_0000), None), Node(0, Exit, None), Node(0x1_0000, NegReg(0), None)]
    ensures WellFormed(p) && InTable(Stored(p), 0x1_0001) && FlatCode(Stored(p)) == [Ja(0), Exit, NegReg(0)]
  {
    hide Find;
    assert p[Find(p, 0x1_0000)].lbl == 0x1_0000 by { assert p[2].lbl == 0x1_0000; }
    NoJumpsLeft(Stored(p));
  }

  lemma NoJumpsLeft(q: Ir)
    requires |q| == 3 && q[0] == Node(0, Ja(0), None) && q[1] == Node(0, Exit, None)
    requires q[2] == Node(0x1_0000, NegReg(0), None)
    ensures FlatCode(q) == [Ja(0), Exit, NegReg(0)]
  {
    assert KeptInsns(q, 1) == [Ja(0)];
    assert KeptInsns(q, 2) == [Ja(0), Exit];
    assert KeptInsns(q, 3) == [Ja(0), Exit, NegReg(0)];
  }

  // ----- the two executions agree -----

  /** The flat configuration that corresponds to one of the labelled list. */
  function Flatten(p: Ir, c: Config): Config
    requires c.At? ==> c.pc <= |p|
  {
    match c
    case At(pc, m) => At(Pos(p, pc), m)
    case Halted(m) => Halted(m)
    case Stuck => Stuck
  }

  ghost predicate Within(p: Ir, c: Config) {
    c.At? ==> c.pc <= |p|
  }

  lemma StepWithin(env: Env, p: Ir, c: Config)
    requires Within(p, c)
    ensures Within(p, IrStep(env, p, c))
  {
    hide Alu, Holds;
  }

  /** A label-only node is a step of the list and no step of the flat code. */
  lemma DroppedStep(env: Env, p: Ir, c: Config)
    requires c.At? && c.pc < |p| && !Kept(p[c.pc])
    ensures IrStep(env, p, c) == At(c.pc + 1, c.m) && Flatten(p, At(c.pc + 1, c.m)) == Flatten(p, c)
  {
  }

  /** What follows a wide load is its second half, in both forms. */
  lemma FollowsSame(p: Ir, n: nat)
    requires n < |p| && Kept(p[n])
    ensures n + 1 < |p| && p[n + 1].insn.LddwHi? ==>
      Pos(p, n) + 1 < |FlatCode(p)| && FlatCode(p)[Pos(p, n) + 1] == p[n + 1].insn && Pos(p, n + 2) == Pos(p, n) + 2
  {
    if n + 1 < |p| && p[n + 1].insn.LddwHi? {
      CodeAt(p, n);
      CodeAt(p, n + 1);
    }
  }

  /** A kept node and its flat instruction do the same thing and go to the same place. */
  lemma KeptStep(env: Env, p: Ir, c: Config)
    requires WellFormed(p) && Near(p) && c.At? && c.pc < |p| && Kept(p[c.pc])
    ensures Within(p, IrStep(env, p, c))
    ensures FlatStep(env, FlatCode(p), Flatten(p, c)) == Flatten(p, IrStep(env, p, c))
  {
    hide FlatStep, IrStep, FlatCode, Flatten, Near, WellFormed;
    if IsJump(p[c.pc].insn) {
      KeptJump(env, p, c);
    } else {
      KeptPlain(env, p, c);
    }
  }

  lemma KeptJump(env: Env, p: Ir, c: Config)
    requires WellFormed(p) && Near(p) && c.At? && c.pc < |p| && Kept(p[c.pc]) && IsJump(p[c.pc].insn)
    ensures Within(p, IrStep(env, p, c))
    ensures FlatStep(env, FlatCode(p), Flatten(p, c)) == Flatten(p, IrStep(env, p, c))
  {
    hide Alu, Holds, FlatCode, Find, Pos, Machine.Set, Machine.Get, Machine.Read, W, S;
    var n := c.pc;
    CodeAt(p, n);
    FollowsSame(p, n);
    StepWithin(env, p, c);
    PosMono(p, n, |p|);
    PosMono(p, Find(p, p[n].insn.off), |p|);
  }

  lemma KeptPlain(env: Env, p: Ir, c: Config)
    requires WellFormed(p) && Near(p) && c.At? && c.pc < |p| && Kept(p[c.pc]) && !IsJump(p[c.pc].insn)
    ensures Within(p, IrStep(env, p, c))
    ensures FlatStep(env, FlatCode(p), Flatten(p, c)) == Flatten(p, IrStep(env, p, c))
  {
    hide Alu, Holds, FlatCode, Find, Pos, Machine.Set, Machine.Get, Machine.Read, W, S;
    var n := c.pc;
    CodeAt(p, n);
    FollowsSame(p, n);
    StepWithin(env, p, c);
    PosMono(p, n, |p|);
  }

  /** Number of flat steps in k steps of the list. */
  function FlatSteps(env: Env, p: Ir, c: Config, k: nat): nat
    requires Within(p, c)
    decreases k
  {
    if k == 0 then 0
    else
      var c' := IrRun(env, p, c, k - 1);
      RunWithin(env, p, c, k - 1);
      FlatSteps(env, p, c, k - 1) + if c'.At? && c'.pc < |p| && !Kept(p[c'.pc]) then 0 else 1
  }

  lemma {:induction false} RunWithin(env: Env, p: Ir, c: Config, k: nat)
    requires Within(p, c)
    ensures Within(p, IrRun(env, p, c, k))
    decreases k
  {
    hide IrStep;
    if k > 0 {
      RunWithin(env, p, c, k - 1);
      StepWithin(env, p, IrRun(env, p, c, k - 1));
    }
  }

  /** Assembly preserves execution: every run of the list is a run of the flat code,
      step for step except for the nodes that only carry a label. */
  lemma {:induction false} AssembledRuns(env: Env, p: Ir, c: Config, k: nat)
    requires WellFormed(p) && Near(p) && Within(p, c)
    ensures Within(p, IrRun(env, p, c, k))
    ensures FlatRun(env, FlatCode(p), Flatten(p, c), FlatSteps(env, p, c, k)) == Flatten(p, IrRun(env, p, c, k))
    decreases k
  {
    hide IrStep, FlatStep, FlatCode, WellFormed, Near, Kept;
    RunWithin(env, p, c, k);
    if k > 0 {
      AssembledRuns(env, p, c, k - 1);
      OneStep(env, p, IrRun(env, p, c, k - 1));
    }
  }

  lemma OneStep(env: Env, p: Ir, c: Config)
    requires WellFormed(p) && Near(p) && Within(p, c)
    ensures Within(p, IrStep(env, p, c))
    ensures if c.At? && c.pc < |p| && !Kept(p[c.pc]) then Flatten(p, IrStep(env, p, c)) == Flatten(p, c)
            else FlatStep(env, FlatCode(p), Flatten(p, c)) == Flatten(p, IrStep(env, p, c))
  {
    hide Exec, Kept, WellFormed, Near;
    StepWithin(env, p, c);
    if c.At? && c.pc < |p| {
      if Kept(p[c.pc]) {
        KeptStep(env, p, c);
      } else {
        DroppedStep(env, p, c);
      }
    }
  }

  /** Conversely, every run of the flat code is the image of a run of the list. */
  lemma {:induction false} FlatRunsAreAssembled(env: Env, p: Ir, c: Config, j: nat) returns (k: nat)
    requires WellFormed(p) && Near(p) && Within(p, c)
    ensures Within(p, IrRun(env, p, c, k))
    ensures FlatRun(env, FlatCode(p), Flatten(p, c), j) == Flatten(p, IrRun(env, p, c, k))
    decreases j
  {
    hide IrStep, FlatStep, FlatCode, WellFormed, Near, Kept;
    k := 0;
    if j > 0 {
      k := FlatRunsAreAssembled(env, p, c, j - 1);
      k := SkipLabels(env, p, c, k);
      OneStep(env, p, IrRun(env, p, c, k));
      k := k + 1;
    }
  }

  /** Finitely many label-only nodes are passed before the next real instruction. */
  lemma {:induction false} SkipLabels(env: Env, p: Ir, c: Config, k: nat) returns (k': nat)
    requires WellFormed(p) && Near(p) && Within(p, c)
    ensures Within(p, IrRun(env, p, c, k)) && Within(p, IrRun(env, p, c, k'))
    ensures Flatten(p, IrRun(env, p, c, k')) == Flatten(p, IrRun(env, p, c, k))
    ensures var d := IrRun(env, p, c, k'); !(d.At? && d.pc < |p| && !Kept(p[d.pc]))
    decreases var d := IrRun(env, p, c, k); if d.At? then |p| - d.pc else 0
  {
    hide IrStep, WellFormed, Near, Kept;
    RunWithin(env, p, c, k);
    var d := IrRun(env, p, c, k);
    k' := k;
    if d.At? && d.pc < |p| && !Kept(p[d.pc]) {
      DroppedStep(env, p, d);
      assert IrRun(env, p, c, k + 1) == At(d.pc + 1, d.m);
      k' := SkipLabels(env, p, c, k + 1);
    }
  }

  // ----- relocation entries -----

  /** Flat offsets of the instructions that refer to external identifiers, with the identifier. */
  function Relocs(p: Ir, n: nat): seq<(nat, nat)>
    requires n <= |p|
  {
    if n == 0 then []
    else
      Relocs(p, n - 1) +
      if Kept(p[n - 1]) && p[n - 1].ext.Some? then [(Pos(p, n - 1), p[n - 1].ext.value)] else []
  }

  predicate MadeFor(p: Ir, k: nat, r: (nat, nat)) {
    k < |p| && Kept(p[k]) && Pos(p, k) == r.0 && p[k].ext == Some(r.1)
  }

  ghost predicate HasNode(p: Ir, n: nat, r: (nat, nat)) {
    exists k: nat :: k < n && MadeFor(p, k, r)
  }

  /** Entries ascend strictly; each names the instruction it was made for, and none is missing. */
  lemma {:induction false} RelocsOrdered(p: Ir, n: nat)
    requires n <= |p|
    ensures forall i, j :: 0 <= i < j < |Relocs(p, n)| ==> Relocs(p, n)[i].0 < Relocs(p, n)[j].0
    ensures forall r :: r in Relocs(p, n) ==> r.0 < Pos(p, n) && HasNode(p, n, r)
    ensures forall k :: 0 <= k < n && Kept(p[k]) && p[k].ext.Some? ==> (Pos(p, k), p[k].ext.value) in Relocs(p, n)
  {
    hide Kept;
    if n > 0 {
      RelocsOrdered(p, n - 1);
      var before := Relocs(p, n - 1);
      forall r | r in Relocs(p, n) ensures HasNode(p, n, r) {
        if r in before {
          var k: nat :| k < n - 1 && MadeFor(p, k, r);
        } else {
          assert MadeFor(p, n - 1, r);
        }
      }
    }
  }

  // ----- the list and the assembler's passes -----

  class IrList {
    var nodes: Ir
    var len: nat
    var nextLabel: nat
    /** The nodes as they were meant, before label numbers were cut to 16 bits. */
    ghost var meant: Ir

    ghost predicate Valid()
      reads this
    {
      && nextLabel > 0 && len == Pos(nodes, |nodes|) && nodes == Stored(meant)
      && forall i :: 0 <= i < |nodes| ==> nodes[i].lbl < nextLabel
    }

    constructor ()
      ensures Valid() && nodes == meant == [] && nextLabel == 1
    {
      nodes, len, nextLabel, meant := [], 0, 1, [];
    }

    method Append(n: Node)
      requires Valid() && n.lbl < nextLabel
      modifies this`nodes, this`len, this`meant
      ensures Valid() && nodes == old(nodes) + [FieldNode(n)] && meant == old(meant) + [n]
    {
      hide Pos, Field;
      var node := FieldNode(n);
      PosPrefix(nodes, [node], |nodes|);
      PosLast(nodes, node);
      nodes, meant := nodes + [node], meant + [n];
      if node.lbl == 0 || !IsNop(node.insn) {
        len := len + 1;
      }
    }

    lemma SameLength()
      requires Valid()
      ensures |nodes| == |meant|
    {
    }

    /** Replaces the instruction of an unlabelled node, which is emitted either way. */
    method Patch(i: nat, insn: Insn)
      requires Valid() && i < |meant| && meant[i].lbl == 0
      modifies this`nodes, this`meant
      ensures Valid() && nodes == old(nodes)[i := Node(0, Field(insn), old(nodes)[i].ext)]
      ensures meant == old(meant)[i := Node(0, insn, old(meant)[i].ext)]
    {
      PosPatch(nodes, i, Field(insn), |nodes|);
      nodes, meant := nodes[i := Node(0, Field(insn), nodes[i].ext)], meant[i := Node(0, insn, meant[i].ext)];
    }

    method NewLabel() returns (l: nat)
      requires Valid()
      modifies this`nextLabel
      ensures Valid() && l == old(nextLabel) && nextLabel == l + 1
    {
      l := nextLabel;
      nextLabel := nextLabel + 1;
    }

    /** First pass: the kept instructions in order, and the address of every label. */
    static method Layout(p: Ir, len: nat, labels: array<nat>) returns (buf: array<Insn>)
      requires Distinct(p) && len == Pos(p, |p|)
      requires forall i :: 0 <= i < |p| ==> p[i].lbl < labels.Length
      requires forall l :: 0 <= l < labels.Length ==> labels[l] == 0
      modifies labels
      ensures fresh(buf) && buf[..] == KeptInsns(p, |p|)
      ensures forall l :: 0 <= l < labels.Length ==> labels[l] == Address(p, l)
    {
      hide Kept, Find, Pos, KeptInsns, Distinct;
      UniqueLabels(p);
      buf := new Insn[len](_ => Exit);
      var i := 0;
      var n := 0;
      KeptStart(p);
      while n < |p|
        invariant 0 <= n <= |p| && i == Pos(p, n) <= len == buf.Length
        invariant buf[..i] == KeptInsns(p, n)
        invariant forall k :: 0 <= k < n && p[k].lbl != 0 ==> labels[p[k].lbl] == Pos(p, k)
        invariant forall l :: 0 <= l < labels.Length && labels[l] != 0 ==> l != 0 && Carried(p, n, l)
      {
        KeptNext(p, n);
        CarriedNext(p, n);
        if p[n].lbl != 0 {
          labels[p[n].lbl] := i;
        }
        if Kept(p[n]) {
          buf[i] := p[n].insn;
          assert buf[..i + 1] == buf[..i] + [p[n].insn];
          i := i + 1;
        }
        n := n + 1;
      }
      forall l | 0 <= l < labels.Length ensures labels[l] == Address(p, l) {
        CarriedIs(p, l);
      }
    }

    /** Second pass: labels become distances; it stops at a label number that is not in the table. */
    static method Relocate(p: Ir, buf: array<Insn>, labels: array<nat>) returns (ok: bool)
      requires buf[..] == KeptInsns(p, |p|)
      requires forall l :: 0 <= l < labels.Length ==> labels[l] == Address(p, l)
      modifies buf
      ensures ok <==> InTable(p, labels.Length)
      ensures ok ==> buf[..] == FlatCode(p)
    {
      hide Trunc16, SetOff, Pos, KeptInsns, Address, InTable;
      ghost var raw := buf[..];
      var i := 0;
      while i < buf.Length
        invariant 0 <= i <= |raw| == buf.Length
        invariant forall k :: 0 <= k < i ==> buf[k] == Relocated(p, raw[k], k)
        invariant forall k :: i <= k < |raw| ==> buf[k] == raw[k]
        invariant forall k :: 0 <= k < i && IsJump(raw[k]) ==> 0 <= raw[k].off < labels.Length
      {
        var instr := buf[i];
        if IsJump(instr) {
          if !(0 <= instr.off < labels.Length) {
            TableBroken(p, labels.Length, i);
            return false;
          }
          buf[i] := SetOff(instr, Trunc16(labels[instr.off] - i - 1));
        }
        i := i + 1;
      }
      TableHolds(p, labels.Length);
      ok := true;
    }

    /** The assembler: flat code that `AssembledRuns` relates to the list, and its relocations.
        It stops, giving no code, exactly if a stored label number is not in the table. */
    method Assemble() returns (code: Option<seq<Insn>>, relocs: seq<(nat, nat)>)
      requires Valid() && WellFormed(meant)
      ensures code == if InTable(nodes, nextLabel) then Some(FlatCode(nodes)) else None
      ensures SmallLabels(meant) ==> code == Some(FlatCode(meant)) && |code.value| == len
      ensures code.Some? ==> relocs == Relocs(nodes, |nodes|)
    {
      hide WellFormed, SmallLabels, InTable, Kept;
      var labels := new nat[nextLabel](_ => 0);
      assert Distinct(nodes) by { StoredDistinct(meant); }
      AssembledSmall(meant, nextLabel);
      var buf := Layout(nodes, len, labels);
      var ok := Relocate(nodes, buf, labels);
      relocs := [];
      if !ok {
        return None, [];
      }
      code := Some(buf[..]);
      var i := 0;
      for n := 0 to |nodes|
        invariant i == Pos(nodes, n) && relocs == Relocs(nodes, n)
      {
        if Kept(nodes[n]) {
          if nodes[n].ext.Some? {
            relocs := relocs + [(i, nodes[n].ext.value)];
          }
          i := i + 1;
        }
      }
    }
  }

  lemma StoredDistinct(p: Ir)
    requires WellFormed(p)
    ensures Distinct(Stored(p))
  {
  }

  /** With small label numbers the list is assembled as it was meant. */
  lemma AssembledSmall(p: Ir, bound: nat)
    requires WellFormed(p) && forall n :: 0 <= n < |p| ==> p[n].lbl < bound
    ensures SmallLabels(p) ==> Stored(p) == p && InTable(p, bound)
  {
    hide Find;
    if SmallLabels(p) {
      StoredSame(p);
      forall n | 0 <= n < |p| && IsJump(p[n].insn) ensures 0 <= p[n].insn.off < bound {
        assert p[Find(p, p[n].insn.off)].lbl == p[n].insn.off;
      }
    }
  }

  ghost predicate Carried(p: Ir, n: nat, l: nat)
    requires n <= |p|
  {
    exists k :: 0 <= k < n && p[k].lbl == l
  }

  lemma CarriedNext(p: Ir, n: nat)
    requires n < |p|
    ensures forall l :: Carried(p, n, l) ==> Carried(p, n + 1, l)
    ensures Carried(p, n + 1, p[n].lbl)
  {
  }

  /** A label that a node carries is found at the node. */
  lemma CarriedIs(p: Ir, l: nat)
    ensures l != 0 && Carried(p, |p|, l) <==> l != 0 && Find(p, l) < |p|
    ensures l != 0 && Find(p, l) < |p| ==> p[Find(p, l)].lbl == l && Address(p, l) == Pos(p, Find(p, l))
    ensures !(l != 0 && Find(p, l) < |p|) ==> Address(p, l) == 0
  {
    hide Find;
  }

  /** The jumps among the kept instructions are those of the nodes. */
  lemma TableBroken(p: Ir, bound: nat, i: nat)
    requires i < Pos(p, |p|)
    requires var insn := KeptInsns(p, |p|)[i]; IsJump(insn) && !(0 <= insn.off < bound)
    ensures !InTable(p, bound)
  {
    var n := NodeOf(p, |p|, i);
  }

  lemma TableHolds(p: Ir, bound: nat)
    requires forall k :: 0 <= k < Pos(p, |p|) && IsJump(KeptInsns(p, |p|)[k]) ==>
      0 <= KeptInsns(p, |p|)[k].off < bound
    ensures InTable(p, bound)
  {
    hide Pos, KeptInsns;
    forall n | 0 <= n < |p| && IsJump(p[n].insn) ensures 0 <= p[n].insn.off < bound {
      KeptAt(p, n, |p|);
    }
  }

  lemma {:induction false} NodeOf(p: Ir, n: nat, i: nat) returns (k: nat)
    requires n <= |p| && i < Pos(p, n)
    ensures k < n && KeptInsns(p, n)[i] == p[k].insn
    decreases n
  {
    if i < Pos(p, n - 1) {
      k := NodeOf(p, n - 1, i);
    } else {
      k := n - 1;
    }
  }

  lemma KeptStart(p: Ir)
    ensures Pos(p, 0) == 0 && KeptInsns(p, 0) == []
  {
  }

  lemma KeptNext(p: Ir, n: nat)
    requires n < |p|
    ensures Pos(p, n + 1) == Pos(p, n) + (if Kept(p[n]) then 1 else 0) <= Pos(p, |p|)
    ensures KeptInsns(p, n + 1) == KeptInsns(p, n) + if Kept(p[n]) then [p[n].insn] else []
  {
    PosMono(p, n + 1, |p|);
  }

  lemma UniqueLabels(p: Ir)
    requires Distinct(p)
    ensures forall i, j :: 0 <= i < |p| && 0 <= j < |p| && p[i].lbl == p[j].lbl != 0 ==> i == j
  {
  }

  lemma {:induction false} PosPrefix(p: Ir, q: Ir, n: nat)
    requires n <= |p|
    ensures Pos(p + q, n) == Pos(p, n)
    decreases n
  {
    if n > 0 {
      PosPrefix(p, q, n - 1);
    }
  }

  lemma PosLast(p: Ir, n: Node)
    ensures Pos(p + [n], |p| + 1) == Pos(p + [n], |p|) + if n.lbl == 0 || !IsNop(n.insn) then 1 else 0
  {
  }

  lemma {:induction false} PosPatch(p: Ir, i: nat, insn: Insn, n: nat)
    requires i < |p| && p[i].lbl == 0 && n <= |p|
    ensures Pos(p[i := Node(0, insn, p[i].ext)], n) == Pos(p, n)
    decreases n
  {
    if n > 0 {
      PosPatch(p, i, insn, n - 1);
    }
  }
}
