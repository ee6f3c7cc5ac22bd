/** The two-copy latch: an aggregation is updated in two copies, one after the other, so
    that a reader always finds a complete one. The two-copy configuration is modelled. */
module Latch {
  import opened Bpf

  type Words = seq<u64>

  /** One instruction of the update proper: it may change the copy it is pointed at and the
      registers. It is the same for both copies. */
  type Op = (Words, Words) -> (Words, Words)

  ghost predicate KeepsSize(u: seq<Op>, n: nat) {
    forall i, d, r :: 0 <= i < |u| && |d| == n ==> |u[i](d, r).0| == n
  }

  /** The first k instructions of an update, on one copy. */
  ghost function Apply(u: seq<Op>, k: nat, d: Words, regs: Words): (Words, Words)
    requires k <= |u|
  {
    if k == 0 then (d, regs) else var (e, r) := Apply(u, k - 1, d, regs); u[k - 1](e, r)
  }

  lemma {:induction false} ApplySize(u: seq<Op>, k: nat, d: Words, regs: Words)
    requires k <= |u| && KeepsSize(u, |d|)
    ensures |Apply(u, k, d, regs).0| == |d|
    decreases k
  {
    if k > 0 {
      ApplySize(u, k - 1, d, regs);
    }
  }

  /** What the update makes of a copy. */
  ghost function Whole(u: seq<Op>, d: Words, regs: Words): Words {
    Apply(u, |u|, d, regs).0
  }

  /** Memory is the sequence number followed by the two copies. `pass` counts the copies
      done, `pc` the instructions of this pass; off and ptr are the address registers. */
  datatype Config = Config(mem: Words, pass: nat, pc: nat, off: nat, ptr: nat, regs: Words)

  /** Instructions that prepare a pass. */
  const PREPARE := 6

  /** One instruction: the six that choose the copy and advance the sequence number, then
      those of the update. */
  ghost function Step(n: nat, u: seq<Op>, regs: Words, c: Config): Config
    requires |c.mem| == 1 + 2 * n
  {
    if c.pass >= 2 then c
    else if c.pc == 0 then c.(off := c.mem[0], ptr := 0, regs := regs, pc := 1)
    else if c.pc == 1 then c.(off := c.off % 2, pc := 2)
    else if c.pc == 2 then c.(off := c.off * n, pc := 3)
    else if c.pc == 3 then c.(off := c.off + 1, pc := 4)
    else if c.pc == 4 then c.(mem := c.mem[0 := W(c.mem[0] as int + 1)], pc := 5)
    else if c.pc == 5 then
      var d := c.(ptr := c.ptr + c.off, pc := 6);
      if |u| == 0 then d.(pass := c.pass + 1, pc := 0) else d
    else if c.pc - PREPARE < |u| && 1 <= c.ptr <= c.ptr + n <= |c.mem| then
      var (e, r) := u[c.pc - PREPARE](c.mem[c.ptr..c.ptr + n], c.regs);
      var d := c.(mem := c.mem[..c.ptr] + e + c.mem[c.ptr + n..], regs := r, pc := c.pc + 1);
      if d.pc - PREPARE == |u| then d.(pass := c.pass + 1, pc := 0) else d
    else c
  }

  function Copy(n: nat, mem: Words, which: nat): Words
    requires |mem| == 1 + 2 * n && which < 2
  {
    if which == 0 then mem[1..1 + n] else mem[1 + n..]
  }

  /** The copy a reader is directed to. */
  function Read(n: nat, mem: Words): Words
    requires |mem| == 1 + 2 * n
  {
    Copy(n, mem, mem[0] % 2)
  }

  /** Where the update stands: `was` is the data before it. */
  ghost predicate Progress(n: nat, u: seq<Op>, regs: Words, was: Words, c: Config) {
    && |c.mem| == 1 + 2 * n && |was| == n && c.pass <= 2
    && var now := c.mem[0] % 2;
    && (c.pass == 2 ==> Copy(n, c.mem, 0) == Whole(u, was, regs) && Copy(n, c.mem, 1) == Whole(u, was, regs))
    && (c.pass < 2 && c.pc <= 4 ==>
          && Copy(n, c.mem, now) == was
          && Copy(n, c.mem, 1 - now) == (if c.pass == 0 then was else Whole(u, was, regs))
          && (c.pc >= 1 ==> c.ptr == 0 && c.regs == regs)
          && (c.pc == 1 ==> c.off == c.mem[0]) && (c.pc == 2 ==> c.off == now)
          && (c.pc == 3 ==> c.off == now * n) && (c.pc == 4 ==> c.off == now * n + 1))
    && (c.pass < 2 && c.pc >= 5 ==>
          && Copy(n, c.mem, now) == (if c.pass == 0 then was else Whole(u, was, regs))
          && (c.pc == 5 ==>
                c.ptr == 0 && c.off == (1 - now) * n + 1 && c.regs == regs && Copy(n, c.mem, 1 - now) == was)
          && (c.pc > 5 ==>
                && c.pc - PREPARE < |u| && c.ptr == (1 - now) * n + 1
                && (Copy(n, c.mem, 1 - now), c.regs) == Apply(u, c.pc - PREPARE, was, regs)))
  }

  lemma StepProgress(n: nat, u: seq<Op>, regs: Words, was: Words, c: Config)
    requires KeepsSize(u, n) && Progress(n, u, regs, was, c)
    ensures Progress(n, u, regs, was, Step(n, u, regs, c))
  {
    var now := c.mem[0] % 2;
    if c.pass < 2 {
      if c.pc == 4 {
        Flip(c.mem[0]);
        var d := Step(n, u, regs, c);
        assert Copy(n, d.mem, 0) == Copy(n, c.mem, 0) && Copy(n, d.mem, 1) == Copy(n, c.mem, 1);
      } else if c.pc > 5 {
        StepUpdate(n, u, regs, was, c);
      }
    }
  }

  lemma Flip(x: u64)
    ensures W(x as int + 1) % 2 == 1 - x % 2
  {
  }

  /** An instruction of the update changes only the copy being written. */
  lemma StepUpdate(n: nat, u: seq<Op>, regs: Words, was: Words, c: Config)
    requires KeepsSize(u, n) && Progress(n, u, regs, was, c) && c.pass < 2 && c.pc > 5
    ensures Progress(n, u, regs, was, Step(n, u, regs, c))
  {
    hide Copy;
    var now, k := c.mem[0] % 2, c.pc - PREPARE;
    ApplySize(u, k, was, regs);
    var (e, r) := u[k](Copy(n, c.mem, 1 - now), c.regs);
    assert |e| == n;
    Replaced(n, c.mem, 1 - now, e);
    assert Apply(u, k + 1, was, regs) == (e, r);
  }

  /** While an update writes, the reader's copy and the sequence number do not change. */
  lemma WritesElsewhere(n: nat, u: seq<Op>, regs: Words, was: Words, c: Config)
    requires KeepsSize(u, n) && Progress(n, u, regs, was, c) && c.pass < 2 && c.pc > 5
    ensures var d := Step(n, u, regs, c);
      |d.mem| == |c.mem| && d.mem[0] == c.mem[0] && Read(n, d.mem) == Read(n, c.mem)
  {
    hide Copy;
    var now, k := c.mem[0] % 2, c.pc - PREPARE;
    ApplySize(u, k, was, regs);
    var (e, r) := u[k](Copy(n, c.mem, 1 - now), c.regs);
    assert |e| == n;
    Replaced(n, c.mem, 1 - now, e);
  }

  /** Overwriting one copy. */
  lemma Replaced(n: nat, mem: Words, which: nat, e: Words)
    requires |mem| == 1 + 2 * n && which < 2 && |e| == n
    ensures var p := which * n + 1; var m := mem[..p] + e + mem[p + n..];
      && p + n <= |mem| && mem[p..p + n] == Copy(n, mem, which)
      && |m| == |mem| && m[0] == mem[0] && Copy(n, m, which) == e && Copy(n, m, 1 - which) == Copy(n, mem, 1 - which)
  {
    if which == 0 {
      var m := mem[..1] + e + mem[1 + n..];
      assert m[1..1 + n] == e && m[1 + n..] == mem[1 + n..];
    } else {
      var m := mem[..1 + n] + e + mem[1 + n + n..];
      assert m[1..1 + n] == mem[1..1 + n] && m[1 + n..] == e;
    }
  }

  ghost function Run(n: nat, u: seq<Op>, regs: Words, c: Config, steps: nat): (d: Config)
    requires |c.mem| == 1 + 2 * n && KeepsSize(u, n)
    ensures |d.mem| == 1 + 2 * n
  {
    if steps == 0 then c else Step(n, u, regs, Run(n, u, regs, c, steps - 1))
  }

  function Start(mem: Words): Config {
    Config(mem, 0, 0, 0, 0, [])
  }

  /** Between updates both copies hold the same data. */
  predicate Settled(n: nat, mem: Words, d: Words) {
    |mem| == 1 + 2 * n && |d| == n && Copy(n, mem, 0) == d && Copy(n, mem, 1) == d
  }

  /** After any number of instructions the reader finds the data from before the update or
      from after it, and the instruction in progress writes elsewhere. */
  lemma {:induction false} RunProgress(n: nat, u: seq<Op>, regs: Words, d: Words, mem: Words, steps: nat)
    requires KeepsSize(u, n) && Settled(n, mem, d)
    ensures var c := Run(n, u, regs, Start(mem), steps);
      && Progress(n, u, regs, d, c)
      && (Read(n, c.mem) == d || Read(n, c.mem) == Whole(u, d, regs))
    decreases steps
  {
    hide Step, Copy;
    if steps > 0 {
      RunProgress(n, u, regs, d, mem, steps - 1);
      StepProgress(n, u, regs, d, Run(n, u, regs, Start(mem), steps - 1));
    }
  }

  // ----- every instruction runs -----

  /** Instructions done so far. */
  function Done(u: nat, c: Config): nat {
    c.pass * (PREPARE + u) + c.pc
  }

  lemma StepAdvances(n: nat, u: seq<Op>, regs: Words, was: Words, c: Config)
    requires KeepsSize(u, n) && Progress(n, u, regs, was, c) && c.pass < 2
    ensures Done(|u|, Step(n, u, regs, c)) == Done(|u|, c) + 1
  {
    hide Copy;
    assert (c.pass + 1) * (PREPARE + |u|) == c.pass * (PREPARE + |u|) + PREPARE + |u|;
    if c.pc > 5 {
      Bounds(n, c.mem[0] % 2);
    }
  }

  lemma Bounds(n: nat, now: nat)
    requires now < 2
    ensures 1 <= (1 - now) * n + 1 && (1 - now) * n + 1 + n <= 1 + 2 * n
  {
  }

  lemma {:induction false} RunAdvances(n: nat, u: seq<Op>, regs: Words, d: Words, mem: Words, steps: nat)
    requires KeepsSize(u, n) && Settled(n, mem, d) && steps <= 2 * (PREPARE + |u|)
    ensures Done(|u|, Run(n, u, regs, Start(mem), steps)) == steps
    decreases steps
  {
    hide Step, Copy, Progress;
    if steps > 0 {
      RunAdvances(n, u, regs, d, mem, steps - 1);
      RunProgress(n, u, regs, d, mem, steps - 1);
      var c := Run(n, u, regs, Start(mem), steps - 1);
      NotFinished(n, u, regs, d, c);
      StepAdvances(n, u, regs, d, c);
    }
  }

  lemma NotFinished(n: nat, u: seq<Op>, regs: Words, d: Words, c: Config)
    requires Progress(n, u, regs, d, c) && Done(|u|, c) < 2 * (PREPARE + |u|)
    ensures c.pass < 2
  {
    hide Copy;
  }

  /** A full update takes the given number of instructions and leaves both copies equal to
      the updated data. */
  lemma UpdateDone(n: nat, u: seq<Op>, regs: Words, d: Words, mem: Words)
    requires KeepsSize(u, n) && Settled(n, mem, d)
    ensures var c := Run(n, u, regs, Start(mem), 2 * (PREPARE + |u|));
      c.pass == 2 && Settled(n, c.mem, Whole(u, d, regs))
  {
    hide Step, Copy;
    RunAdvances(n, u, regs, d, mem, 2 * (PREPARE + |u|));
    RunProgress(n, u, regs, d, mem, 2 * (PREPARE + |u|));
    ApplySize(u, |u|, d, regs);
    var c := Run(n, u, regs, Start(mem), 2 * (PREPARE + |u|));
    AtEnd(n, u, regs, d, c);
  }

  lemma AtEnd(n: nat, u: seq<Op>, regs: Words, d: Words, c: Config)
    requires Progress(n, u, regs, d, c) && Done(|u|, c) == 2 * (PREPARE + |u|)
    ensures c.pass == 2
  {
    hide Copy;
  }

  // ----- runs of updates -----

  datatype Update = Update(ops: seq<Op>, regs: Words)

  ghost predicate AllKeepSize(us: seq<Update>, n: nat) {
    forall i :: 0 <= i < |us| ==> KeepsSize(us[i].ops, n)
  }

  /** The data after the first k updates. */
  ghost function Fold(us: seq<Update>, k: nat, d: Words): Words
    requires k <= |us|
  {
    if k == 0 then d else Whole(us[k - 1].ops, Fold(us, k - 1, d), us[k - 1].regs)
  }

  /** Memory after the first k updates have run to their end. */
  ghost function MemAfter(n: nat, us: seq<Update>, k: nat, mem: Words): (m: Words)
    requires k <= |us| && AllKeepSize(us, n) && |mem| == 1 + 2 * n
    ensures |m| == 1 + 2 * n
  {
    if k == 0 then mem
    else
      var u := us[k - 1];
      Run(n, u.ops, u.regs, Start(MemAfter(n, us, k - 1, mem)), 2 * (PREPARE + |u.ops|)).mem
  }

  lemma {:induction false} RunSettles(n: nat, us: seq<Update>, k: nat, mem: Words, d: Words)
    requires k <= |us| && AllKeepSize(us, n) && Settled(n, mem, d)
    ensures Settled(n, MemAfter(n, us, k, mem), Fold(us, k, d))
    decreases k
  {
    hide Settled, KeepsSize, Run, Whole;
    if k > 0 {
      SettledSize(n, mem, d);
      RunSettles(n, us, k - 1, mem, d);
      UpdateDone(n, us[k - 1].ops, us[k - 1].regs, Fold(us, k - 1, d), MemAfter(n, us, k - 1, mem));
    } else {
      SettledSize(n, mem, d);
    }
  }

  lemma SettledSize(n: nat, mem: Words, d: Words)
    requires Settled(n, mem, d)
    ensures |mem| == 1 + 2 * n
  {
  }

  /** At every instruction of every run of updates, the reader's copy is the fold of a
      prefix: the updates completed, or those and the current one. */
  lemma ReaderSafe(n: nat, us: seq<Update>, k: nat, steps: nat, mem: Words, d: Words)
    requires k < |us| && AllKeepSize(us, n) && Settled(n, mem, d)
    ensures var c := Run(n, us[k].ops, us[k].regs, Start(MemAfter(n, us, k, mem)), steps);
      Read(n, c.mem) == Fold(us, k, d) || Read(n, c.mem) == Fold(us, k + 1, d)
  {
    hide Settled, KeepsSize, Run, Whole, Progress, MemAfter;
    SettledSize(n, mem, d);
    RunSettles(n, us, k, mem, d);
    RunProgress(n, us[k].ops, us[k].regs, Fold(us, k, d), MemAfter(n, us, k, mem), steps);
  }
}
