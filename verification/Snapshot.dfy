/** Snapshots of aggregations: per-CPU data merged into one table. */
module Snapshot {
  import opened Wrappers
  import opened Arith
  import opened Bpf
  import Stddev

  type Words = seq<u64>

  /** How values of several CPUs combine: count, sum, avg and the quantize family add. */
  datatype Fun = Max | Min | Add

  datatype Agg = Agg(fun: Fun, words: nat)

  /** The data of one aggregation on one CPU, with its sequence number. */
  datatype Slot = Slot(latch: u64, data: Words)

  predicate Good(a: Agg) {
    a.fun != Add ==> a.words == 1
  }

  const INT64_MAX: u64 := 0x7fff_ffff_ffff_ffff
  const INT64_MIN: u64 := 0x8000_0000_0000_0000

  function Neutral(a: Agg): (d: Words)
    ensures |d| == a.words
  {
    seq(a.words, _ => match a.fun case Max => INT64_MIN case Min => INT64_MAX case Add => 0)
  }

  function Combine(f: Fun, d: Words, s: Words): (r: Words)
    requires |d| == |s| && (f != Add ==> |d| == 1)
    ensures |r| == |d|
  {
    match f
    case Max => if S(s[0]) > S(d[0]) then s else d
    case Min => if S(s[0]) < S(d[0]) then s else d
    case Add => seq(|d|, i requires 0 <= i < |d| => W(d[i] as int + s[i]))
  }

  /** The value the merged data must have. */
  function Fold(a: Agg, slots: seq<Slot>): (d: Words)
    requires Good(a) && Fits(a, slots)
    ensures |d| == a.words
  {
    if slots == [] then Neutral(a) else Combine(a.fun, Fold(a, slots[..|slots| - 1]), slots[|slots| - 1].data)
  }

  predicate Fits(a: Agg, slots: seq<Slot>) {
    forall c :: 0 <= c < |slots| ==> |slots[c].data| == a.words
  }

  /** A CPU that never updated the aggregation holds its neutral data. */
  predicate Unused(a: Agg, slots: seq<Slot>) {
    forall c :: 0 <= c < |slots| && slots[c].latch == 0 ==> slots[c].data == Neutral(a)
  }

  predicate SomeUsed(slots: seq<Slot>) {
    exists c :: 0 <= c < |slots| && slots[c].latch != 0
  }

  lemma NeutralLeft(a: Agg, d: Words)
    requires Good(a) && |d| == a.words
    ensures Combine(a.fun, Neutral(a), d) == d && Combine(a.fun, d, Neutral(a)) == d
  {
    if a.fun != Add {
      assert d == [d[0]] && Neutral(a) == [Neutral(a)[0]];
    }
  }

  // ----- one aggregation -----

  /** The table entry after one CPU has been processed. */
  function Merge(e: Option<Words>, a: Agg, s: Slot, first: bool): (r: Option<Words>)
    requires Good(a) && |s.data| == a.words && (e.Some? ==> |e.value| == a.words)
    ensures r.Some? ==> |r.value| == a.words
  {
    if e.Some? then
      if first then Some(s.data)
      else if s.latch == 0 then e
      else Some(Combine(a.fun, e.value, s.data))
    else if s.latch == 0 then None
    else Some(s.data)
  }

  function MergeAll(e: Option<Words>, a: Agg, slots: seq<Slot>): (r: Option<Words>)
    requires Good(a) && Fits(a, slots) && (e.Some? ==> |e.value| == a.words)
    ensures r.Some? ==> |r.value| == a.words
  {
    if slots == [] then e
    else
      var n := |slots| - 1;
      Merge(MergeAll(e, a, slots[..n]), a, slots[n], n == 0)
  }

  /** Whatever the table held before, the result is the fold of the current data. */
  lemma {:induction false} MergeAllIs(e: Option<Words>, a: Agg, slots: seq<Slot>)
    requires Good(a) && Fits(a, slots) && (e.Some? ==> |e.value| == a.words) && Unused(a, slots) && slots != []
    ensures MergeAll(e, a, slots) == if e.Some? || SomeUsed(slots) then Some(Fold(a, slots)) else None
    ensures !SomeUsed(slots) ==> Fold(a, slots) == Neutral(a)
    decreases |slots|
  {
    hide Combine, Neutral;
    var n := |slots| - 1;
    var before := slots[..n];
    assert SomeUsed(slots) <==> SomeUsed(before) || slots[n].latch != 0 by {
      assert forall c :: 0 <= c < n ==> before[c] == slots[c];
    }
    if n == 0 {
      assert before == [];
      NeutralLeft(a, slots[0].data);
    } else {
      MergeAllIs(e, a, before);
      NeutralLeft(a, slots[n].data);
      NeutralLeft(a, Fold(a, before));
    }
  }

  // ----- the table -----

  predicate GoodSlots(aggs: seq<Agg>, slots: seq<Slot>) {
    |slots| == |aggs| && forall i :: 0 <= i < |aggs| ==> |slots[i].data| == aggs[i].words
  }

  /** The data of aggregation i on each CPU. */
  function Column(cpus: seq<seq<Slot>>, i: nat): (col: seq<Slot>)
    requires forall c :: 0 <= c < |cpus| ==> i < |cpus[c]|
    ensures |col| == |cpus| && forall c :: 0 <= c < |cpus| ==> col[c] == cpus[c][i]
  {
    seq(|cpus|, c requires 0 <= c < |cpus| => cpus[c][i])
  }

  predicate GoodCpus(aggs: seq<Agg>, cpus: seq<seq<Slot>>) {
    forall c :: 0 <= c < |cpus| ==> GoodSlots(aggs, cpus[c])
  }

  lemma ColumnFits(aggs: seq<Agg>, cpus: seq<seq<Slot>>, i: nat)
    requires GoodCpus(aggs, cpus) && i < |aggs|
    ensures (forall c :: 0 <= c < |cpus| ==> i < |cpus[c]|) && Fits(aggs[i], Column(cpus, i))
  {
    assert forall c :: 0 <= c < |cpus| ==> GoodSlots(aggs, cpus[c]);
  }

  class Table {
    const aggs: seq<Agg>
    /** Merged data, for aggregations that have an entry. */
    var table: map<nat, Words>

    ghost predicate Valid()
      reads this
    {
      && (forall i :: 0 <= i < |aggs| ==> Good(aggs[i]))
      && (forall i :: i in table ==> i < |aggs| && |table[i]| == aggs[i].words)
    }

    function Entry(i: nat): (e: Option<Words>)
      reads this
    {
      if i in table then Some(table[i]) else None
    }

    constructor (aggs: seq<Agg>)
      requires forall i :: 0 <= i < |aggs| ==> Good(aggs[i])
      ensures Valid() && this.aggs == aggs && table == map[]
    {
      this.aggs, table := aggs, map[];
    }

    /** One CPU's data of one aggregation. */
    method SnapOne(i: nat, s: Slot, first: bool)
      requires Valid() && i < |aggs| && |s.data| == aggs[i].words
      modifies this
      ensures Valid() && Entry(i) == Merge(old(Entry(i)), aggs[i], s, first)
      ensures forall k :: k != i ==> Entry(k) == old(Entry(k))
    {
      if i in table {
        if first {
          table := table[i := s.data];
        } else if s.latch != 0 {
          match aggs[i].fun
          case Max =>
            if S(s.data[0]) > S(table[i][0]) {
              table := table[i := s.data];
            }
          case Min =>
            if S(s.data[0]) < S(table[i][0]) {
              table := table[i := s.data];
            }
          case Add =>
            var sum := AddWords(table[i], s.data);
            table := table[i := sum];
        }
      } else if s.latch != 0 {
        table := table[i := s.data];
      }
    }

    /** All aggregations of one CPU. */
    method SnapCpu(slots: seq<Slot>, first: bool)
      requires Valid() && GoodSlots(aggs, slots)
      modifies this
      ensures Valid() && forall i :: 0 <= i < |aggs| ==> Entry(i) == Merge(old(Entry(i)), aggs[i], slots[i], first)
    {
      hide Merge;
      var k := 0;
      while k < |aggs|
        invariant 0 <= k <= |aggs| && Valid()
        invariant forall i :: 0 <= i < k ==> Entry(i) == Merge(old(Entry(i)), aggs[i], slots[i], first)
        invariant forall i :: k <= i < |aggs| ==> Entry(i) == old(Entry(i))
      {
        SnapOne(k, slots[k], first);
        k := k + 1;
      }
    }

    /** A snapshot: the first CPU's data replaces the entry, the others are merged in. */
    method Snap(cpus: seq<seq<Slot>>)
      requires Valid() && GoodCpus(aggs, cpus)
      modifies this
      ensures Valid()
      ensures forall i :: 0 <= i < |aggs| ==>
        (forall c :: 0 <= c < |cpus| ==> i < |cpus[c]|) && Fits(aggs[i], Column(cpus, i))
        && Entry(i) == MergeAll(old(Entry(i)), aggs[i], Column(cpus, i))
      ensures forall i :: 0 <= i < |aggs| && cpus != [] && Unused(aggs[i], Column(cpus, i)) ==>
        Entry(i) == if old(Entry(i)).Some? || SomeUsed(Column(cpus, i))
          then Some(Fold(aggs[i], Column(cpus, i))) else None
    {
      hide Merge, MergeAll, Fold, Unused, SomeUsed;
      forall i | 0 <= i < |aggs|
        ensures (forall c :: 0 <= c < |cpus| ==> i < |cpus[c]|) && Fits(aggs[i], Column(cpus, i))
      {
        ColumnFits(aggs, cpus, i);
      }
      forall i | 0 <= i < |aggs| ensures MergeAll(Entry(i), aggs[i], []) == Entry(i) {
        NoCpus(Entry(i), aggs[i]);
      }
      var k := 0;
      while k < |cpus|
        invariant 0 <= k <= |cpus| && Valid()
        invariant forall i :: 0 <= i < |aggs| ==> Entry(i) == MergeAll(old(Entry(i)), aggs[i], Column(cpus, i)[..k])
      {
        ghost var before := table;
        SnapCpu(cpus[k], k == 0);
        forall i | 0 <= i < |aggs|
          ensures Entry(i) == MergeAll(old(Entry(i)), aggs[i], Column(cpus, i)[..k + 1])
        {
          MergeNext(old(Entry(i)), aggs[i], Column(cpus, i), k);
        }
        k := k + 1;
      }
      forall i | 0 <= i < |aggs| ensures Column(cpus, i)[..k] == Column(cpus, i) {
      }
      forall i | 0 <= i < |aggs| && cpus != [] && Unused(aggs[i], Column(cpus, i))
        ensures Entry(i) == if old(Entry(i)).Some? || SomeUsed(Column(cpus, i))
          then Some(Fold(aggs[i], Column(cpus, i))) else None
      {
        MergeAllIs(old(Entry(i)), aggs[i], Column(cpus, i));
      }
    }
  }

  lemma NoCpus(e: Option<Words>, a: Agg)
    requires Good(a) && (e.Some? ==> |e.value| == a.words)
    ensures MergeAll(e, a, []) == e
  {
  }

  lemma MergeNext(e: Option<Words>, a: Agg, slots: seq<Slot>, k: nat)
    requires Good(a) && Fits(a, slots) && (e.Some? ==> |e.value| == a.words) && k < |slots|
    ensures MergeAll(e, a, slots[..k + 1]) == Merge(MergeAll(e, a, slots[..k]), a, slots[k], k == 0)
  {
    assert slots[..k + 1][..k] == slots[..k];
  }

  method AddWords(d: Words, s: Words) returns (r: Words)
    requires |d| == |s|
    ensures r == Combine(Add, d, s)
  {
    r := [];
    for i := 0 to |d|
      invariant |r| == i && forall k :: 0 <= k < i ==> r[k] == W(d[k] as int + s[k])
    {
      r := r + [W(d[i] as int + s[i])];
    }
  }

  // ----- initial data -----

  /** Fills in the starting values of min() and max(); the sequence number of the first
      aggregation serves as a flag meanwhile. */
  method InitialSlots(aggs: seq<Agg>, online: nat) returns (cpus: seq<seq<Slot>>)
    requires forall i :: 0 <= i < |aggs| ==> Good(aggs[i])
    ensures |cpus| == online && GoodCpus(aggs, cpus)
    ensures forall c, i :: 0 <= c < online && 0 <= i < |aggs| ==> cpus[c][i] == Slot(0, Neutral(aggs[i]))
  {
    var buf := seq(|aggs|, i requires 0 <= i < |aggs| => Slot(0, seq(aggs[i].words, _ => 0)));
    ghost var zero := buf;
    var k := 0;
    while k < |aggs|
      invariant 0 <= k <= |aggs| == |buf|
      invariant forall i :: 0 <= i < k ==> buf[i].data == Neutral(aggs[i])
      invariant forall i :: k <= i < |aggs| ==> buf[i].data == zero[i].data
      invariant forall i :: 0 < i < |aggs| ==> buf[i].latch == 0
      invariant |aggs| > 0 && buf[0].latch == 0 ==> forall i :: 0 <= i < k ==> aggs[i].fun == Add
    {
      if aggs[k].fun != Add {
        var value := if aggs[k].fun == Min then INT64_MAX else INT64_MIN;
        buf := buf[0 := Slot(1, buf[0].data)];
        buf := buf[k := Slot(buf[k].latch, [value])];
        assert buf[k].data == Neutral(aggs[k]);
      } else {
        assert buf[k].data == Neutral(aggs[k]);
      }
      k := k + 1;
    }
    if |aggs| > 0 && buf[0].latch != 0 {
      buf := buf[0 := Slot(0, buf[0].data)];
    }
    assert forall i :: 0 <= i < |aggs| ==> buf[i] == Slot(0, Neutral(aggs[i]));
    assert GoodSlots(aggs, buf);
    cpus := seq(online, _ => buf);
  }

  // ----- updates between snapshots -----

  /** One update of aggregation `agg` on a CPU: the sequence number goes up by one, the data
      becomes whatever the aggregation makes of it. */
  datatype Update = Update(cpu: nat, agg: nat, apply: Words -> Words)

  function Updated(cpus: seq<seq<Slot>>, u: Update): seq<seq<Slot>> {
    if u.cpu < |cpus| && u.agg < |cpus[u.cpu]| then
      var s := cpus[u.cpu][u.agg];
      cpus[u.cpu := cpus[u.cpu][u.agg := Slot(W(s.latch as int + 1), u.apply(s.data))]]
    else cpus
  }

  function AfterUpdates(cpus: seq<seq<Slot>>, us: seq<Update>): seq<seq<Slot>> {
    if us == [] then cpus else Updated(AfterUpdates(cpus, us[..|us| - 1]), us[|us| - 1])
  }

  /** How many of the updates are for one aggregation on one CPU. */
  function Hits(us: seq<Update>, cpu: nat, agg: nat): (n: nat)
    ensures n <= |us|
  {
    if us == [] then 0
    else Hits(us[..|us| - 1], cpu, agg) + if us[|us| - 1].cpu == cpu && us[|us| - 1].agg == agg then 1 else 0
  }

  /** The sequence number counts updates, and data that was never updated is what it was. */
  lemma {:induction false} SequenceCounts(cpus: seq<seq<Slot>>, us: seq<Update>, c: nat, i: nat)
    requires c < |cpus| && i < |cpus[c]| && cpus[c][i].latch == 0
    ensures var after := AfterUpdates(cpus, us);
      && c < |after| && i < |after[c]|
      && after[c][i].latch == W(Hits(us, c, i))
      && (Hits(us, c, i) == 0 ==> after[c][i] == cpus[c][i])
    decreases |us|
  {
    hide W;
    if us == [] {
      WSmall(0);
    } else {
      SequenceCounts(cpus, us[..|us| - 1], c, i);
      WAdd(Hits(us[..|us| - 1], c, i), 1);
    }
  }

  lemma WSmall(x: nat)
    requires x < WORD
    ensures W(x) == x
  {
  }

  /** From the initial data, any run of fewer than 2^64 updates keeps what snapshots rely on:
      a CPU whose sequence number is 0 holds the neutral data. */
  lemma UnusedKept(aggs: seq<Agg>, cpus: seq<seq<Slot>>, us: seq<Update>, i: nat)
    requires i < |aggs| && |us| < WORD
    requires forall c :: 0 <= c < |cpus| ==> |cpus[c]| == |aggs| && cpus[c][i] == Slot(0, Neutral(aggs[i]))
    ensures var after := AfterUpdates(cpus, us);
      |after| == |cpus| && (forall c :: 0 <= c < |after| ==> i < |after[c]|) && Unused(aggs[i], Column(after, i))
  {
    hide W, Neutral, AfterUpdates, Hits;
    var after: seq<seq<Slot>> := AfterUpdates(cpus, us);
    CpusStay(cpus, us);
    forall c: nat | c < |after|
      ensures i < |after[c]| && (after[c][i].latch == 0 ==> after[c][i].data == Neutral(aggs[i]))
    {
      SequenceCounts(cpus, us, c, i);
      WSmall(Hits(us, c, i));
    }
  }

  lemma {:induction false} CpusStay(cpus: seq<seq<Slot>>, us: seq<Update>)
    ensures |AfterUpdates(cpus, us)| == |cpus|
    decreases |us|
  {
    if us != [] {
      CpusStay(cpus, us[..|us| - 1]);
    }
  }

  // ----- merging standard deviations -----

  /** Adding the two words of a sum of squares separately loses the carry: the merged pair
      is the sum just when the low words do not overflow. */
  lemma StddevMerge(d: Words, s: Words)
    requires |d| == 4 && |s| == 4
    ensures var r := Combine(Add, d, s);
      (Stddev.Pair(r[3], r[2]) == (Stddev.Pair(d[3], d[2]) + Stddev.Pair(s[3], s[2])) % Stddev.WORD2)
        <==> d[2] as int + s[2] < WORD
  {
    hide Stddev.Pair, W;
    var r := Combine(Add, d, s);
    Stddev.CarryIn(d[2], d[3], s[3], s[2]);
    Stddev.PairWords(s[3], s[2]);
    PairBound(s[3], s[2]);
    Stddev.PairSum(d[2], d[3], Stddev.Pair(s[3], s[2]));
    NextWord(d[3] as int + s[3]);
    CarryTest(d[2], s[2]);
    Stddev.WAddBoth(d[3] as int + 1, s[3]);
    DifferentHigh(r[3], W(W(d[3] as int + 1) as int + s[3]), r[2]);
    WAdd(d[3] as int + 1, s[3]);
  }

  lemma PairBound(hi: u64, low: u64)
    ensures Stddev.Pair(hi, low) < Stddev.WORD2
  {
  }

  lemma NextWord(x: int)
    ensures W(x) != W(x + 1)
  {
  }

  lemma CarryTest(a: u64, b: u64)
    ensures b <= W(a as int + b) <==> a as int + b < WORD
  {
  }

  lemma DifferentHigh(x: nat, y: nat, low: nat)
    ensures Stddev.Pair(x, low) == Stddev.Pair(y, low) <==> x == y
  {
  }
}
