/** Ordering ends: how much stack it needs. */
module DumpStack {
  import opened DumpOrder

  /** Every cycle of types goes through a struct or union: apart from these, types can be
      ranked so that each has a higher rank than the types it refers to. */
  ghost predicate Ranked(g: Nodes, rank: seq<nat>, top: nat) {
    && |rank| == |g|
    && (forall x :: 0 <= x < |g| ==> rank[x] <= top)
    && (forall x, i :: 0 <= x < |g| && !g[x].Aggregate? && 0 <= i < |Children(g[x])| ==>
          Children(g[x])[i] < |g| && rank[Children(g[x])[i]] < rank[x])
  }

  /** Structs and unions among the first n types that have not been entered. */
  function Unentered(g: Nodes, s: State, n: nat): nat
    requires n <= |g| == |s.order|
  {
    if n == 0 then 0
    else Unentered(g, s, n - 1) + if g[n - 1].Aggregate? && s.order[n - 1] == NotOrdered then 1 else 0
  }

  predicate Advanced(s: State, t: State) {
    |s.order| == |t.order| && forall x :: 0 <= x < |s.order| && s.order[x] != NotOrdered ==> t.order[x] != NotOrdered
  }

  lemma {:induction false} UnenteredShrinks(g: Nodes, s: State, t: State, n: nat)
    requires n <= |g| == |s.order| && Advanced(s, t)
    ensures Unentered(g, t, n) <= Unentered(g, s, n)
    decreases n
  {
    if n > 0 {
      UnenteredShrinks(g, s, t, n - 1);
    }
  }

  lemma {:induction false} UnenteredMark(g: Nodes, s: State, x: nat, n: nat)
    requires x < n <= |g| == |s.order| && g[x].Aggregate? && s.order[x] == NotOrdered
    ensures Unentered(g, Mark(s, x, Ordering), n) == Unentered(g, s, n) - 1
    decreases n
  {
    if x < n - 1 {
      UnenteredMark(g, s, x, n - 1);
    } else {
      UnenteredSame(g, s, Mark(s, x, Ordering), n - 1);
    }
  }

  lemma {:induction false} UnenteredSame(g: Nodes, s: State, t: State, n: nat)
    requires n <= |g| == |s.order| == |t.order| && forall x :: 0 <= x < n ==> s.order[x] == t.order[x]
    ensures Unentered(g, t, n) == Unentered(g, s, n)
    decreases n
  {
    if n > 0 {
      UnenteredSame(g, s, t, n - 1);
    }
  }

  /** Types never go back to being unordered. */
  lemma {:induction false} OrderAdvances(g: Nodes, s: State, x: nat, thru: bool, depth: nat)
    requires Closed(g) && x < |g| == |s.order|
    ensures Advanced(s, Order(g, s, x, thru, depth).0)
    decreases depth, 0
  {
    if depth > 0 && s.order[x] == NotOrdered {
      match g[x]
      case Pointer(to) =>
        assert to == Children(g[x])[0];
        OrderAdvances(g, s, to, true, depth - 1);
      case Chain(to) =>
        assert to == Children(g[x])[0];
        OrderAdvances(g, s, to, thru, depth - 1);
      case Alias(to) =>
        assert to == Children(g[x])[0];
        OrderAdvances(g, s, to, thru, depth - 1);
      case Aggregate(named, ms) => OrderAllAdvances(g, Mark(s, x, Ordering), ms, false, depth - 1);
      case Proto(ps) => OrderAllAdvances(g, s, ps, thru, depth - 1);
      case _ =>
    }
  }

  lemma {:induction false} OrderAllAdvances(g: Nodes, s: State, xs: seq<nat>, thru: bool, depth: nat)
    requires Closed(g) && |g| == |s.order| && InGraph(g, xs)
    ensures Advanced(s, OrderAll(g, s, xs, thru, depth).0)
    decreases depth, 1 + |xs|
  {
    if xs != [] {
      OrderAdvances(g, s, xs[0], thru, depth);
      var (t, r) := Order(g, s, xs[0], thru, depth);
      if Ok(r) {
        OrderAllAdvances(g, t, xs[1..], thru, depth);
      }
    }
  }

  function Need(g: Nodes, s: State, top: nat, rank: nat): nat
    requires |g| == |s.order|
  {
    rank + 1 + Times(Unentered(g, s, |g|), top + 2)
  }

  function Times(a: nat, b: nat): nat {
    if a == 0 then 0 else b + Times(a - 1, b)
  }

  lemma {:induction false} TimesMonotone(a: nat, b: nat, c: nat)
    requires a <= b
    ensures Times(a, c) <= Times(b, c)
    decreases b
  {
    if a < b {
      TimesMonotone(a, b - 1, c);
    }
  }

  /** Going on to something of lower rank needs less, ... */
  lemma NeedLess(g: Nodes, s: State, top: nat, r: nat, rank: nat)
    requires |g| == |s.order| && r < rank
    ensures Need(g, s, top, r) < Need(g, s, top, rank)
  {
  }

  /** ... and so does entering a struct or union, whatever rank its members have. */
  lemma NeedEntered(g: Nodes, s: State, top: nat, x: nat, r: nat, rank: nat)
    requires x < |g| == |s.order| && g[x].Aggregate? && s.order[x] == NotOrdered && r <= top
    ensures Need(g, Mark(s, x, Ordering), top, r) < Need(g, s, top, rank)
  {
    hide Unentered, Times;
    UnenteredMark(g, s, x, |g|);
    TimesStep(Unentered(g, s, |g|), top + 2);
  }

  /** With that much stack the recursion ends. */
  lemma {:induction false} OrderEnds(g: Nodes, rank: seq<nat>, top: nat, s: State, x: nat, thru: bool, depth: nat)
    requires Closed(g) && x < |g| == |s.order| && Ranked(g, rank, top) && depth >= Need(g, s, top, rank[x])
    ensures Order(g, s, x, thru, depth).1 != NoStack
    decreases depth, 0
  {
    hide Need, Ranked, OrderAll;
    assert |rank| == |g| by { RankedSize(g, rank, top); }
    assert depth > 0 by { SomeNeed(g, s, top, rank[x]); }
    if s.order[x] == NotOrdered {
      if g[x].Aggregate? {
        AggregateEnds(g, rank, top, s, x, depth);
      } else if g[x].Proto? {
        ProtoEnds(g, rank, top, s, x, thru, depth);
      } else if g[x].Pointer? || g[x].Chain? || g[x].Alias? {
        assert g[x].to == Children(g[x])[0] && InGraph(g, Children(g[x]));
        ChildNeed(g, rank, top, s, x, 0);
        OrderEnds(g, rank, top, s, g[x].to, thru || g[x].Pointer?, depth - 1);
      }
    }
  }

  lemma ChildNeed(g: Nodes, rank: seq<nat>, top: nat, s: State, x: nat, i: nat)
    requires Ranked(g, rank, top) && x < |g| == |s.order| == |rank| && !g[x].Aggregate? && i < |Children(g[x])|
    ensures Children(g[x])[i] < |g| && Need(g, s, top, rank[Children(g[x])[i]]) < Need(g, s, top, rank[x])
  {
    hide Need, Ranked;
    RankedChild(g, rank, top, x, i);
    NeedLess(g, s, top, rank[Children(g[x])[i]], rank[x]);
  }

  lemma {:induction false} AggregateEnds(g: Nodes, rank: seq<nat>, top: nat, s: State, x: nat, depth: nat)
    requires Closed(g) && x < |g| == |s.order| == |rank| && Ranked(g, rank, top) && depth >= Need(g, s, top, rank[x])
    requires g[x].Aggregate? && s.order[x] == NotOrdered && depth > 0
    ensures InGraph(g, g[x].members) && OrderAll(g, Mark(s, x, Ordering), g[x].members, false, depth - 1).1 != NoStack
    decreases depth - 1, 2 + |Children(g[x])|
  {
    hide Need, Ranked, Order, OrderAll;
    assert InGraph(g, Children(g[x]));
    var t, ms := Mark(s, x, Ordering), g[x].members;
    forall i | 0 <= i < |ms| ensures depth - 1 >= Need(g, t, top, rank[ms[i]]) {
      RankedTop(g, rank, top, ms[i]);
      NeedEntered(g, s, top, x, rank[ms[i]], rank[x]);
    }
    OrderAllEnds(g, rank, top, t, ms, false, depth - 1);
  }

  lemma {:induction false} ProtoEnds(g: Nodes, rank: seq<nat>, top: nat, s: State, x: nat, thru: bool, depth: nat)
    requires Closed(g) && x < |g| == |s.order| == |rank| && Ranked(g, rank, top) && depth >= Need(g, s, top, rank[x])
    requires g[x].Proto? && depth > 0
    ensures InGraph(g, g[x].parts) && OrderAll(g, s, g[x].parts, thru, depth - 1).1 != NoStack
    decreases depth - 1, 2 + |Children(g[x])|
  {
    hide Need, Ranked, Order, OrderAll;
    var ps := g[x].parts;
    assert InGraph(g, Children(g[x]));
    forall i | 0 <= i < |ps| ensures depth - 1 >= Need(g, s, top, rank[ps[i]]) {
      ChildNeed(g, rank, top, s, x, i);
    }
    OrderAllEnds(g, rank, top, s, ps, thru, depth - 1);
  }

  lemma RankedSize(g: Nodes, rank: seq<nat>, top: nat)
    requires Ranked(g, rank, top)
    ensures |rank| == |g|
  {
  }

  lemma RankedTop(g: Nodes, rank: seq<nat>, top: nat, x: nat)
    requires Ranked(g, rank, top) && x < |g| == |rank|
    ensures rank[x] <= top
  {
  }

  lemma RankedChild(g: Nodes, rank: seq<nat>, top: nat, x: nat, i: nat)
    requires Ranked(g, rank, top) && x < |g| == |rank| && !g[x].Aggregate? && i < |Children(g[x])|
    ensures Children(g[x])[i] < |g| && rank[Children(g[x])[i]] < rank[x]
  {
  }

  lemma SomeNeed(g: Nodes, s: State, top: nat, rank: nat)
    requires |g| == |s.order|
    ensures Need(g, s, top, rank) > 0
  {
  }

  lemma TimesStep(a: nat, b: nat)
    ensures a > 0 ==> Times(a, b) == b + Times(a - 1, b)
  {
  }

  lemma NeedAdvanced(g: Nodes, s: State, t: State, top: nat, rank: nat)
    requires |g| == |s.order| && Advanced(s, t)
    ensures Need(g, t, top, rank) <= Need(g, s, top, rank)
  {
    hide Unentered, Times;
    UnenteredShrinks(g, s, t, |g|);
    TimesMonotone(Unentered(g, t, |g|), Unentered(g, s, |g|), top + 2);
  }

  lemma {:induction false} OrderAllEnds(g: Nodes, rank: seq<nat>, top: nat, s: State, xs: seq<nat>, thru: bool,
      depth: nat)
    requires Closed(g) && |g| == |s.order| == |rank| && InGraph(g, xs) && Ranked(g, rank, top)
    requires forall i :: 0 <= i < |xs| ==> depth >= Need(g, s, top, rank[xs[i]])
    ensures OrderAll(g, s, xs, thru, depth).1 != NoStack
    decreases depth, 1 + |xs|
  {
    hide Need, Ranked, Order, Closed;
    if xs != [] {
      OrderEnds(g, rank, top, s, xs[0], thru, depth);
      var (t, r) := Order(g, s, xs[0], thru, depth);
      if Ok(r) {
        OrderAdvances(g, s, xs[0], thru, depth);
        forall i | 0 <= i < |xs[1..]| ensures depth >= Need(g, t, top, rank[xs[1..][i]]) {
          assert xs[1..][i] == xs[i + 1];
          NeedAdvanced(g, s, t, top, rank[xs[i + 1]]);
        }
        OrderAllEnds(g, rank, top, t, xs[1..], thru, depth);
      }
    }
  }

  // ----- without structs in the way it does not end -----

  ghost predicate LeadsInto(n: Node, loop: set<nat>) {
    exists i :: 0 <= i < |Children(n)| && Children(n)[i] in loop
  }

  /** Types that all lead to one another, with no struct or union among them. */
  ghost predicate IsStructFree(g: Nodes, loop: set<nat>) {
    forall x :: x in loop ==> x < |g| && !g[x].Aggregate? && LeadsInto(g[x], loop)
  }

  /** None of them has been ordered yet. */
  ghost predicate StructFreeLoop(g: Nodes, s: State, loop: set<nat>)
    requires |s.order| == |g|
  {
    IsStructFree(g, loop) && forall x :: x in loop ==> s.order[x] == NotOrdered
  }

  lemma LoopMarked(g: Nodes, s: State, loop: set<nat>, x: nat, o: OrderState, q: seq<nat>)
    requires x < |g| == |s.order| && StructFreeLoop(g, s, loop) && x !in loop
    ensures StructFreeLoop(g, State(s.order[x := o], q), loop)
  {
    hide LeadsInto;
  }

  lemma InLoop(g: Nodes, s: State, loop: set<nat>, x: nat)
    requires |s.order| == |g| && StructFreeLoop(g, s, loop) && x in loop
    ensures x < |g| && s.order[x] == NotOrdered && !g[x].Aggregate?
    ensures exists i :: 0 <= i < |Children(g[x])| && Children(g[x])[i] in loop
  {
  }

  /** However deep the stack, ordering a type of such a loop never succeeds, and other
      successes leave the loop as it is. */
  lemma {:induction false} LoopNeverEnds(g: Nodes, s: State, loop: set<nat>, x: nat, thru: bool, depth: nat)
    requires Closed(g) && x < |g| == |s.order| && StructFreeLoop(g, s, loop)
    ensures var (t, r) := Order(g, s, x, thru, depth);
      Ok(r) ==> x !in loop && StructFreeLoop(g, t, loop)
    decreases depth, 1
  {
    hide StructFreeLoop, Order;
    if x in loop {
      LoopFails(g, s, loop, x, thru, depth);
    } else {
      LoopStays(g, s, loop, x, thru, depth);
    }
  }

  lemma {:induction false} LoopFails(g: Nodes, s: State, loop: set<nat>, x: nat, thru: bool, depth: nat)
    requires Closed(g) && x < |g| == |s.order| && StructFreeLoop(g, s, loop) && x in loop
    ensures !Ok(Order(g, s, x, thru, depth).1)
    decreases depth, 0
  {
    hide StructFreeLoop;
    InLoop(g, s, loop, x);
    if depth > 0 {
      if g[x].Proto? {
        LoopNeverEndsAll(g, s, loop, g[x].parts, thru, depth - 1);
      } else {
        assert g[x].to == Children(g[x])[0];
        LoopNeverEnds(g, s, loop, g[x].to, thru || g[x].Pointer?, depth - 1);
      }
    }
  }

  lemma {:induction false} LoopStays(g: Nodes, s: State, loop: set<nat>, x: nat, thru: bool, depth: nat)
    requires Closed(g) && x < |g| == |s.order| && StructFreeLoop(g, s, loop) && x !in loop
    ensures var (t, r) := Order(g, s, x, thru, depth); Ok(r) ==> StructFreeLoop(g, t, loop)
    decreases depth, 0
  {
    hide StructFreeLoop;
    var (t, r) := Order(g, s, x, thru, depth);
    if depth > 0 && s.order[x] == NotOrdered && Ok(r) {
      match g[x]
      case Pointer(to) =>
        assert to == Children(g[x])[0];
        LoopNeverEnds(g, s, loop, to, true, depth - 1);
        LoopMarked(g, Order(g, s, to, true, depth - 1).0, loop, x, Ordered, t.queue);
      case Chain(to) =>
        assert to == Children(g[x])[0];
        LoopNeverEnds(g, s, loop, to, thru, depth - 1);
      case Alias(to) =>
        assert to == Children(g[x])[0];
        LoopNeverEnds(g, s, loop, to, thru, depth - 1);
        LoopMarked(g, Order(g, s, to, thru, depth - 1).0, loop, x, Ordered, t.queue);
      case Aggregate(named, ms) =>
        if !(thru && named) {
          var m := Mark(s, x, Ordering);
          LoopMarked(g, s, loop, x, Ordering, s.queue);
          LoopNeverEndsAll(g, m, loop, ms, false, depth - 1);
          LoopMarked(g, OrderAll(g, m, ms, false, depth - 1).0, loop, x, Ordered, t.queue);
        }
      case Proto(ps) => LoopNeverEndsAll(g, s, loop, ps, thru, depth - 1);
      case _ => LoopMarked(g, s, loop, x, Ordered, t.queue);
    }
  }

  lemma {:induction false} LoopNeverEndsAll(g: Nodes, s: State, loop: set<nat>, xs: seq<nat>, thru: bool, depth: nat)
    requires Closed(g) && |g| == |s.order| && InGraph(g, xs) && StructFreeLoop(g, s, loop)
    ensures var (t, r) := OrderAll(g, s, xs, thru, depth);
      Ok(r) ==> (forall i :: 0 <= i < |xs| ==> xs[i] !in loop) && StructFreeLoop(g, t, loop)
    decreases depth, 2 + |xs|
  {
    hide StructFreeLoop;
    if xs != [] {
      LoopNeverEnds(g, s, loop, xs[0], thru, depth);
      var (t, r) := Order(g, s, xs[0], thru, depth);
      if Ok(r) {
        LoopNeverEndsAll(g, t, loop, xs[1..], thru, depth);
      }
    }
  }

  // ----- the recursion that does not end -----

  /** Pointers, typedefs, arrays and modifiers that lead to one another for ever. */
  ghost predicate StraightLoop(g: Nodes, s: State, loop: set<nat>)
    requires |s.order| == |g|
  {
    forall x :: x in loop ==>
      x < |g| && (g[x].Pointer? || g[x].Chain? || g[x].Alias?) && s.order[x] == NotOrdered && g[x].to in loop
  }

  /** Whatever stack there is, ordering a type of such a loop uses it up: no cycle is reported. */
  lemma {:induction false} StraightLoopRunsOn(g: Nodes, s: State, loop: set<nat>, x: nat, thru: bool, depth: nat)
    requires Closed(g) && x < |g| == |s.order| && StraightLoop(g, s, loop) && x in loop
    ensures Order(g, s, x, thru, depth).1 == NoStack
    decreases depth
  {
    if depth > 0 {
      assert g[x].to == Children(g[x])[0];
      StraightLoopRunsOn(g, s, loop, g[x].to, thru || g[x].Pointer?, depth - 1);
    }
  }

  /** typedef t *t; */
  lemma TypedefOfItself(thru: bool, depth: nat)
    ensures var g := [Unknown, Alias(2), Pointer(1)];
      Closed(g) && Order(g, State([Ordered, NotOrdered, NotOrdered], []), 1, thru, depth).1 == NoStack
  {
    var g := [Unknown, Alias(2), Pointer(1)];
    assert Closed(g);
    StraightLoopRunsOn(g, State([Ordered, NotOrdered, NotOrdered], []), {1, 2}, 1, thru, depth);
  }

  /** Either types can be ranked, so that the recursion ends, or some lead to one another for
      ever without a struct or union: the two theorems leave no graph out. */
  lemma RankedOrLoop(g: Nodes)
    requires Closed(g)
    ensures (exists rank, top :: Ranked(g, rank, top)) <==> !(exists loop :: loop != {} && IsStructFree(g, loop))
  {
    hide Ranked, IsStructFree;
    if exists rank, top :: Ranked(g, rank, top) {
      var rank, top :| Ranked(g, rank, top);
      forall loop: set<nat> | loop != {} ensures !IsStructFree(g, loop) {
        RankedNoLoop(g, rank, top, loop);
      }
    } else {
      var left := set x | 0 <= x < |g| && !g[x].Aggregate?;
      PeelStart(g, left);
      Peel(g, left, seq(|g|, _ => 0), 0);
    }
  }

  /** The type of least rank in a loop would have to lead to one of lower rank. */
  lemma {:induction false} RankedNoLoop(g: Nodes, rank: seq<nat>, top: nat, loop: set<nat>)
    requires Ranked(g, rank, top) && loop != {}
    ensures !IsStructFree(g, loop)
  {
    if IsStructFree(g, loop) {
      var x :| x in loop;
      Descent(g, rank, top, loop, x);
    }
  }

  lemma {:induction false} Descent(g: Nodes, rank: seq<nat>, top: nat, loop: set<nat>, x: nat)
    requires Ranked(g, rank, top) && x in loop && IsStructFree(g, loop)
    ensures false
    decreases if x < |rank| then rank[x] else 0
  {
    var i :| 0 <= i < |Children(g[x])| && Children(g[x])[i] in loop;
    Descent(g, rank, top, loop, Children(g[x])[i]);
  }

  /** Everything outside `left` is ranked above what it refers to, which is outside too. */
  ghost predicate RankedBut(g: Nodes, rank: seq<nat>, top: nat, left: set<nat>) {
    && |rank| == |g|
    && (forall x :: x in left ==> x < |g| && !g[x].Aggregate?)
    && (forall x :: 0 <= x < |g| ==> rank[x] <= top)
    && (forall x, i :: 0 <= x < |g| && x !in left && !g[x].Aggregate? && 0 <= i < |Children(g[x])| ==>
          Children(g[x])[i] < |g| && Children(g[x])[i] !in left && rank[Children(g[x])[i]] < rank[x])
  }

  lemma PeelStart(g: Nodes, left: set<nat>)
    requires left == set x | 0 <= x < |g| && !g[x].Aggregate?
    ensures RankedBut(g, seq(|g|, _ => 0), 0, left)
  {
  }

  lemma {:induction false} Peel(g: Nodes, left: set<nat>, rank: seq<nat>, top: nat)
    requires Closed(g) && RankedBut(g, rank, top, left)
    ensures (exists rank, top :: Ranked(g, rank, top)) || (exists loop :: loop != {} && IsStructFree(g, loop))
    decreases left
  {
    hide LeadsInto;
    if left == {} {
      assert Ranked(g, rank, top);
    } else if x :| x in left && !LeadsInto(g[x], left) {
      PeelOne(g, left, rank, top, x);
      Peel(g, left - {x}, rank[x := top + 1], top + 1);
    } else {
      assert IsStructFree(g, left);
    }
  }

  lemma PeelOne(g: Nodes, left: set<nat>, rank: seq<nat>, top: nat, x: nat)
    requires Closed(g) && RankedBut(g, rank, top, left) && x in left && !LeadsInto(g[x], left)
    ensures RankedBut(g, rank[x := top + 1], top + 1, left - {x})
  {
    assert InGraph(g, Children(g[x]));
  }
}
