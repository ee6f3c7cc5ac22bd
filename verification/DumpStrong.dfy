/** Strong links through pointers: an unnamed struct or union is written where it is used, even
    behind a pointer, so what it embeds must be defined first. */
module DumpStrong {
  import opened DumpOrder

  /** What a type needs, given whether a pointer led to it: a named struct or union met through
      a pointer can be declared ahead and needs nothing; an unnamed one needs its members. */
  function Parts(n: Node, thru: bool): seq<(nat, bool)> {
    match n
    case Pointer(to) => [(to, true)]
    case Chain(to) => [(to, thru)]
    case Alias(to) => [(to, thru)]
    case Aggregate(named, ms) => if thru && named then [] else seq(|ms|, i requires 0 <= i < |ms| => (ms[i], false))
    case Proto(ps) => seq(|ps|, i requires 0 <= i < |ps| => (ps[i], true))
    case _ => []
  }

  /** y must be defined before x can be, k links down. */
  ghost predicate Needs(g: Nodes, x: nat, thru: bool, y: nat, k: nat)
    decreases k
  {
    x < |g| && if k == 0 then x == y && !thru
    else exists i :: 0 <= i < |Parts(g[x], thru)| && Needs(g, Parts(g[x], thru)[i].0, Parts(g[x], thru)[i].1, y, k - 1)
  }

  /** All definitions that x needs, x itself included where it is one, have been queued. */
  ghost predicate Met(g: Nodes, q: seq<nat>, x: nat, thru: bool) {
    forall y: nat, k: nat :: Needs(g, x, thru, y, k) && y < |g| && IsDefinition(g[y]) ==> y in q
  }

  ghost predicate PartsMet(g: Nodes, q: seq<nat>, x: nat, thru: bool)
    requires x < |g|
  {
    forall i :: 0 <= i < |Parts(g[x], thru)| ==> Met(g, q, Parts(g[x], thru)[i].0, Parts(g[x], thru)[i].1)
  }

  /** Each entry comes after everything it needs. */
  ghost predicate StronglyOrdered(g: Nodes, q: seq<nat>) {
    forall i :: 0 <= i < |q| ==> q[i] < |g| && PartsMet(g, q[..i], q[i], false)
  }

  ghost predicate StronglySound(g: Nodes, before: seq<nat>, s: State)
    requires |s.order| == |g|
  {
    && StronglyOrdered(g, before + s.queue)
    && forall x :: 0 <= x < |g| && s.order[x] == Ordered ==> Met(g, before + s.queue, x, false)
  }

  lemma MetGrows(g: Nodes, q: seq<nat>, more: seq<nat>, x: nat, thru: bool)
    requires Met(g, q, x, thru)
    ensures Met(g, q + more, x, thru)
  {
  }

  lemma MetIs(g: Nodes, q: seq<nat>, x: nat, thru: bool)
    requires x < |g|
    ensures Met(g, q, x, thru) <==> (IsDefinition(g[x]) && !thru ==> x in q) && PartsMet(g, q, x, thru)
  {
    hide Parts;
    if Met(g, q, x, thru) {
      assert !thru ==> Needs(g, x, thru, x, 0);
      forall i | 0 <= i < |Parts(g[x], thru)| ensures Met(g, q, Parts(g[x], thru)[i].0, Parts(g[x], thru)[i].1) {
        forall y: nat, k: nat |
          Needs(g, Parts(g[x], thru)[i].0, Parts(g[x], thru)[i].1, y, k) && y < |g| && IsDefinition(g[y])
          ensures y in q
        {
          assert Needs(g, x, thru, y, k + 1);
        }
      }
    }
    if (IsDefinition(g[x]) && !thru ==> x in q) && PartsMet(g, q, x, thru) {
      forall y: nat, k: nat | Needs(g, x, thru, y, k) && y < |g| && IsDefinition(g[y]) ensures y in q {
        if k > 0 {
          var i :|
            0 <= i < |Parts(g[x], thru)| && Needs(g, Parts(g[x], thru)[i].0, Parts(g[x], thru)[i].1, y, k - 1);
        }
      }
    }
  }

  /** A pointer on the way only takes needs away. */
  lemma {:induction false} NeedsLess(g: Nodes, x: nat, y: nat, k: nat)
    requires Needs(g, x, true, y, k)
    ensures Needs(g, x, false, y, k)
    decreases k
  {
    if k > 0 {
      var i :| 0 <= i < |Parts(g[x], true)| && Needs(g, Parts(g[x], true)[i].0, Parts(g[x], true)[i].1, y, k - 1);
      if g[x].Chain? || g[x].Alias? {
        NeedsLess(g, g[x].to, y, k - 1);
        assert Parts(g[x], false)[0] == (g[x].to, false);
      } else {
        assert Parts(g[x], false)[i] == Parts(g[x], true)[i];
      }
    }
  }

  lemma MetLess(g: Nodes, q: seq<nat>, x: nat)
    requires Met(g, q, x, false)
    ensures Met(g, q, x, true)
  {
    forall y: nat, k: nat | Needs(g, x, true, y, k) && y < |g| && IsDefinition(g[y]) ensures y in q {
      NeedsLess(g, x, y, k);
    }
  }

  lemma PartsMetGrow(g: Nodes, q: seq<nat>, more: seq<nat>, x: nat)
    requires x < |g| && PartsMet(g, q, x, false)
    ensures PartsMet(g, q + more, x, false)
  {
    hide Met, Parts;
    forall i | 0 <= i < |Parts(g[x], false)|
      ensures Met(g, q + more, Parts(g[x], false)[i].0, Parts(g[x], false)[i].1)
    {
      MetGrows(g, q, more, Parts(g[x], false)[i].0, Parts(g[x], false)[i].1);
    }
  }

  lemma MarkStrong(g: Nodes, before: seq<nat>, s: State, x: nat, o: OrderState)
    requires x < |g| == |s.order| && StronglySound(g, before, s)
    requires (o == Ordered ==> Met(g, before + s.queue, x, false))
    ensures StronglySound(g, before, Mark(s, x, o))
  {
    hide Met, StronglyOrdered;
  }

  lemma DefineStrong(g: Nodes, before: seq<nat>, s: State, x: nat, named: bool)
    requires x < |g| == |s.order| && StronglySound(g, before, s) && PartsMet(g, before + s.queue, x, false)
    requires IsDefinition(g[x]) ==> named
    ensures var t := Define(s, x, named);
      StronglySound(g, before, t) && s.queue <= t.queue && Met(g, before + t.queue, x, false)
  {
    hide Met, PartsMet;
    var t := Define(s, x, named);
    var q, more := before + s.queue, if named then [x] else [];
    assert before + t.queue == q + more;
    PartsMetGrow(g, q, more, x);
    MetIs(g, q + more, x, false);
    forall i | 0 <= i < |q + more| ensures (q + more)[i] < |g| && PartsMet(g, (q + more)[..i], (q + more)[i], false) {
      if i < |q| {
        assert (q + more)[..i] == q[..i];
      } else {
        assert (q + more)[..i] == q;
      }
    }
    forall y | 0 <= y < |g| && t.order[y] == Ordered ensures Met(g, q + more, y, false) {
      if y != x {
        MetGrows(g, q, more, y, false);
      }
    }
  }

  /** What ordering x leaves behind: the queue is in order whatever the outcome; after a
      success what x needs is there. */
  ghost predicate Delivered(g: Nodes, before: seq<nat>, s: State, x: nat, thru: bool, res: (State, Link))
    requires |s.order| == |g| == |res.0.order|
  {
    && StronglyOrdered(g, before + res.0.queue) && s.queue <= res.0.queue
    && (Ok(res.1) ==> StronglySound(g, before, res.0) && Met(g, before + res.0.queue, x, true))
    && (Ok(res.1) && (!thru || res.1 == Strong) ==> Met(g, before + res.0.queue, x, false))
  }

  /** As long as no call has failed. A failed one leaves pointers marked as done that are not. */
  lemma {:induction false} OrderStrong(g: Nodes, before: seq<nat>, s: State, x: nat, thru: bool, depth: nat)
    requires Closed(g) && x < |g| == |s.order| && StronglySound(g, before, s)
    ensures Delivered(g, before, s, x, thru, Order(g, s, x, thru, depth))
    decreases depth, 0
  {
    hide Met, PartsMet, Delivered, StronglySound;
    if depth > 0 && s.order[x] == NotOrdered {
      match g[x]
      case Pointer(to) => OrderPointer(g, before, s, x, thru, depth);
      case Chain(to) => OrderAlong(g, before, s, x, thru, depth);
      case Alias(to) => OrderAlong(g, before, s, x, thru, depth);
      case Aggregate(named, ms) =>
        if thru && named {
          OrderHere(g, before, s, x, thru, depth);
        } else {
          OrderAggregate(g, before, s, x, thru, depth);
        }
      case Proto(ps) => OrderProto(g, before, s, x, thru, depth);
      case _ => OrderHere(g, before, s, x, thru, depth);
    } else {
      OrderHere(g, before, s, x, thru, depth);
    }
  }

  /** The cases without recursion. */
  lemma OrderHere(g: Nodes, before: seq<nat>, s: State, x: nat, thru: bool, depth: nat)
    requires Closed(g) && x < |g| == |s.order| && StronglySound(g, before, s)
    requires depth == 0 || s.order[x] != NotOrdered || Parts(g[x], thru) == []
    requires depth > 0 && s.order[x] == NotOrdered ==>
      g[x].Basic? || g[x].Plain? || g[x].Unknown? || (g[x].Aggregate? && thru && g[x].named)
    ensures Delivered(g, before, s, x, thru, Order(g, s, x, thru, depth))
  {
    hide Met, StronglyOrdered;
    MetIs(g, before + s.queue, x, true);
    if depth > 0 && s.order[x] == Ordered {
      MetLess(g, before + s.queue, x);
    } else if depth > 0 && s.order[x] == NotOrdered {
      if g[x].Basic? {
        MetIs(g, before + s.queue, x, false);
        MarkStrong(g, before, s, x, Ordered);
      } else if g[x].Plain? {
        DefineStrong(g, before, s, x, g[x].named);
        MetLess(g, before + Define(s, x, g[x].named).queue, x);
      }
    }
  }

  lemma {:induction false} OrderPointer(g: Nodes, before: seq<nat>, s: State, x: nat, thru: bool, depth: nat)
    requires Closed(g) && x < |g| == |s.order| && StronglySound(g, before, s)
    requires depth > 0 && s.order[x] == NotOrdered && g[x].Pointer?
    ensures Delivered(g, before, s, x, thru, Order(g, s, x, thru, depth))
    decreases depth - 1, 2
  {
    hide Met, StronglyOrdered, StronglySound;
    assert g[x].to == Children(g[x])[0];
    OrderStrong(g, before, s, g[x].to, true, depth - 1);
    var (t, r) := Order(g, s, g[x].to, true, depth - 1);
    if Ok(r) {
      assert Parts(g[x], false) == [(g[x].to, true)];
      MetIs(g, before + t.queue, x, false);
      MetLess(g, before + t.queue, x);
      MarkStrong(g, before, t, x, Ordered);
    }
  }

  lemma {:induction false} OrderAlong(g: Nodes, before: seq<nat>, s: State, x: nat, thru: bool, depth: nat)
    requires Closed(g) && x < |g| == |s.order| && StronglySound(g, before, s)
    requires depth > 0 && s.order[x] == NotOrdered && (g[x].Chain? || g[x].Alias?)
    ensures Delivered(g, before, s, x, thru, Order(g, s, x, thru, depth))
    decreases depth - 1, 2
  {
    hide Met, StronglyOrdered;
    assert g[x].to == Children(g[x])[0];
    OrderStrong(g, before, s, g[x].to, thru, depth - 1);
    var (t, r) := Order(g, s, g[x].to, thru, depth - 1);
    if Ok(r) {
      MetIs(g, before + t.queue, x, true);
      MetIs(g, before + t.queue, x, false);
      if g[x].Alias? && !(thru && r == Weak) {
        DefineStrong(g, before, t, x, true);
        MetLess(g, before + Define(t, x, true).queue, x);
      }
    }
  }

  lemma {:induction false} OrderAggregate(g: Nodes, before: seq<nat>, s: State, x: nat, thru: bool, depth: nat)
    requires Closed(g) && x < |g| == |s.order| && StronglySound(g, before, s)
    requires depth > 0 && s.order[x] == NotOrdered && g[x].Aggregate? && !(thru && g[x].named)
    ensures Delivered(g, before, s, x, thru, Order(g, s, x, thru, depth))
    decreases depth - 1, 2 + |Children(g[x])|
  {
    hide Met, StronglyOrdered, OrderAll;
    assert InGraph(g, Children(g[x]));
    var m, ms := Mark(s, x, Ordering), g[x].members;
    MarkStrong(g, before, s, x, Ordering);
    OrderAllStrong(g, before, m, ms, false, depth - 1);
    var (t, r) := OrderAll(g, m, ms, false, depth - 1);
    if Ok(r) {
      DefineStrong(g, before, t, x, g[x].named);
      MetLess(g, before + Define(t, x, g[x].named).queue, x);
    }
  }

  lemma {:induction false} OrderProto(g: Nodes, before: seq<nat>, s: State, x: nat, thru: bool, depth: nat)
    requires Closed(g) && x < |g| == |s.order| && StronglySound(g, before, s)
    requires depth > 0 && s.order[x] == NotOrdered && g[x].Proto?
    ensures Delivered(g, before, s, x, thru, Order(g, s, x, thru, depth))
    decreases depth - 1, 2 + |Children(g[x])|
  {
    hide Met, StronglyOrdered, OrderAll, StronglySound;
    assert InGraph(g, Children(g[x]));
    OrderAllStrong(g, before, s, g[x].parts, thru, depth - 1);
    var (t, r) := OrderAll(g, s, g[x].parts, thru, depth - 1);
    MetIs(g, before + t.queue, x, true);
    MetIs(g, before + t.queue, x, false);
  }

  lemma {:induction false} OrderAllStrong(g: Nodes, before: seq<nat>, s: State, xs: seq<nat>, thru: bool, depth: nat)
    requires Closed(g) && |s.order| == |g| && StronglySound(g, before, s) && InGraph(g, xs)
    ensures var (t, r) := OrderAll(g, s, xs, thru, depth);
      && StronglyOrdered(g, before + t.queue) && s.queue <= t.queue
      && (Ok(r) ==> StronglySound(g, before, t))
      && (Ok(r) ==> forall i :: 0 <= i < |xs| ==>
           Met(g, before + t.queue, xs[i], true) && (!thru ==> Met(g, before + t.queue, xs[i], false)))
    decreases depth, 1 + |xs|
  {
    hide Met, StronglyOrdered, Order;
    if xs != [] {
      OrderStrong(g, before, s, xs[0], thru, depth);
      var (t, r) := Order(g, s, xs[0], thru, depth);
      if Ok(r) {
        OrderAllStrong(g, before, t, xs[1..], thru, depth);
        var (u, q) := OrderAll(g, t, xs[1..], thru, depth);
        if Ok(q) {
          var more := u.queue[|t.queue|..];
          assert before + u.queue == (before + t.queue) + more;
          MetGrows(g, before + t.queue, more, xs[0], true);
          if !thru {
            MetGrows(g, before + t.queue, more, xs[0], false);
          }
        }
      }
    }
  }

  /** Struct 3 contains itself; 1 points to the unnamed struct 2, which holds a 3; 4 holds a 1. */
  predicate Example(g: Nodes) {
    && Closed(g) && |g| == 5 && g[1] == Pointer(2) && g[2] == Aggregate(false, [3])
    && g[3] == Aggregate(true, [3]) && g[4] == Aggregate(true, [1])
  }

  predicate Untouched(s: State) {
    |s.order| == 5 && (forall x :: 1 <= x < 5 ==> s.order[x] == NotOrdered) && s.queue == []
  }

  /** Dumping 1 fails and marks it all the same; then 4 is queued without the 3 it needs. */
  lemma AfterFailure(g: Nodes, s: State, depth: nat)
    requires Example(g) && Untouched(s) && depth >= 5
    ensures var (t, r) := Order(g, s, 1, false, depth);
      var (u, q) := Order(g, t, 4, false, depth);
      r == Cycle && q == Strong && u.queue == [4] && Needs(g, 4, false, 3, 3)
  {
    hide Closed;
    var s2 := Mark(s, 2, Ordering);
    var s3 := Mark(s2, 3, Ordering);
    assert OrderAll(g, s3, [3], false, depth - 3) == (s3, Cycle);
    assert Order(g, s2, 3, false, depth - 2) == (s3, Cycle);
    assert OrderAll(g, s2, [3], false, depth - 2) == (s3, Cycle);
    assert Order(g, s, 2, true, depth - 1) == (s3, Cycle);
    var t := Mark(s3, 1, Ordered);
    var u := Mark(t, 4, Ordering);
    assert OrderAll(g, u, [1], false, depth - 1) == (u, Strong);
    assert Order(g, t, 4, false, depth) == (Define(u, 4, true), Strong);
    ExampleNeeds(g);
  }

  lemma ExampleNeeds(g: Nodes)
    requires Example(g)
    ensures Needs(g, 4, false, 3, 3)
  {
    hide Closed;
    assert Needs(g, 3, false, 3, 0);
    assert Parts(g[2], true)[0] == (3, false) && Needs(g, 2, true, 3, 1);
    assert Parts(g[1], false)[0] == (2, true) && Needs(g, 1, false, 3, 2);
    assert Parts(g[4], false)[0] == (1, false) && Needs(g, 4, false, 3, 3);
  }
}
