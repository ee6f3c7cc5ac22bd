/** When a definition is queued only once. */
module DumpOnce {
  import opened DumpOrder

  /** What ordering goes on to from a type, given whether a pointer led there, ... */
  function Steps(n: Node, thru: bool): seq<nat> {
    if n.Aggregate? && thru && n.named then [] else Children(n)
  }

  /** ... and whether a pointer leads on. */
  predicate Onward(n: Node, thru: bool) {
    !n.Aggregate? && (thru || n.Pointer?)
  }

  /** Ordering x may come to y, k steps on. */
  ghost predicate ReachesIn(g: Nodes, x: nat, thru: bool, y: nat, k: nat)
    decreases k
  {
    x < |g| && if k == 0 then x == y
    else exists i :: 0 <= i < |Steps(g[x], thru)| && ReachesIn(g, Steps(g[x], thru)[i], Onward(g[x], thru), y, k - 1)
  }

  ghost predicate Reaches(g: Nodes, x: nat, thru: bool, y: nat) {
    exists k: nat :: ReachesIn(g, x, thru, y, k)
  }

  /** A function type does not lead back to a typedef, array or modifier that stands for it
      (as opposed to a pointer to it), unless it is through a pointer to a named struct or union. */
  ghost predicate NoFunctionLoop(g: Nodes)
    requires Closed(g)
  {
    forall x :: 0 <= x < |g| && IsLinear(g[x]) && g[x].to < |g| && g[g[x].to].Proto? ==> !Reaches(g, g[x].to, false, x)
  }

  /** No definition is queued twice, or only typedefs are; and queued ones are marked. */
  ghost predicate Once(g: Nodes, before: seq<nat>, s: State, butTypedefs: bool) {
    var q := before + s.queue;
    && (forall i :: 0 <= i < |q| ==> q[i] < |s.order| == |g| && s.order[q[i]] == Ordered)
    && (forall i, j :: 0 <= i < j < |q| && q[i] == q[j] ==> butTypedefs && g[q[i]].Alias?)
  }

  // ----- a function type that is not behind a pointer -----

  /** typedef void t(struct s); struct s { t *f; } */
  function Example(): Nodes {
    [Unknown, Alias(2), Proto([0, 3]), Aggregate(true, [4]), Pointer(1)]
  }

  /** Dumping the typedef queues it twice. */
  lemma QueuedTwice()
    ensures Closed(Example())
    ensures var s := State([Ordered, NotOrdered, NotOrdered, NotOrdered, NotOrdered], []);
      Order(Example(), s, 1, false, 8).0.queue == [1, 3, 1] && Order(Example(), s, 1, false, 8).1 == Strong
  {
    hide Closed;
    var g := Example();
    var s := State([Ordered, NotOrdered, NotOrdered, NotOrdered, NotOrdered], []);
    ExampleClosed();
    QueuedInside(s);
    var s4 := Define(Mark(Define(Mark(s, 3, Ordering), 1, true), 4, Ordered), 3, true);
    assert OrderAll(g, s, [3], false, 6) == (s4, Strong);
    assert [0, 3][1..] == [3];
    assert OrderAll(g, s, [0, 3], false, 6) == (s4, Strong);
    assert Order(g, s, 2, false, 7) == (s4, Strong);
  }

  lemma ExampleClosed()
    ensures Closed(Example())
  {
  }

  /** Ordering the struct queues the typedef, although it is in progress. */
  lemma QueuedInside(s: State)
    requires s == State([Ordered, NotOrdered, NotOrdered, NotOrdered, NotOrdered], [])
    ensures Closed(Example())
    ensures Order(Example(), s, 3, false, 6) ==
      (Define(Mark(Define(Mark(s, 3, Ordering), 1, true), 4, Ordered), 3, true), Strong)
  {
    hide Closed;
    var g := Example();
    ExampleClosed();
    var s1 := Mark(s, 3, Ordering);
    assert OrderAll(g, s1, [3], true, 2) == (s1, Weak) by {
      assert Order(g, s1, 3, true, 2) == (s1, Weak);
    }
    assert [0, 3][1..] == [3];
    assert OrderAll(g, s1, [0, 3], true, 2) == (s1, Strong);
    assert Order(g, s1, 2, true, 3) == (s1, Strong);
    var s2 := Define(s1, 1, true);
    assert Order(g, s1, 1, true, 4) == (s2, Strong);
    var s3 := Mark(s2, 4, Ordered);
    assert Order(g, s1, 4, false, 5) == (s3, Strong);
    assert OrderAll(g, s1, [4], false, 5) == (s3, Strong);
  }

  /** It depends on the order of the calls: dumping the struct first, nothing is. */
  lemma QueuedOnce()
    ensures Closed(Example()) && !NoFunctionLoop(Example())
    ensures var s := State([Ordered, NotOrdered, NotOrdered, NotOrdered, NotOrdered], []);
      var (t, r) := Order(Example(), s, 3, false, 6);
      r == Strong && t.queue == [1, 3] && Order(Example(), t, 1, false, 8) == (t, Strong)
  {
    hide Closed;
    ExampleClosed();
    QueuedInside(State([Ordered, NotOrdered, NotOrdered, NotOrdered, NotOrdered], []));
    ExampleLoops();
  }

  lemma ExampleLoops()
    ensures Closed(Example()) && !NoFunctionLoop(Example())
  {
    hide Reaches;
    var g := Example();
    ReachesSelf(g, 1, true);
    ReachesStep(g, 4, false, 0, 1);
    ReachesStep(g, 3, false, 0, 1);
    ReachesStep(g, 2, false, 1, 1);
    assert IsLinear(g[1]) && g[1].to == 2;
  }

  // ----- types in progress -----

  predicate IsLink(n: Node) {
    n.Pointer? || n.Chain? || n.Alias? || n.Proto?
  }

  predicate IsLinear(n: Node) {
    n.Chain? || n.Alias?
  }

  ghost predicate HasChildIn(n: Node, set_: set<nat>) {
    exists i :: 0 <= i < |Children(n)| && Children(n)[i] in set_
  }

  /** Each of these leads to another one, or is an unnamed aggregate being ordered: asked
      for again, they fail. */
  ghost predicate Doomed(g: Nodes, s: State, d: set<nat>)
    requires |s.order| == |g|
  {
    forall x :: x in d ==>
      && x < |g|
      && if g[x].Aggregate? then !g[x].named && s.order[x] == Ordering
         else IsLink(g[x]) && s.order[x] == NotOrdered && HasChildIn(g[x], d)
  }

  /** Typedefs, arrays and modifiers that lead straight to an aggregate being ordered: asked
      for again, they fail or answer "weak" and change nothing. */
  ghost predicate Blocked(g: Nodes, s: State, b: set<nat>, d: set<nat>)
    requires |s.order| == |g|
  {
    forall x :: x in b ==>
      && x < |g| && IsLinear(g[x]) && s.order[x] == NotOrdered && g[x].to < |g|
      && (g[x].to in b || g[x].to in d || (g[g[x].to].Aggregate? && s.order[g[x].to] == Ordering))
  }

  /** Open types that lead to x, the one to be ordered next. */
  ghost predicate Leading(g: Nodes, s: State, l: set<nat>, d: set<nat>, x: nat, thru: bool)
    requires |s.order| == |g|
  {
    forall y :: y in l ==>
      && y < |g| && IsLink(g[y]) && s.order[y] == NotOrdered && (thru || IsLinear(g[y]))
      && HasChildIn(g[y], d + l + {x})
  }

  ghost predicate Unchanged(s: State, t: State, ys: set<nat>) {
    |s.order| == |t.order| && forall y :: y in ys && y < |s.order| ==> t.order[y] == s.order[y]
  }

  /** Aggregates being ordered stay so. */
  predicate StillOpen(s: State, t: State) {
    |s.order| == |t.order| && forall y :: 0 <= y < |s.order| && s.order[y] == Ordering ==> t.order[y] == Ordering
  }

  lemma ChildIn(n: Node, i: nat, a: set<nat>, b: set<nat>)
    requires i < |Children(n)| && Children(n)[i] in a && a <= b
    ensures HasChildIn(n, b)
  {
    assert Children(n)[i] in b;
  }

  lemma Carry(g: Nodes, s: State, t: State, d: set<nat>, b: set<nat>, l: set<nat>, x: nat, thru: bool)
    requires |s.order| == |g| && Unchanged(s, t, d + b + l) && StillOpen(s, t)
    requires Doomed(g, s, d) && Blocked(g, s, b, d) && Leading(g, s, l, d, x, thru)
    ensures Doomed(g, t, d) && Blocked(g, t, b, d) && Leading(g, t, l, d, x, thru)
  {
  }

  /** If x is itself open, everything open is doomed. */
  lemma LeadingLoop(g: Nodes, s: State, d: set<nat>, b: set<nat>, l: set<nat>, x: nat, thru: bool)
    requires |s.order| == |g| && Doomed(g, s, d) && Blocked(g, s, b, d) && Leading(g, s, l, d, x, thru) && x in l
    ensures Doomed(g, s, d + l) && Blocked(g, s, b, d + l)
  {
    assert d + l + {x} == d + l;
  }

  /** Going on to a child of x. */
  lemma LeadOn(g: Nodes, s: State, d: set<nat>, l: set<nat>, x: nat, thru: bool, i: nat, onward: bool)
    requires x < |g| == |s.order| && Leading(g, s, l, d, x, thru) && IsLink(g[x]) && s.order[x] == NotOrdered
    requires i < |Children(g[x])| && (thru ==> onward) && (onward || IsLinear(g[x]))
    ensures Leading(g, s, l + {x}, d, Children(g[x])[i], onward)
  {
    var c := Children(g[x])[i];
    forall y | y in l + {x} ensures HasChildIn(g[y], d + (l + {x}) + {c}) {
      if y in l {
        var k :| 0 <= k < |Children(g[y])| && Children(g[y])[k] in d + l + {x};
        ChildIn(g[y], k, d + l + {x}, d + (l + {x}) + {c});
      } else {
        ChildIn(g[x], i, {c}, d + (l + {x}) + {c});
      }
    }
  }

  /** Entering an unnamed aggregate. */
  lemma EnterUnnamed(g: Nodes, s: State, d: set<nat>, b: set<nat>, l: set<nat>, x: nat, thru: bool)
    requires x < |g| == |s.order| && Doomed(g, s, d) && Blocked(g, s, b, d) && Leading(g, s, l, d, x, thru)
    requires g[x].Aggregate? && !g[x].named && s.order[x] == NotOrdered && x !in d + b + l
    ensures var t := Mark(s, x, Ordering);
      Doomed(g, t, d + l + {x}) && Blocked(g, t, b, d + l + {x})
  {
    var t := Mark(s, x, Ordering);
    forall y | y in d && !g[y].Aggregate? ensures HasChildIn(g[y], d + l + {x}) {
      var k :| 0 <= k < |Children(g[y])| && Children(g[y])[k] in d;
      ChildIn(g[y], k, d, d + l + {x});
    }
  }

  /** Entering a named one, without a pointer on the way. */
  lemma EnterNamed(g: Nodes, s: State, d: set<nat>, b: set<nat>, l: set<nat>, x: nat)
    requires x < |g| == |s.order| && Doomed(g, s, d) && Blocked(g, s, b, d) && Leading(g, s, l, d, x, false)
    requires Closed(g)
    requires g[x].Aggregate? && s.order[x] == NotOrdered && x !in d + b + l
    ensures var t := Mark(s, x, Ordering);
      Doomed(g, t, d) && Blocked(g, t, b + l, d)
  {
    var t := Mark(s, x, Ordering);
    forall y | y in l
      ensures g[y].to < |g|
      ensures (g[y].to in b + l || g[y].to in d || (g[g[y].to].Aggregate? && t.order[g[y].to] == Ordering))
    {
      assert Children(g[y]) == [g[y].to] && InGraph(g, Children(g[y]));
      assert Children(g[y])[0] < |g|;
    }
  }

  // ----- what ordering leaves alone -----

  lemma ReachesStep(g: Nodes, x: nat, thru: bool, i: nat, y: nat)
    requires x < |g| && i < |Steps(g[x], thru)| && Reaches(g, Steps(g[x], thru)[i], Onward(g[x], thru), y)
    ensures Reaches(g, x, thru, y)
  {
    var k: nat :| ReachesIn(g, Steps(g[x], thru)[i], Onward(g[x], thru), y, k);
    assert ReachesIn(g, x, thru, y, k + 1);
  }

  /** Ordering x changes only the states of types it may come to. */
  lemma {:induction false} OrderFrame(g: Nodes, s: State, x: nat, thru: bool, depth: nat, y: nat)
    requires Closed(g) && x < |g| == |s.order| && y < |g| && !Reaches(g, x, thru, y)
    ensures Order(g, s, x, thru, depth).0.order[y] == s.order[y]
    decreases depth, 0
  {
    hide Reaches;
    assert x != y by { ReachesSelf(g, x, thru); }
    assert InGraph(g, Children(g[x]));
    if depth > 0 && s.order[x] == NotOrdered {
      NextFrame(g, x, thru, y);
      match g[x]
      case Pointer(to) =>
        assert to == Steps(g[x], thru)[0];
        OrderFrame(g, s, to, true, depth - 1, y);
      case Chain(to) =>
        assert to == Steps(g[x], thru)[0];
        OrderFrame(g, s, to, thru, depth - 1, y);
      case Alias(to) =>
        assert to == Steps(g[x], thru)[0];
        OrderFrame(g, s, to, thru, depth - 1, y);
      case Aggregate(named, ms) =>
        if !(thru && named) {
          assert ms == Steps(g[x], thru);
          OrderAllFrame(g, Mark(s, x, Ordering), ms, false, depth - 1, y);
        }
      case Proto(ps) =>
        assert ps == Steps(g[x], thru);
        OrderAllFrame(g, s, ps, thru, depth - 1, y);
      case _ =>
    }
  }

  lemma ReachesSelf(g: Nodes, x: nat, thru: bool)
    requires x < |g|
    ensures Reaches(g, x, thru, x)
  {
    assert ReachesIn(g, x, thru, x, 0);
  }

  lemma NextFrame(g: Nodes, x: nat, thru: bool, y: nat)
    requires x < |g| && !Reaches(g, x, thru, y)
    ensures forall i :: 0 <= i < |Steps(g[x], thru)| ==> !Reaches(g, Steps(g[x], thru)[i], Onward(g[x], thru), y)
  {
    hide Reaches, Steps, Onward;
    forall i | 0 <= i < |Steps(g[x], thru)| ensures !Reaches(g, Steps(g[x], thru)[i], Onward(g[x], thru), y) {
      if Reaches(g, Steps(g[x], thru)[i], Onward(g[x], thru), y) {
        ReachesStep(g, x, thru, i, y);
      }
    }
  }

  lemma {:induction false} OrderAllFrame(g: Nodes, s: State, xs: seq<nat>, thru: bool, depth: nat, y: nat)
    requires Closed(g) && |g| == |s.order| && InGraph(g, xs) && y < |g|
    requires forall i :: 0 <= i < |xs| ==> !Reaches(g, xs[i], thru, y)
    ensures OrderAll(g, s, xs, thru, depth).0.order[y] == s.order[y]
    decreases depth, 1 + |xs|
  {
    hide Reaches, Order;
    if xs != [] {
      OrderFrame(g, s, xs[0], thru, depth, y);
      var (t, r) := Order(g, s, xs[0], thru, depth);
      if Ok(r) {
        OrderAllFrame(g, t, xs[1..], thru, depth, y);
      }
    }
  }

  // ----- a function type met without a pointer on the way -----

  /** From y, k typedefs, arrays and modifiers of l lead straight to x. */
  predicate Straight(g: Nodes, l: set<nat>, y: nat, x: nat, k: nat)
    decreases k
  {
    if k == 0 then y == x else y in l && y < |g| && IsLinear(g[y]) && Straight(g, l, g[y].to, x, k - 1)
  }

  ghost predicate LeadsTo(g: Nodes, l: set<nat>, y: nat, x: nat) {
    exists k: nat :: k > 0 && Straight(g, l, y, x, k)
  }

  /** The members of l that do not. */
  ghost function Aside(g: Nodes, l: set<nat>, x: nat): set<nat> {
    set y | y in l && !LeadsTo(g, l, y, x)
  }

  /** Whatever comes to y comes to what y stands for. */
  lemma {:induction false} ReachesFurther(g: Nodes, p: nat, thru: bool, y: nat, k: nat)
    requires ReachesIn(g, p, thru, y, k) && y < |g| && IsLinear(g[y])
    ensures ReachesIn(g, p, thru, g[y].to, k + 1) || g[y].to >= |g|
    decreases k
  {
    if k == 0 {
      if g[y].to < |g| {
        assert Steps(g[y], thru)[0] == g[y].to;
        assert ReachesIn(g, g[y].to, Onward(g[y], thru), g[y].to, 0);
      }
    } else {
      var i :| 0 <= i < |Steps(g[p], thru)| && ReachesIn(g, Steps(g[p], thru)[i], Onward(g[p], thru), y, k - 1);
      ReachesFurther(g, Steps(g[p], thru)[i], Onward(g[p], thru), y, k - 1);
    }
  }

  /** So a function type does not come to what leads straight to it. */
  lemma {:induction false} NotBack(g: Nodes, l: set<nat>, y: nat, p: nat, k: nat, n: nat)
    requires Closed(g) && NoFunctionLoop(g) && p < |g| && g[p].Proto? && k > 0 && Straight(g, l, y, p, k)
    ensures !ReachesIn(g, p, false, y, n)
    decreases k
  {
    hide ReachesIn;
    assert InGraph(g, Children(g[y])) && Children(g[y])[0] == g[y].to;
    if k == 1 {
      assert g[y].to == p && !Reaches(g, p, false, y);
    } else if ReachesIn(g, p, false, y, n) {
      ReachesFurther(g, p, false, y, n);
      NotBack(g, l, g[y].to, p, k - 1, n + 1);
    }
  }

  /** The open types that do not lead straight to x stay in the books when x is passed. */
  lemma AtProto(g: Nodes, s: State, d: set<nat>, l: set<nat>, x: nat, c: nat)
    requires Closed(g) && x < |g| == |s.order| && Leading(g, s, l, d, x, false)
    ensures Leading(g, s, Aside(g, l, x), d, c, false)
  {
    var l0 := Aside(g, l, x);
    forall y | y in l0 ensures HasChildIn(g[y], d + l0 + {c}) {
      var k :| 0 <= k < |Children(g[y])| && Children(g[y])[k] in d + l + {x};
      assert k == 0 && Children(g[y])[0] == g[y].to;
      assert g[y].to != x by {
        if g[y].to == x {
          assert Straight(g, l, x, x, 0) && Straight(g, l, y, x, 1);
        }
      }
      assert LeadsTo(g, l, g[y].to, x) ==> LeadsTo(g, l, y, x) by {
        if LeadsTo(g, l, g[y].to, x) {
          var n: nat :| n > 0 && Straight(g, l, g[y].to, x, n);
          assert Straight(g, l, y, x, n + 1);
        }
      }
      ChildIn(g[y], 0, {g[y].to}, d + l0 + {c});
    }
  }

  /** The others are out of reach. */
  lemma PastProto(g: Nodes, s: State, l: set<nat>, x: nat, depth: nat, y: nat)
    requires Closed(g) && NoFunctionLoop(g) && x < |g| == |s.order| && g[x].Proto? && InGraph(g, g[x].parts)
    requires y < |g| && LeadsTo(g, l, y, x)
    ensures OrderAll(g, s, g[x].parts, false, depth).0.order[y] == s.order[y]
  {
    hide OrderAll, NoFunctionLoop, ReachesIn;
    var k: nat :| k > 0 && Straight(g, l, y, x, k);
    forall n: nat ensures !ReachesIn(g, x, false, y, n) {
      NotBack(g, l, y, x, k, n);
    }
    NextFrame(g, x, false, y);
    assert Steps(g[x], false) == g[x].parts;
    OrderAllFrame(g, s, g[x].parts, false, depth, y);
  }

  /** What a success promises about open types. */
  ghost predicate Kept(g: Nodes, s: State, x: nat, thru: bool, res: (State, Link), d: set<nat>, b: set<nat>,
      l: set<nat>) {
    Ok(res.1) ==>
      && x !in d && x !in l && (x in b ==> thru && res == (s, Weak))
      && Unchanged(s, res.0, d + b + l) && StillOpen(s, res.0)
  }

  ghost predicate AllKept(g: Nodes, s: State, xs: seq<nat>, res: (State, Link), d: set<nat>, b: set<nat>, l: set<nat>) {
    Ok(res.1) ==>
      && (forall i :: 0 <= i < |xs| ==> xs[i] !in d)
      && Unchanged(s, res.0, d + b + l) && StillOpen(s, res.0)
  }

  ghost predicate Tracked(g: Nodes, s: State, x: nat, thru: bool, d: set<nat>, b: set<nat>, l: set<nat>) {
    |s.order| == |g| && Doomed(g, s, d) && Blocked(g, s, b, d) && Leading(g, s, l, d, x, thru)
  }

  lemma NoneLeading(g: Nodes, s: State, d: set<nat>, b: set<nat>, x: nat, thru: bool)
    requires |s.order| == |g| && Doomed(g, s, d) && Blocked(g, s, b, d)
    ensures Tracked(g, s, x, thru, d, b, {})
  {
  }

  lemma {:induction false} Keep(g: Nodes, s: State, x: nat, thru: bool, depth: nat, d: set<nat>, b: set<nat>,
      l: set<nat>)
    requires Closed(g) && NoFunctionLoop(g) && x < |g| == |s.order| && Tracked(g, s, x, thru, d, b, l)
    ensures Kept(g, s, x, thru, Order(g, s, x, thru, depth), d, b, l)
    decreases depth, 1, if x in l then 1 else 0
  {
    hide Doomed, Blocked, Leading, Kept, Order, OrderAll, Closed, NoFunctionLoop;
    if depth == 0 {
      NoStackLeft(g, s, x, thru, d, b, l);
    } else if x in d {
      KeepDoomed(g, s, x, thru, depth, d, b, l);
    } else if x in l {
      LeadingLoop(g, s, d, b, l, x, thru);
      NoneLeading(g, s, d + l, b, x, thru);
      Keep(g, s, x, thru, depth, d + l, b, {});
      KeptLess(g, s, x, thru, Order(g, s, x, thru, depth), d, b, l);
    } else if x in b {
      KeepBlocked(g, s, x, thru, depth, d, b, l);
    } else {
      KeepOther(g, s, x, thru, depth, d, b, l);
    }
  }

  lemma NoStackLeft(g: Nodes, s: State, x: nat, thru: bool, d: set<nat>, b: set<nat>, l: set<nat>)
    requires Closed(g) && x < |g| == |s.order|
    ensures Kept(g, s, x, thru, Order(g, s, x, thru, 0), d, b, l)
  {
  }

  lemma KeptLess(g: Nodes, s: State, x: nat, thru: bool, res: (State, Link), d: set<nat>, b: set<nat>, l: set<nat>)
    requires Kept(g, s, x, thru, res, d + l, b, {}) && x in l
    ensures Kept(g, s, x, thru, res, d, b, l)
  {
  }

  lemma {:induction false} KeepDoomed(g: Nodes, s: State, x: nat, thru: bool, depth: nat, d: set<nat>, b: set<nat>,
      l: set<nat>)
    requires Closed(g) && NoFunctionLoop(g) && x < |g| == |s.order| && Tracked(g, s, x, thru, d, b, l)
    requires x in d && depth > 0
    ensures Kept(g, s, x, thru, Order(g, s, x, thru, depth), d, b, l)
    decreases depth, 0, 1
  {
    hide Blocked, Leading, NoFunctionLoop, OrderAll, HasChildIn;
    if g[x].Proto? {
      KeepDoomedProto(g, s, x, thru, depth, d, b, l);
    } else if !g[x].Aggregate? {
      assert g[x].to == Children(g[x])[0];
      assert g[x].to in d by { DoomedNext(g, s, d, x); }
      var onward := thru || g[x].Pointer?;
      NoneLeading(g, s, d, b, g[x].to, onward);
      Keep(g, s, g[x].to, onward, depth - 1, d, b, {});
    }
  }

  lemma DoomedNext(g: Nodes, s: State, d: set<nat>, x: nat)
    requires |s.order| == |g| && Doomed(g, s, d) && x in d && !g[x].Aggregate?
    ensures exists i :: 0 <= i < |Children(g[x])| && Children(g[x])[i] in d
  {
  }

  lemma {:induction false} KeepDoomedProto(g: Nodes, s: State, x: nat, thru: bool, depth: nat, d: set<nat>,
      b: set<nat>, l: set<nat>)
    requires Closed(g) && NoFunctionLoop(g) && x < |g| == |s.order| && Tracked(g, s, x, thru, d, b, l)
    requires x in d && depth > 0 && g[x].Proto?
    ensures Kept(g, s, x, thru, Order(g, s, x, thru, depth), d, b, l)
    decreases depth, 0, 0
  {
    hide Blocked, Leading, NoFunctionLoop, OrderAll, HasChildIn;
    assert InGraph(g, Children(g[x]));
    DoomedNext(g, s, d, x);
    forall k | 0 <= k < |g[x].parts| ensures Tracked(g, s, g[x].parts[k], thru, d, b, {}) {
      NoneLeading(g, s, d, b, g[x].parts[k], thru);
    }
    KeepAll(g, s, g[x].parts, thru, depth - 1, d, b, {});
  }

  lemma {:induction false} KeepBlocked(g: Nodes, s: State, x: nat, thru: bool, depth: nat, d: set<nat>, b: set<nat>,
      l: set<nat>)
    requires Closed(g) && NoFunctionLoop(g) && x < |g| == |s.order| && Tracked(g, s, x, thru, d, b, l)
    requires x in b && x !in l && x !in d && depth > 0
    ensures Kept(g, s, x, thru, Order(g, s, x, thru, depth), d, b, l)
    decreases depth, 0, 0
  {
    hide Doomed, Leading, NoFunctionLoop;
    assert InGraph(g, Children(g[x]));
    var c := g[x].to;
    NoneLeading(g, s, d, b, c, thru);
    Keep(g, s, c, thru, depth - 1, d, b, {});
  }

  lemma {:induction false} KeepOther(g: Nodes, s: State, x: nat, thru: bool, depth: nat, d: set<nat>, b: set<nat>,
      l: set<nat>)
    requires Closed(g) && NoFunctionLoop(g) && x < |g| == |s.order| && Tracked(g, s, x, thru, d, b, l)
    requires x !in d && x !in b && x !in l && depth > 0
    ensures Kept(g, s, x, thru, Order(g, s, x, thru, depth), d, b, l)
    decreases depth, 0, 1
  {
    hide Doomed, Leading, Blocked, NoFunctionLoop;
    assert InGraph(g, Children(g[x]));
    if s.order[x] == NotOrdered {
      if g[x].Pointer? || IsLinear(g[x]) {
        var onward := thru || g[x].Pointer?;
        LeadOn(g, s, d, l, x, thru, 0, onward);
        Keep(g, s, g[x].to, onward, depth - 1, d, b, l + {x});
      } else if g[x].Proto? {
        KeepProto(g, s, x, thru, depth, d, b, l);
      } else if g[x].Aggregate? && !(thru && g[x].named) {
        KeepAggregate(g, s, x, thru, depth, d, b, l);
      }
    }
  }

  lemma {:induction false} KeepProto(g: Nodes, s: State, x: nat, thru: bool, depth: nat, d: set<nat>, b: set<nat>,
      l: set<nat>)
    requires Closed(g) && NoFunctionLoop(g) && x < |g| == |s.order| && Tracked(g, s, x, thru, d, b, l)
    requires x !in d && x !in b && x !in l && depth > 0 && g[x].Proto? && s.order[x] == NotOrdered
    ensures Kept(g, s, x, thru, Order(g, s, x, thru, depth), d, b, l)
    decreases depth, 0, 0
  {
    hide Doomed, Leading, Blocked, NoFunctionLoop, LeadsTo, OrderAll;
    assert InGraph(g, Children(g[x]));
    var ps := g[x].parts;
    var l2 := if thru then l + {x} else Aside(g, l, x);
    forall k | 0 <= k < |ps| ensures Tracked(g, s, ps[k], thru, d, b, l2) {
      if thru {
        LeadOn(g, s, d, l, x, thru, k, true);
      } else {
        AtProto(g, s, d, l, x, ps[k]);
      }
    }
    KeepAll(g, s, ps, thru, depth - 1, d, b, l2);
    if !thru {
      forall y | y in l && y < |g| && LeadsTo(g, l, y, x)
        ensures OrderAll(g, s, ps, false, depth - 1).0.order[y] == s.order[y]
      {
        PastProto(g, s, l, x, depth - 1, y);
      }
    }
  }

  lemma {:induction false} KeepAggregate(g: Nodes, s: State, x: nat, thru: bool, depth: nat, d: set<nat>, b: set<nat>,
      l: set<nat>)
    requires Closed(g) && NoFunctionLoop(g) && x < |g| == |s.order| && Tracked(g, s, x, thru, d, b, l)
    requires x !in d && x !in b && x !in l && depth > 0
    requires g[x].Aggregate? && !(thru && g[x].named) && s.order[x] == NotOrdered
    ensures Kept(g, s, x, thru, Order(g, s, x, thru, depth), d, b, l)
    decreases depth, 0, 0
  {
    hide Doomed, Leading, Blocked, NoFunctionLoop, Order, OrderAll, Kept, AllKept;
    assert InGraph(g, Children(g[x]));
    var t, ms := Mark(s, x, Ordering), g[x].members;
    var d2 := if g[x].named then d else d + l + {x};
    var b2 := if g[x].named then b + l else b;
    if g[x].named {
      EnterNamed(g, s, d, b, l, x);
    } else {
      EnterUnnamed(g, s, d, b, l, x, thru);
    }
    forall k | 0 <= k < |ms| ensures Tracked(g, t, ms[k], false, d2, b2, {}) {
      NoneLeading(g, t, d2, b2, ms[k], false);
    }
    KeepAll(g, t, ms, false, depth - 1, d2, b2, {});
    FinishAggregate(g, s, x, thru, depth, d, b, l, d2, b2);
  }

  lemma FinishAggregate(g: Nodes, s: State, x: nat, thru: bool, depth: nat, d: set<nat>, b: set<nat>, l: set<nat>,
      d2: set<nat>, b2: set<nat>)
    requires Closed(g) && x < |g| == |s.order| && depth > 0 && x !in d && x !in b && x !in l && d + b + l <= d2 + b2
    requires g[x].Aggregate? && !(thru && g[x].named) && s.order[x] == NotOrdered && InGraph(g, g[x].members)
    requires AllKept(g, Mark(s, x, Ordering), g[x].members,
      OrderAll(g, Mark(s, x, Ordering), g[x].members, false, depth - 1), d2, b2, {})
    ensures Kept(g, s, x, thru, Order(g, s, x, thru, depth), d, b, l)
  {
    hide OrderAll, Closed;
    var m := Mark(s, x, Ordering);
    var (u, r) := OrderAll(g, m, g[x].members, false, depth - 1);
    if Ok(r) {
      forall y | y in d + b + l && y < |s.order| ensures u.order[y] == s.order[y] {
        assert y in d2 + b2 + {};
      }
    }
  }

  lemma {:induction false} KeepAll(g: Nodes, s: State, xs: seq<nat>, thru: bool, depth: nat, d: set<nat>, b: set<nat>,
      l: set<nat>)
    requires Closed(g) && NoFunctionLoop(g) && |g| == |s.order| && InGraph(g, xs)
    requires forall i :: 0 <= i < |xs| ==> Tracked(g, s, xs[i], thru, d, b, l)
    ensures AllKept(g, s, xs, OrderAll(g, s, xs, thru, depth), d, b, l)
    decreases depth, 2 + |xs|, 0
  {
    hide Doomed, Leading, Blocked, NoFunctionLoop, Closed;
    if xs != [] {
      Keep(g, s, xs[0], thru, depth, d, b, l);
      var (t, r) := Order(g, s, xs[0], thru, depth);
      if Ok(r) {
        forall i | 0 <= i < |xs[1..]| ensures Tracked(g, t, xs[1..][i], thru, d, b, l) {
          assert xs[1..][i] == xs[i + 1];
          Carry(g, s, t, d, b, l, xs[i + 1], thru);
        }
        KeepAll(g, t, xs[1..], thru, depth, d, b, l);
      }
    }
  }

  // ----- nothing is queued twice -----

  lemma DefineOnce(g: Nodes, before: seq<nat>, s: State, x: nat, named: bool, butTypedefs: bool)
    requires x < |s.order| == |g| && Once(g, before, s, butTypedefs)
    requires s.order[x] != Ordered || (butTypedefs && g[x].Alias?)
    ensures Once(g, before, Define(s, x, named), butTypedefs)
  {
    var q, t := before + s.queue, Define(s, x, named);
    assert before + t.queue == if named then q + [x] else q;
  }

  lemma MarkOnce(g: Nodes, before: seq<nat>, s: State, x: nat, o: OrderState, butTypedefs: bool)
    requires x < |s.order| && Once(g, before, s, butTypedefs) && (o == Ordered || s.order[x] == NotOrdered)
    ensures Once(g, before, Mark(s, x, o), butTypedefs)
  {
    var q, t := before + s.queue, Mark(s, x, o);
    assert before + t.queue == q;
    forall i | 0 <= i < |q| ensures t.order[q[i]] == Ordered {
      assert s.order[q[i]] == Ordered;
    }
  }

  /** An open typedef is still unmarked when its target has been ordered. */
  lemma AliasStays(g: Nodes, s: State, x: nat, thru: bool, depth: nat)
    requires Closed(g) && NoFunctionLoop(g) && x < |g| == |s.order| && g[x].Alias? && s.order[x] == NotOrdered
    requires g[x].to < |g|
    ensures var (t, r) := Order(g, s, g[x].to, thru, depth); Ok(r) ==> t.order[x] == NotOrdered
  {
    hide Order;
    assert Children(g[x])[0] == g[x].to;
    Keep(g, s, g[x].to, thru, depth, {}, {}, {x});
  }

  /** An open aggregate is still open after a success. */
  lemma {:induction false} OpenStays(g: Nodes, s: State, x: nat, thru: bool, depth: nat)
    requires Closed(g) && x < |g| == |s.order|
    ensures var (t, r) := Order(g, s, x, thru, depth); Ok(r) ==> StillOpen(s, t)
    decreases depth, 0
  {
    if depth > 0 && s.order[x] == NotOrdered {
      match g[x]
      case Pointer(to) =>
        assert to == Children(g[x])[0];
        OpenStays(g, s, to, true, depth - 1);
      case Chain(to) =>
        assert to == Children(g[x])[0];
        OpenStays(g, s, to, thru, depth - 1);
      case Alias(to) =>
        assert to == Children(g[x])[0];
        OpenStays(g, s, to, thru, depth - 1);
      case Aggregate(named, ms) => OpenStaysAll(g, Mark(s, x, Ordering), ms, false, depth - 1);
      case Proto(ps) => OpenStaysAll(g, s, ps, thru, depth - 1);
      case _ =>
    }
  }

  lemma {:induction false} OpenStaysAll(g: Nodes, s: State, xs: seq<nat>, thru: bool, depth: nat)
    requires Closed(g) && |g| == |s.order| && InGraph(g, xs)
    ensures var (t, r) := OrderAll(g, s, xs, thru, depth); Ok(r) ==> StillOpen(s, t)
    decreases depth, 1 + |xs|
  {
    if xs != [] {
      OpenStays(g, s, xs[0], thru, depth);
      var (t, r) := Order(g, s, xs[0], thru, depth);
      if Ok(r) {
        OpenStaysAll(g, t, xs[1..], thru, depth);
      }
    }
  }

  /** Only typedefs can be queued twice; and if no function type leads back to a typedef,
      array or modifier that stands for it, nothing is. */
  lemma {:induction false} OrderOnce(g: Nodes, before: seq<nat>, s: State, x: nat, thru: bool, depth: nat,
      butTypedefs: bool)
    requires Closed(g) && x < |g| == |s.order| && Once(g, before, s, butTypedefs) && (butTypedefs || NoFunctionLoop(g))
    ensures Once(g, before, Order(g, s, x, thru, depth).0, butTypedefs)
    decreases depth, 0
  {
    hide Once, NoFunctionLoop;
    assert InGraph(g, Children(g[x]));
    if depth > 0 && s.order[x] == NotOrdered {
      match g[x]
      case Basic => MarkOnce(g, before, s, x, Ordered, butTypedefs);
      case Pointer(to) =>
        assert to == Children(g[x])[0];
        OrderOnce(g, before, s, to, true, depth - 1, butTypedefs);
        MarkOnce(g, before, Order(g, s, to, true, depth - 1).0, x, Ordered, butTypedefs);
      case Chain(to) =>
        assert to == Children(g[x])[0];
        OrderOnce(g, before, s, to, thru, depth - 1, butTypedefs);
      case Alias(to) =>
        assert to == Children(g[x])[0];
        OrderOnce(g, before, s, to, thru, depth - 1, butTypedefs);
        if !butTypedefs {
          AliasStays(g, s, x, thru, depth - 1);
        }
        var (t, r) := Order(g, s, to, thru, depth - 1);
        if Ok(r) {
          DefineOnce(g, before, t, x, true, butTypedefs);
        }
      case Aggregate(named, ms) =>
        var m := Mark(s, x, Ordering);
        MarkOnce(g, before, s, x, Ordering, butTypedefs);
        OrderAllOnce(g, before, m, ms, false, depth - 1, butTypedefs);
        OpenStaysAll(g, m, ms, false, depth - 1);
        var (t, r) := OrderAll(g, m, ms, false, depth - 1);
        if Ok(r) {
          DefineOnce(g, before, t, x, named, butTypedefs);
        }
      case Plain(named) => DefineOnce(g, before, s, x, named, butTypedefs);
      case Proto(ps) => OrderAllOnce(g, before, s, ps, thru, depth - 1, butTypedefs);
      case Unknown =>
    }
  }

  lemma {:induction false} OrderAllOnce(g: Nodes, before: seq<nat>, s: State, xs: seq<nat>, thru: bool, depth: nat,
      butTypedefs: bool)
    requires Closed(g) && |g| == |s.order| && InGraph(g, xs)
    requires Once(g, before, s, butTypedefs) && (butTypedefs || NoFunctionLoop(g))
    ensures Once(g, before, OrderAll(g, s, xs, thru, depth).0, butTypedefs)
    decreases depth, 1 + |xs|
  {
    hide Once, NoFunctionLoop;
    if xs != [] {
      OrderOnce(g, before, s, xs[0], thru, depth, butTypedefs);
      var (t, r) := Order(g, s, xs[0], thru, depth);
      if Ok(r) {
        OrderAllOnce(g, before, t, xs[1..], thru, depth, butTypedefs);
      }
    }
  }
}
