/** Ordering succeeds on type graphs that C accepts. */
module DumpSuccess {
  import opened DumpOrder
  import opened DumpStack

  /** What arriving at x asks for: its own rank, or less through a pointer. */
  function Rank(direct: seq<nat>, viaPtr: seq<nat>, x: nat, thru: bool): nat
    requires x < |direct| == |viaPtr|
  {
    if thru then viaPtr[x] else direct[x]
  }

  /** No type contains itself: there are ranks, for types met directly and through a pointer,
      that do not grow along references, fall from a struct or union to its members, and do
      not depend on the pointer for unnamed ones, which are written in place. A named one
      met through a pointer asks for nothing. */
  ghost predicate Containable(g: Nodes, direct: seq<nat>, viaPtr: seq<nat>)
    requires |direct| == |viaPtr| == |g|
  {
    && (forall x, i :: 0 <= x < |g| && 0 <= i < |Children(g[x])| ==> Falls(g, direct, viaPtr, x, Children(g[x])[i]))
    && (forall x :: 0 <= x < |g| && g[x].Aggregate? && !g[x].named ==> viaPtr[x] == direct[x])
  }

  ghost predicate Falls(g: Nodes, direct: seq<nat>, viaPtr: seq<nat>, x: nat, c: nat)
    requires |direct| == |viaPtr| == |g| && x < |g|
  {
    && c < |g|
    && match g[x]
       case Pointer(_) => viaPtr[c] <= direct[x] && viaPtr[c] <= viaPtr[x]
       case Aggregate(_, _) => direct[c] < direct[x]
       case _ => direct[c] <= direct[x] && viaPtr[c] <= viaPtr[x]
  }

  /** Everything being ordered ranks above r. */
  ghost predicate OpenAbove(s: State, direct: seq<nat>, r: nat)
    requires |direct| == |s.order|
  {
    forall y :: 0 <= y < |s.order| && s.order[y] == Ordering ==> direct[y] > r
  }

  /** Types of unknown kind have been dealt with. */
  predicate KnownKinds(g: Nodes, s: State)
    requires |g| == |s.order|
  {
    && (forall y :: 0 <= y < |g| && g[y].Unknown? ==> s.order[y] == Ordered)
    && (forall y :: 0 <= y < |g| && s.order[y] == Ordering ==> g[y].Aggregate?)
  }

  /** A success opens nothing new. */
  predicate Shut(s: State, t: State) {
    |s.order| == |t.order| && forall y :: 0 <= y < |s.order| && t.order[y] == Ordering ==> s.order[y] == Ordering
  }

  ghost predicate Fine(g: Nodes, s: State, res: (State, Link))
    requires |g| == |s.order|
  {
    && res.1 != Cycle && res.1 != BadKind
    && (Ok(res.1) ==> |res.0.order| == |g| && Shut(s, res.0) && KnownKinds(g, res.0))
  }

  /** Going on from x to something it refers to. */
  lemma FallTo(g: Nodes, direct: seq<nat>, viaPtr: seq<nat>, s: State, x: nat, thru: bool, i: nat)
    requires |direct| == |viaPtr| == |g| && Containable(g, direct, viaPtr) && x < |g| == |s.order|
    requires i < |Children(g[x])| && !g[x].Aggregate?
    requires OpenAbove(s, direct, Rank(direct, viaPtr, x, thru))
    ensures Children(g[x])[i] < |g|
    ensures OpenAbove(s, direct, Rank(direct, viaPtr, Children(g[x])[i], thru || g[x].Pointer?))
  {
    assert Falls(g, direct, viaPtr, x, Children(g[x])[i]);
  }

  /** Going on from a struct or union to a member. */
  lemma FallInto(g: Nodes, direct: seq<nat>, viaPtr: seq<nat>, s: State, x: nat, thru: bool, i: nat)
    requires |direct| == |viaPtr| == |g| && Containable(g, direct, viaPtr) && x < |g| == |s.order| && g[x].Aggregate?
    requires i < |g[x].members|
    requires OpenAbove(s, direct, Rank(direct, viaPtr, x, thru)) && !(thru && g[x].named)
    ensures g[x].members[i] < |g| && OpenAbove(Mark(s, x, Ordering), direct, direct[g[x].members[i]])
  {
    assert Falls(g, direct, viaPtr, x, Children(g[x])[i]);
  }

  lemma FineMark(g: Nodes, s: State, t: State, r: Link, x: nat)
    requires |g| == |s.order| == |t.order| && x < |g| && Fine(g, s, (t, r))
    ensures Fine(g, s, (Mark(t, x, Ordered), r))
  {
  }

  lemma FineDefine(g: Nodes, s: State, t: State, r: Link, x: nat, named: bool)
    requires |g| == |s.order| == |t.order| && x < |g| && Fine(g, s, (t, r)) && Ok(r)
    ensures Fine(g, s, (Define(t, x, named), Strong))
  {
  }

  lemma FineClose(g: Nodes, s: State, t: State, r: Link, x: nat, named: bool)
    requires |g| == |s.order| == |t.order| && x < |g| && Fine(g, Mark(s, x, Ordering), (t, r))
    ensures Ok(r) ==> Fine(g, s, (Define(t, x, named), Strong))
    ensures !Ok(r) ==> Fine(g, s, (t, r))
  {
  }

  lemma FineNow(g: Nodes, s: State, x: nat, thru: bool)
    requires |g| == |s.order| && x < |g| && KnownKinds(g, s)
    ensures Fine(g, s, (s, Weak)) && Fine(g, s, (s, Strong)) && Fine(g, s, (s, NoStack))
    ensures s.order[x] == NotOrdered ==> !g[x].Unknown? && (g[x].Aggregate? ==> KnownKinds(g, Mark(s, x, Ordering)))
  {
  }

  lemma NotOpen(g: Nodes, direct: seq<nat>, viaPtr: seq<nat>, s: State, x: nat, thru: bool)
    requires |direct| == |viaPtr| == |g| && Containable(g, direct, viaPtr) && x < |g| == |s.order| && KnownKinds(g, s)
    requires OpenAbove(s, direct, Rank(direct, viaPtr, x, thru))
    ensures s.order[x] == Ordering ==> g[x].Aggregate? && thru && g[x].named
  {
  }

  /** No struct or union contains itself, so no cycle is reported. */
  lemma {:induction false} OrderSucceeds(g: Nodes, direct: seq<nat>, viaPtr: seq<nat>, s: State, x: nat, thru: bool,
      depth: nat)
    requires Closed(g) && |direct| == |viaPtr| == |g| && Containable(g, direct, viaPtr) && x < |g| == |s.order|
    requires KnownKinds(g, s)
    requires OpenAbove(s, direct, Rank(direct, viaPtr, x, thru))
    ensures Fine(g, s, Order(g, s, x, thru, depth))
    decreases depth, 0
  {
    hide Containable, KnownKinds, OpenAbove, Fine, Rank;
    FineNow(g, s, x, thru);
    NotOpen(g, direct, viaPtr, s, x, thru);
    assert InGraph(g, Children(g[x]));
    if depth > 0 && s.order[x] == NotOrdered {
      match g[x]
      case Pointer(to) =>
        FallTo(g, direct, viaPtr, s, x, thru, 0);
        OrderSucceeds(g, direct, viaPtr, s, to, true, depth - 1);
        var (t, r) := Order(g, s, to, true, depth - 1);
        FineMark(g, s, t, r, x);
      case Chain(to) =>
        FallTo(g, direct, viaPtr, s, x, thru, 0);
        OrderSucceeds(g, direct, viaPtr, s, to, thru, depth - 1);
      case Alias(to) =>
        FallTo(g, direct, viaPtr, s, x, thru, 0);
        OrderSucceeds(g, direct, viaPtr, s, to, thru, depth - 1);
        var (t, r) := Order(g, s, to, thru, depth - 1);
        if Ok(r) {
          FineDefine(g, s, t, r, x, true);
        }
      case Aggregate(named, ms) =>
        if !(thru && named) {
          var m := Mark(s, x, Ordering);
          forall i | 0 <= i < |ms| ensures ms[i] < |g| && OpenAbove(m, direct, Rank(direct, viaPtr, ms[i], false)) {
            FallInto(g, direct, viaPtr, s, x, thru, i);
            RankDirect(direct, viaPtr, ms[i]);
          }
          OrderAllSucceeds(g, direct, viaPtr, m, ms, false, depth - 1);
          var (t, r) := OrderAll(g, m, ms, false, depth - 1);
          FineClose(g, s, t, r, x, named);
        }
      case Proto(ps) =>
        forall i | 0 <= i < |ps| ensures ps[i] < |g| && OpenAbove(s, direct, Rank(direct, viaPtr, ps[i], thru)) {
          FallTo(g, direct, viaPtr, s, x, thru, i);
        }
        OrderAllSucceeds(g, direct, viaPtr, s, ps, thru, depth - 1);
      case Basic => FineMark(g, s, s, Weak, x);
      case Plain(named) => FineDefine(g, s, s, Weak, x, named);
      case Unknown => assert false;
    }
  }

  lemma RankDirect(direct: seq<nat>, viaPtr: seq<nat>, x: nat)
    requires x < |direct| == |viaPtr|
    ensures Rank(direct, viaPtr, x, false) == direct[x]
  {
  }

  lemma {:induction false} OrderAllSucceeds(g: Nodes, direct: seq<nat>, viaPtr: seq<nat>, s: State, xs: seq<nat>,
      thru: bool, depth: nat)
    requires Closed(g) && |direct| == |viaPtr| == |g| && Containable(g, direct, viaPtr) && |g| == |s.order|
    requires KnownKinds(g, s) && InGraph(g, xs)
    requires forall i :: 0 <= i < |xs| ==> OpenAbove(s, direct, Rank(direct, viaPtr, xs[i], thru))
    ensures Fine(g, s, OrderAll(g, s, xs, thru, depth))
    decreases depth, 1 + |xs|
  {
    hide Containable, KnownKinds, Rank, Order;
    if xs != [] {
      OrderSucceeds(g, direct, viaPtr, s, xs[0], thru, depth);
      var (t, r) := Order(g, s, xs[0], thru, depth);
      if Ok(r) {
        OrderAllSucceeds(g, direct, viaPtr, t, xs[1..], thru, depth);
      }
    }
  }

  /** With enough stack, on a graph without such containment, from a state with nothing
      open, ordering succeeds and leaves nothing open. */
  lemma OrderWorks(g: Nodes, direct: seq<nat>, viaPtr: seq<nat>, rank: seq<nat>, top: nat, s: State, x: nat, depth: nat)
    requires Closed(g) && |direct| == |viaPtr| == |g| && Containable(g, direct, viaPtr) && x < |g| == |s.order|
    requires KnownKinds(g, s)
    requires forall y :: 0 <= y < |g| ==> s.order[y] != Ordering
    requires Ranked(g, rank, top) && depth >= Need(g, s, top, rank[x])
    ensures Ok(Order(g, s, x, false, depth).1)
  {
    hide Order, Containable, Ranked, Need;
    OrderSucceeds(g, direct, viaPtr, s, x, false, depth);
    OrderEnds(g, rank, top, s, x, false, depth);
  }

  /** Nothing is left open by a success that started so. */
  lemma {:induction false} OrderCloses(g: Nodes, s: State, x: nat, thru: bool, depth: nat)
    requires Closed(g) && x < |g| == |s.order|
    ensures var (t, r) := Order(g, s, x, thru, depth); Ok(r) ==> Shut(s, t)
    decreases depth, 0
  {
    if depth > 0 && s.order[x] == NotOrdered {
      match g[x]
      case Pointer(to) =>
        assert to == Children(g[x])[0];
        OrderCloses(g, s, to, true, depth - 1);
      case Chain(to) =>
        assert to == Children(g[x])[0];
        OrderCloses(g, s, to, thru, depth - 1);
      case Alias(to) =>
        assert to == Children(g[x])[0];
        OrderCloses(g, s, to, thru, depth - 1);
      case Aggregate(named, ms) => OrderAllCloses(g, Mark(s, x, Ordering), ms, false, depth - 1);
      case Proto(ps) => OrderAllCloses(g, s, ps, thru, depth - 1);
      case _ =>
    }
  }

  lemma {:induction false} OrderAllCloses(g: Nodes, s: State, xs: seq<nat>, thru: bool, depth: nat)
    requires Closed(g) && |g| == |s.order| && InGraph(g, xs)
    ensures var (t, r) := OrderAll(g, s, xs, thru, depth); Ok(r) ==> Shut(s, t)
    decreases depth, 1 + |xs|
  {
    if xs != [] {
      OrderCloses(g, s, xs[0], thru, depth);
      var (t, r) := Order(g, s, xs[0], thru, depth);
      if Ok(r) {
        OrderAllCloses(g, t, xs[1..], thru, depth);
      }
    }
  }

  // ----- a type that contains itself -----

  ghost predicate HasMemberIn(ms: seq<nat>, loop: set<nat>) {
    exists i :: 0 <= i < |ms| && ms[i] in loop
  }

  /** Types that contain one another for ever: structs and unions through a member, typedefs,
      arrays and modifiers through what they stand for. Pointers take part if they lead to an
      unnamed struct or union, which is written in place: those types are in `firm`. */
  ghost predicate ContainsItself(g: Nodes, loop: set<nat>, firm: set<nat>) {
    && firm <= loop
    && (forall x :: x in loop ==>
          && x < |g|
          && match g[x]
             case Aggregate(_, ms) => HasMemberIn(ms, loop)
             case Chain(to) => to in loop
             case Alias(to) => to in loop
             case Pointer(_) => x in firm
             case _ => false)
    && (forall x :: x in firm ==>
          match g[x]
          case Aggregate(named, _) => !named
          case Chain(to) => to in firm
          case Alias(to) => to in firm
          case Pointer(to) => to in firm
          case _ => false)
  }

  /** None of them has been dealt with. */
  predicate NoneDone(s: State, loop: set<nat>) {
    forall x :: x in loop && x < |s.order| ==> s.order[x] != Ordered
  }

  /** What a success can mean then: only a weak link, through a pointer, to a named one. */
  ghost predicate OnlyWeak(x: nat, thru: bool, loop: set<nat>, firm: set<nat>, res: (State, Link)) {
    Ok(res.1) ==> NoneDone(res.0, loop) && (x in loop ==> thru && res.1 == Weak && x !in firm)
  }

  /** Ordering a type that contains itself never succeeds, unless one of the types it goes
      through is marked as done; and successes do not mark one. */
  lemma NeverContained(g: Nodes, s: State, loop: set<nat>, firm: set<nat>, x: nat, depth: nat)
    requires Closed(g) && x < |g| == |s.order| && ContainsItself(g, loop, firm) && NoneDone(s, loop) && x in loop
    ensures !Ok(Order(g, s, x, false, depth).1)
  {
    hide Order, ContainsItself, NoneDone;
    Contained(g, s, loop, firm, x, false, depth);
  }

  lemma {:induction false} Contained(g: Nodes, s: State, loop: set<nat>, firm: set<nat>, x: nat, thru: bool, depth: nat)
    requires Closed(g) && x < |g| == |s.order| && ContainsItself(g, loop, firm) && NoneDone(s, loop)
    ensures OnlyWeak(x, thru, loop, firm, Order(g, s, x, thru, depth))
    decreases depth, 0
  {
    hide ContainsItself;
    assert InGraph(g, Children(g[x]));
    assert InLoop(g, loop, firm, x) by { LoopAt(g, loop, firm, x); }
    if depth > 0 && s.order[x] == NotOrdered {
      match g[x]
      case Pointer(to) =>
        assert to == Children(g[x])[0];
        Contained(g, s, loop, firm, to, true, depth - 1);
      case Chain(to) =>
        assert to == Children(g[x])[0];
        Contained(g, s, loop, firm, to, thru, depth - 1);
      case Alias(to) =>
        assert to == Children(g[x])[0];
        Contained(g, s, loop, firm, to, thru, depth - 1);
      case Aggregate(named, ms) =>
        if !(thru && named) {
          AllContained(g, Mark(s, x, Ordering), loop, firm, ms, false, depth - 1);
        }
      case Proto(ps) => AllContained(g, s, loop, firm, ps, thru, depth - 1);
      case _ =>
    }
  }

  /** What being in the loop says about one type. */
  ghost predicate InLoop(g: Nodes, loop: set<nat>, firm: set<nat>, x: nat)
    requires x < |g|
  {
    x in loop ==>
      match g[x]
      case Aggregate(named, ms) => HasMemberIn(ms, loop) && (x in firm ==> !named)
      case Chain(to) => to in loop && (x in firm ==> to in firm)
      case Alias(to) => to in loop && (x in firm ==> to in firm)
      case Pointer(to) => to in loop && to in firm
      case _ => false
  }

  lemma LoopAt(g: Nodes, loop: set<nat>, firm: set<nat>, x: nat)
    requires ContainsItself(g, loop, firm) && x < |g|
    ensures InLoop(g, loop, firm, x)
  {
  }

  lemma {:induction false} AllContained(g: Nodes, s: State, loop: set<nat>, firm: set<nat>, xs: seq<nat>, thru: bool,
      depth: nat)
    requires Closed(g) && |g| == |s.order| && InGraph(g, xs) && ContainsItself(g, loop, firm) && NoneDone(s, loop)
    ensures var (t, r) := OrderAll(g, s, xs, thru, depth);
      Ok(r) ==> NoneDone(t, loop) && (!thru ==> !HasMemberIn(xs, loop))
    decreases depth, 1 + |xs|
  {
    hide ContainsItself, Order, NoneDone;
    if xs != [] {
      Contained(g, s, loop, firm, xs[0], thru, depth);
      var (t, r) := Order(g, s, xs[0], thru, depth);
      if Ok(r) {
        AllContained(g, t, loop, firm, xs[1..], thru, depth);
        var (u, q) := OrderAll(g, t, xs[1..], thru, depth);
        if Ok(q) && !thru {
          forall i | 0 <= i < |xs| ensures xs[i] !in loop {
            assert i > 0 ==> xs[i] == xs[1..][i - 1];
          }
        }
      }
    }
  }
}
