/** The order in which definitions are written when BTF is dumped as C. */
module DumpOrder {
  import opened BtfGraph

  /** How the ordering treats a type: what it leads to, and whether it has a definition. */
  datatype Node =
    | Basic
    | Pointer(to: nat)
    | Chain(to: nat)
    | Alias(to: nat)
    | Aggregate(named: bool, members: seq<nat>)
    | Plain(named: bool)
    | Proto(parts: seq<nat>)
    | Unknown

  function View(t: BtfType): Node {
    match t
    case Void => Unknown
    case Int(_, _, _) => Basic
    case Enum(h, _, _) => Plain(h.name != 0)
    case Fwd(h, _) => Plain(h.name != 0)
    case Ref(kind, _, to) =>
      (match kind
       case Ptr => Pointer(to)
       case Typedef => Alias(to)
       case Func => Basic
       case _ => Chain(to))
    case Array(_, _, _, elem, _) => Chain(elem)
    case Struct(_, h, _, _) => Aggregate(h.name != 0, Refs(t))
    case FuncProto(_, _, _) => Proto(Refs(t))
    case Var(_, _, _) => Basic
    case DataSec(_, _, _) => Basic
  }

  type Nodes = seq<Node>

  function Children(n: Node): seq<nat> {
    match n
    case Pointer(to) => [to]
    case Chain(to) => [to]
    case Alias(to) => [to]
    case Aggregate(_, ms) => ms
    case Proto(ps) => ps
    case _ => []
  }

  predicate InGraph(g: Nodes, xs: seq<nat>) {
    forall i :: 0 <= i < |xs| ==> xs[i] < |g|
  }

  predicate Closed(g: Nodes) {
    forall x :: 0 <= x < |g| ==> InGraph(g, Children(g[x]))
  }

  datatype OrderState = NotOrdered | Ordering | Ordered

  /** Weak and strong links, and the failures: an unsatisfiable cycle, an unknown kind,
      no stack left. */
  datatype Link = Weak | Strong | Cycle | BadKind | NoStack

  predicate Ok(r: Link) {
    r == Weak || r == Strong
  }

  datatype State = State(order: seq<OrderState>, queue: seq<nat>)

  function Mark(s: State, x: nat, o: OrderState): State
    requires x < |s.order|
  {
    State(s.order[x := o], s.queue)
  }

  /** Queues a definition and marks it as done. */
  function Define(s: State, x: nat, named: bool): State
    requires x < |s.order|
  {
    State(s.order[x := Ordered], if named then s.queue + [x] else s.queue)
  }

  /** Orders x and what it depends on; `thru` tells that a pointer led here. `depth` is the
      stack left. */
  function Order(g: Nodes, s: State, x: nat, thru: bool, depth: nat): (res: (State, Link))
    requires Closed(g) && x < |g| == |s.order|
    ensures |res.0.order| == |s.order|
    decreases depth, 0
  {
    if depth == 0 then (s, NoStack)
    else if s.order[x] == Ordered then (s, Strong)
    else if s.order[x] == Ordering then (s, if g[x].Aggregate? && thru && g[x].named then Weak else Cycle)
    else
      match g[x]
      case Basic => (Mark(s, x, Ordered), Weak)
      case Pointer(to) =>
        assert to == Children(g[x])[0];
        var (t, r) := Order(g, s, to, true, depth - 1);
        (Mark(t, x, Ordered), r)
      case Chain(to) =>
        assert to == Children(g[x])[0];
        Order(g, s, to, thru, depth - 1)
      case Alias(to) =>
        assert to == Children(g[x])[0];
        var (t, r) := Order(g, s, to, thru, depth - 1);
        if !Ok(r) then (t, r)
        else if thru && r == Weak then (t, Weak)
        else (Define(t, x, true), Strong)
      case Aggregate(named, ms) =>
        if thru && named then (s, Weak)
        else
          var (t, r) := OrderAll(g, Mark(s, x, Ordering), ms, false, depth - 1);
          if !Ok(r) then (t, r) else (Define(t, x, named), Strong)
      case Plain(named) => (Define(s, x, named), Strong)
      case Proto(ps) => OrderAll(g, s, ps, thru, depth - 1)
      case Unknown => (s, BadKind)
  }

  /** Orders several types in turn; strong if any of them is. */
  function OrderAll(g: Nodes, s: State, xs: seq<nat>, thru: bool, depth: nat): (res: (State, Link))
    requires Closed(g) && |g| == |s.order| && InGraph(g, xs)
    ensures |res.0.order| == |s.order|
    decreases depth, 1 + |xs|
  {
    if xs == [] then (s, Weak)
    else
      var (t, r) := Order(g, s, xs[0], thru, depth);
      if !Ok(r) then (t, r)
      else
        var (u, q) := OrderAll(g, t, xs[1..], thru, depth);
        (u, if Ok(q) && r == Strong then Strong else q)
  }

  // ----- what must come first -----

  /** Types whose layout is part of x's. */
  function Embedded(n: Node): seq<nat> {
    match n
    case Chain(to) => [to]
    case Alias(to) => [to]
    case Aggregate(_, ms) => ms
    case _ => []
  }

  /** Kinds that are written as definitions of their own. */
  predicate IsDefinition(n: Node) {
    n.Alias? || (n.Aggregate? && n.named) || (n.Plain? && n.named)
  }

  /** y is embedded in x, k levels down: no pointer or function prototype in between. */
  ghost predicate Embeds(g: Nodes, x: nat, y: nat, k: nat)
    decreases k
  {
    x < |g| && if k == 0 then x == y
    else exists i :: 0 <= i < |Embedded(g[x])| && Embeds(g, Embedded(g[x])[i], y, k - 1)
  }

  /** Every definition that x is or embeds has been queued. */
  ghost predicate Ready(g: Nodes, q: seq<nat>, x: nat) {
    forall y: nat, k: nat :: Embeds(g, x, y, k) && y < |g| && IsDefinition(g[y]) ==> y in q
  }

  /** Every definition that x embeds has been queued. */
  ghost predicate PartsReady(g: Nodes, q: seq<nat>, x: nat)
    requires x < |g|
  {
    forall i :: 0 <= i < |Embedded(g[x])| ==> Ready(g, q, Embedded(g[x])[i])
  }

  /** Each entry comes after everything it embeds. */
  ghost predicate WellOrdered(g: Nodes, q: seq<nat>) {
    forall i :: 0 <= i < |q| ==> q[i] < |g| && PartsReady(g, q[..i], q[i])
  }

  ghost predicate Sound(g: Nodes, before: seq<nat>, s: State)
    requires |s.order| == |g|
  {
    && WellOrdered(g, before + s.queue)
    && forall x :: 0 <= x < |g| && s.order[x] == Ordered ==> Ready(g, before + s.queue, x)
  }

  lemma ReadyGrows(g: Nodes, q: seq<nat>, more: seq<nat>, x: nat)
    requires Ready(g, q, x)
    ensures Ready(g, q + more, x)
  {
  }

  lemma ReadyIs(g: Nodes, q: seq<nat>, x: nat)
    requires x < |g|
    ensures Ready(g, q, x) <==> (IsDefinition(g[x]) ==> x in q) && PartsReady(g, q, x)
  {
    if Ready(g, q, x) {
      assert Embeds(g, x, x, 0);
      forall i | 0 <= i < |Embedded(g[x])| ensures Ready(g, q, Embedded(g[x])[i]) {
        forall y: nat, k: nat | Embeds(g, Embedded(g[x])[i], y, k) && y < |g| && IsDefinition(g[y]) ensures y in q {
          assert Embeds(g, x, y, k + 1);
        }
      }
    }
    if (IsDefinition(g[x]) ==> x in q) && PartsReady(g, q, x) {
      forall y: nat, k: nat | Embeds(g, x, y, k) && y < |g| && IsDefinition(g[y]) ensures y in q {
        if k > 0 {
          var i :| 0 <= i < |Embedded(g[x])| && Embeds(g, Embedded(g[x])[i], y, k - 1);
        }
      }
    }
  }

  lemma PartsReadyGrow(g: Nodes, q: seq<nat>, more: seq<nat>, x: nat)
    requires x < |g| && PartsReady(g, q, x)
    ensures PartsReady(g, q + more, x)
  {
    hide Ready;
    forall i | 0 <= i < |Embedded(g[x])| ensures Ready(g, q + more, Embedded(g[x])[i]) {
      ReadyGrows(g, q, more, Embedded(g[x])[i]);
    }
  }

  /** Marking a type all of whose definitions are queued. */
  lemma MarkSound(g: Nodes, before: seq<nat>, s: State, x: nat, o: OrderState)
    requires x < |g| == |s.order| && Sound(g, before, s) && (o == Ordered ==> Ready(g, before + s.queue, x))
    ensures Sound(g, before, Mark(s, x, o))
  {
    hide Ready, WellOrdered;
  }

  /** Queueing a definition after what it embeds. */
  lemma DefineSound(g: Nodes, before: seq<nat>, s: State, x: nat, named: bool)
    requires x < |g| == |s.order| && Sound(g, before, s) && PartsReady(g, before + s.queue, x)
    requires (IsDefinition(g[x]) ==> named)
    ensures var t := Define(s, x, named);
      Sound(g, before, t) && s.queue <= t.queue && Ready(g, before + t.queue, x)
  {
    hide Ready, PartsReady;
    var t := Define(s, x, named);
    var q, more := before + s.queue, if named then [x] else [];
    assert before + t.queue == q + more;
    PartsReadyGrow(g, q, more, x);
    ReadyIs(g, q + more, x);
    forall i | 0 <= i < |q + more| ensures (q + more)[i] < |g| && PartsReady(g, (q + more)[..i], (q + more)[i]) {
      if i < |q| {
        assert (q + more)[..i] == q[..i];
      } else {
        assert (q + more)[..i] == q;
      }
    }
    forall y | 0 <= y < |g| && t.order[y] == Ordered ensures Ready(g, q + more, y) {
      if y != x {
        ReadyGrows(g, q, more, y);
      }
    }
  }

  /** The main invariant: whatever the outcome, queued definitions follow what they embed;
      and after a strong or pointer-free success x is ready. */
  lemma {:induction false} OrderSound(g: Nodes, before: seq<nat>, s: State, x: nat, thru: bool, depth: nat)
    requires Closed(g) && x < |g| == |s.order| && Sound(g, before, s)
    ensures var (t, r) := Order(g, s, x, thru, depth);
      && Sound(g, before, t) && s.queue <= t.queue
      && (Ok(r) && (!thru || r == Strong) ==> Ready(g, before + t.queue, x))
    decreases depth, 0
  {
    hide Ready, Sound;
    ReadyIs(g, before + s.queue, x);
    if depth > 0 && s.order[x] == NotOrdered {
      match g[x]
      case Basic => MarkSound(g, before, s, x, Ordered);
      case Pointer(to) =>
        assert to == Children(g[x])[0];
        OrderSound(g, before, s, to, true, depth - 1);
        var (t, r) := Order(g, s, to, true, depth - 1);
        ReadyIs(g, before + t.queue, x);
        MarkSound(g, before, t, x, Ordered);
      case Chain(to) =>
        assert to == Children(g[x])[0];
        OrderSound(g, before, s, to, thru, depth - 1);
        var (t, r) := Order(g, s, to, thru, depth - 1);
        ReadyIs(g, before + t.queue, x);
      case Alias(to) =>
        assert to == Children(g[x])[0];
        OrderSound(g, before, s, to, thru, depth - 1);
        var (t, r) := Order(g, s, to, thru, depth - 1);
        if Ok(r) && (!thru || r == Strong) {
          DefineSound(g, before, t, x, true);
        }
      case Aggregate(named, ms) =>
        if !(thru && named) {
          MarkSound(g, before, s, x, Ordering);
          OrderAllSound(g, before, Mark(s, x, Ordering), ms, false, depth - 1);
          var (t, r) := OrderAll(g, Mark(s, x, Ordering), ms, false, depth - 1);
          if Ok(r) {
            DefineSound(g, before, t, x, named);
          }
        }
      case Plain(named) => DefineSound(g, before, s, x, named);
      case Proto(ps) =>
        OrderAllSound(g, before, s, ps, thru, depth - 1);
        var (t, r) := OrderAll(g, s, ps, thru, depth - 1);
        ReadyIs(g, before + t.queue, x);
      case Unknown =>
    } else if depth > 0 && s.order[x] == Ordered {
      OrderedIsReady(g, before, s, x);
    }
  }

  lemma OrderedIsReady(g: Nodes, before: seq<nat>, s: State, x: nat)
    requires x < |g| == |s.order| && Sound(g, before, s) && s.order[x] == Ordered
    ensures Ready(g, before + s.queue, x)
  {
  }

  lemma {:induction false} OrderAllSound(g: Nodes, before: seq<nat>, s: State, xs: seq<nat>, thru: bool, depth: nat)
    requires Closed(g) && |s.order| == |g| && Sound(g, before, s) && InGraph(g, xs)
    ensures var (t, r) := OrderAll(g, s, xs, thru, depth);
      && Sound(g, before, t) && s.queue <= t.queue
      && (Ok(r) && !thru ==> forall i :: 0 <= i < |xs| ==> Ready(g, before + t.queue, xs[i]))
    decreases depth, 1 + |xs|
  {
    hide Ready, Sound;
    if xs != [] {
      OrderSound(g, before, s, xs[0], thru, depth);
      var (t, r) := Order(g, s, xs[0], thru, depth);
      if Ok(r) {
        OrderAllSound(g, before, t, xs[1..], thru, depth);
        var (u, q) := OrderAll(g, t, xs[1..], thru, depth);
        if Ok(q) && !thru {
          var more := u.queue[|t.queue|..];
          assert before + u.queue == (before + t.queue) + more;
          ReadyGrows(g, before + t.queue, more, xs[0]);
        }
      }
    }
  }
}
