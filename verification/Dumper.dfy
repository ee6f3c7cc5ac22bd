/** The dumper: orders the definitions a type needs, over any run of calls. */
module Dumping {
  import opened Wrappers
  import opened BtfGraph
  import opened DumpOrder
  import DumpOnce
  import DumpStack
  import DumpStrong
  import DumpSuccess

  function Views(types: Graph): (g: Nodes)
    ensures |g| == |types|
  {
    seq(|types|, i requires 0 <= i < |types| => View(types[i]))
  }

  class Dumper {
    const g: Nodes
    const order: array<OrderState>
    /** Definitions to write in this call, in order. */
    var queue: seq<nat>
    /** Those of all earlier calls. */
    ghost var earlier: seq<nat>
    /** Whether a call has failed. */
    ghost var failed: bool

    ghost function Now(): State
      reads this, order
    {
      State(order[..], queue)
    }

    /** No type is in the middle of being ordered; so it is unless a call failed. */
    ghost predicate NothingOpen()
      reads order
    {
      && (forall y :: 0 <= y < order.Length ==> order[y] != Ordering)
      && order.Length == |g| && forall y :: 0 <= y < |g| && g[y].Unknown? ==> order[y] == Ordered
    }

    /** Holds between calls, whatever they returned. */
    ghost predicate Valid()
      reads this, order
    {
      && DumpOrder.Closed(g) && order.Length == |g|
      && Sound(g, earlier, Now())
      && DumpOnce.Once(g, earlier, Now(), true)
      && (DumpOnce.NoFunctionLoop(g) ==> DumpOnce.Once(g, earlier, Now(), false))
      && (!failed ==> DumpStrong.StronglySound(g, earlier, Now()))
    }

    constructor (types: Graph)
      requires types != [] && types[0].Void? && DumpOrder.Closed(Views(types))
      ensures Valid() && fresh(order) && g == Views(types) && queue == [] && earlier == [] && !failed
      ensures (forall i :: 0 < i < |types| ==> !types[i].Void?) ==> NothingOpen()
    {
      g := Views(types);
      order := new OrderState[|types|](i => if i == 0 then Ordered else NotOrdered);
      queue, earlier, failed := [], [], false;
      new;
      hide Sound, DumpOnce.Once, DumpStrong.StronglySound, DumpOnce.NoFunctionLoop, DumpOrder.Closed;
      StartSound(g, Now());
    }

    /** Queues a type, and before it what must be defined before it. */
    method OrderType(id: nat, thru: bool, depth: nat) returns (r: Link)
      requires DumpOrder.Closed(g) && id < |g| == order.Length
      modifies `queue, order
      ensures (Now(), r) == Order(g, old(Now()), id, thru, depth)
      decreases depth, 0
    {
      if depth == 0 {
        return NoStack;
      }
      if order[id] == Ordered {
        return Strong;
      }
      if order[id] == Ordering {
        return if g[id].Aggregate? && thru && g[id].named then Weak else Cycle;
      }
      assert InGraph(g, Children(g[id]));
      match g[id]
      case Basic =>
        order[id] := Ordered;
        r := Weak;
      case Pointer(to) =>
        assert to == Children(g[id])[0];
        r := OrderType(to, true, depth - 1);
        order[id] := Ordered;
      case Chain(to) =>
        assert to == Children(g[id])[0];
        r := OrderType(to, thru, depth - 1);
      case Alias(to) =>
        assert to == Children(g[id])[0];
        r := OrderType(to, thru, depth - 1);
        if Ok(r) && !(thru && r == Weak) {
          AddToQueue(id);
          order[id] := Ordered;
          r := Strong;
        }
      case Aggregate(named, ms) =>
        if thru && named {
          return Weak;
        }
        order[id] := Ordering;
        r := OrderTypes(ms, false, depth - 1);
        if Ok(r) {
          if named {
            AddToQueue(id);
          }
          order[id] := Ordered;
          r := Strong;
        }
      case Plain(named) =>
        if named {
          AddToQueue(id);
        }
        order[id] := Ordered;
        r := Strong;
      case Proto(ps) =>
        r := OrderTypes(ps, thru, depth - 1);
      case Unknown =>
        r := BadKind;
    }

    method AddToQueue(id: nat)
      modifies `queue
      ensures queue == old(queue) + [id]
    {
      queue := queue + [id];
    }

    method OrderTypes(ids: seq<nat>, thru: bool, depth: nat) returns (r: Link)
      requires DumpOrder.Closed(g) && |g| == order.Length && InGraph(g, ids)
      modifies `queue, order
      ensures (Now(), r) == OrderAll(g, old(Now()), ids, thru, depth)
      decreases depth, 1
    {
      hide Order, DumpOrder.Closed;
      ghost var total := OrderAll(g, Now(), ids, thru, depth);
      var i := 0;
      r := Weak;
      assert ids[0..] == ids;
      while i < |ids|
        invariant 0 <= i <= |ids| && Ok(r)
        invariant var rest := OrderAll(g, Now(), ids[i..], thru, depth);
          total == (rest.0, if Ok(rest.1) && r == Strong then Strong else rest.1)
      {
        assert ids[i..][1..] == ids[i + 1..];
        var q := OrderType(ids[i], thru, depth);
        if !Ok(q) {
          return q;
        }
        if q == Strong {
          r := Strong;
        }
        i := i + 1;
      }
    }

    /** One dump call; None for an id out of range. */
    method DumpType(id: nat, depth: nat) returns (r: Option<Link>)
      requires Valid()
      modifies this, order
      ensures Valid() && earlier == old(earlier + queue)
      ensures failed <==> old(failed) || (r.Some? && !Ok(r.value))
      ensures !old(failed) ==> DumpStrong.StronglyOrdered(g, earlier + queue)
      ensures !failed && r.Some? ==> DumpStrong.Met(g, earlier + queue, id, false)
      ensures r.None? <==> id >= |g|
      ensures r.Some? && Ok(r.value) ==> Ready(g, earlier + queue, id)
      ensures r.Some? ==>
        forall rank, top :: DumpStack.Ranked(g, rank, top) && depth >= DumpStack.Need(g, old(Now()), top, rank[id]) ==>
          && r.value != NoStack
          && (old(NothingOpen()) ==> forall direct, viaPtr ::
               |direct| == |viaPtr| == |g| && DumpSuccess.Containable(g, direct, viaPtr) ==> Ok(r.value))
      ensures old(NothingOpen()) && (r.Some? ==> Ok(r.value)) ==> NothingOpen()
    {
      hide Order, DumpSuccess.Containable, Sound, DumpOnce.Once, DumpOrder.Closed, DumpOnce.NoFunctionLoop, Ready;
      hide DumpStack.Need;
      hide DumpStrong.StronglyOrdered, DumpStrong.Met;
      ghost var was := Now();
      earlier := earlier + queue;
      queue := [];
      Restart(g, old(earlier), was);
      if id >= |g| {
        return None;
      }
      ghost var s := Now();
      OrderSound(g, earlier, s, id, false, depth);
      if !failed {
        DumpStrong.OrderStrong(g, earlier, s, id, false, depth);
      }
      DumpOnce.OrderOnce(g, earlier, s, id, false, depth, true);
      if DumpOnce.NoFunctionLoop(g) {
        DumpOnce.OrderOnce(g, earlier, s, id, false, depth, false);
      }
      forall rank, top | DumpStack.Ranked(g, rank, top) && depth >= DumpStack.Need(g, was, top, rank[id])
        ensures Order(g, s, id, false, depth).1 != NoStack
      {
        SameNeed(g, was, s, top, rank[id]);
        DumpStack.OrderEnds(g, rank, top, s, id, false, depth);
      }
      forall rank, top, direct, viaPtr |
        && DumpStack.Ranked(g, rank, top) && depth >= DumpStack.Need(g, was, top, rank[id])
        && old(NothingOpen()) && |direct| == |viaPtr| == |g| && DumpSuccess.Containable(g, direct, viaPtr)
        ensures Ok(Order(g, s, id, false, depth).1)
      {
        SameNeed(g, was, s, top, rank[id]);
        DumpSuccess.OrderWorks(g, direct, viaPtr, rank, top, s, id, depth);
      }
      DumpSuccess.OrderCloses(g, s, id, false, depth);
      DumpStack.OrderAdvances(g, s, id, false, depth);
      var q := OrderType(id, false, depth);
      failed := failed || !Ok(q);
      return Some(q);
    }
  }

  lemma SameNeed(g: Nodes, s: State, t: State, top: nat, rank: nat)
    requires |g| == |s.order| && s.order == t.order
    ensures DumpStack.Need(g, t, top, rank) == DumpStack.Need(g, s, top, rank)
  {
    DumpStack.UnenteredSame(g, s, t, |g|);
  }

  lemma StartSound(g: Nodes, s: State)
    requires |s.order| == |g| > 0 && g[0].Unknown? && s.queue == []
    requires forall i :: 0 <= i < |g| ==> s.order[i] == if i == 0 then Ordered else NotOrdered
    ensures Sound(g, [], s) && DumpStrong.StronglySound(g, [], s) && forall b :: DumpOnce.Once(g, [], s, b)
  {
    hide Ready, DumpStrong.Met;
    assert [] + s.queue == s.queue;
    ReadyIs(g, s.queue, 0);
    DumpStrong.MetIs(g, s.queue, 0, false);
  }

  /** Starting a new call moves the queue to the earlier definitions. */
  lemma Restart(g: Nodes, earlier: seq<nat>, s: State)
    requires |s.order| == |g| && Sound(g, earlier, s) && DumpOrder.Closed(g)
    ensures var t := State(s.order, []);
      && Sound(g, earlier + s.queue, t)
      && (forall b :: DumpOnce.Once(g, earlier, s, b) ==> DumpOnce.Once(g, earlier + s.queue, t, b))
      && (DumpStrong.StronglySound(g, earlier, s) ==> DumpStrong.StronglySound(g, earlier + s.queue, t))
  {
    hide Ready, WellOrdered, DumpStrong.Met, DumpStrong.StronglyOrdered;
    assert (earlier + s.queue) + [] == earlier + s.queue;
  }
}
