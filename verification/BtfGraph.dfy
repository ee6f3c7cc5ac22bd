/** BTF type descriptors, the type graph they form, and what it means for two
    ids, possibly in different graphs, to describe the same type. */
module BtfGraph {

  /** Name offset and the bits of the info word that hold neither kind nor vlen. */
  datatype Header = Header(name: nat, kflag: bool, spare: nat)

  datatype RefKind = Ptr | Typedef | Volatile | Const | Restrict | Func

  datatype EnumValue = EnumValue(name: nat, val: int)
  datatype Member = Member(name: nat, typ: nat, offset: nat)
  datatype Param = Param(name: nat, typ: nat)
  datatype SecVar = SecVar(typ: nat, offset: nat, size: nat)

  datatype BtfType =
    | Void
    | Int(h: Header, size: nat, encoding: nat)
    | Enum(h: Header, size: nat, values: seq<EnumValue>)
    | Fwd(h: Header, typ: nat)
    | Ref(kind: RefKind, h: Header, typ: nat)
    | Array(h: Header, size: nat, index: nat, elem: nat, nelems: nat)
    | Struct(isUnion: bool, h: Header, size: nat, members: seq<Member>)
    | FuncProto(h: Header, ret: nat, params: seq<Param>)
    | Var(h: Header, typ: nat, linkage: nat)
    | DataSec(h: Header, size: nat, vars: seq<SecVar>)

  type Graph = seq<BtfType>

  function Name(t: BtfType): nat {
    if t.Void? then 0 else t.h.name
  }

  /** The type ids a descriptor refers to, in the order the equivalence check visits them. */
  function Refs(t: BtfType): seq<nat> {
    match t
    case Void => []
    case Int(_, _, _) => []
    case Enum(_, _, _) => []
    case Fwd(_, typ) => [typ]
    case Ref(_, _, typ) => [typ]
    case Array(_, _, index, elem, _) => [index, elem]
    case Struct(_, _, _, ms) => seq(|ms|, i requires 0 <= i < |ms| => ms[i].typ)
    case FuncProto(_, ret, ps) => [ret] + seq(|ps|, i requires 0 <= i < |ps| => ps[i].typ)
    case Var(_, typ, _) => [typ]
    case DataSec(_, _, vs) => seq(|vs|, i requires 0 <= i < |vs| => vs[i].typ)
  }

  /** The descriptor with its k-th reference overwritten. */
  function SetRef(t: BtfType, k: nat, id: nat): (r: BtfType)
    requires k < |Refs(t)|
    ensures Refs(r) == Refs(t)[k := id]
  {
    match t
    case Fwd(h, _) => Fwd(h, id)
    case Ref(kind, h, _) => Ref(kind, h, id)
    case Array(h, size, index, elem, n) => if k == 0 then Array(h, size, id, elem, n) else Array(h, size, index, id, n)
    case Struct(u, h, size, ms) => Struct(u, h, size, ms[k := Member(ms[k].name, id, ms[k].offset)])
    case FuncProto(h, ret, ps) =>
      if k == 0 then FuncProto(h, id, ps) else FuncProto(h, ret, ps[k - 1 := Param(ps[k - 1].name, id)])
    case Var(h, _, linkage) => Var(h, id, linkage)
    case DataSec(h, size, vs) => DataSec(h, size, vs[k := SecVar(id, vs[k].offset, vs[k].size)])
  }

  /** Everything a descriptor says except which ids it refers to. */
  function Shape(t: BtfType): BtfType {
    match t
    case Void => t
    case Int(_, _, _) => t
    case Enum(_, _, _) => t
    case Fwd(h, _) => Fwd(h, 0)
    case Ref(kind, h, _) => Ref(kind, h, 0)
    case Array(h, size, _, _, n) => Array(h, size, 0, 0, n)
    case Struct(u, h, size, ms) =>
      Struct(u, h, size, seq(|ms|, i requires 0 <= i < |ms| => Member(ms[i].name, 0, ms[i].offset)))
    case FuncProto(h, _, ps) => FuncProto(h, 0, seq(|ps|, i requires 0 <= i < |ps| => Param(ps[i].name, 0)))
    case Var(h, _, linkage) => Var(h, 0, linkage)
    case DataSec(h, size, vs) =>
      DataSec(h, size, seq(|vs|, i requires 0 <= i < |vs| => SecVar(0, vs[i].offset, vs[i].size)))
  }

  lemma SameShapeSameArity(a: BtfType, b: BtfType)
    requires Shape(a) == Shape(b)
    ensures |Refs(a)| == |Refs(b)| && Name(a) == Name(b)
    ensures Refs(a) == Refs(b) ==> a == b
  {
    if Refs(a) == Refs(b) {
      var rs := Refs(a);
      match a
      case Struct(_, _, _, ms) =>
        forall i | 0 <= i < |ms| ensures ms[i] == b.members[i] {
          assert Shape(a).members[i] == Shape(b).members[i] && rs[i] == Refs(b)[i];
        }
        assert ms == b.members;
      case FuncProto(_, _, ps) =>
        assert rs[0] == Refs(b)[0];
        forall i | 0 <= i < |ps| ensures ps[i] == b.params[i] {
          assert Shape(a).params[i] == Shape(b).params[i] && rs[i + 1] == Refs(b)[i + 1];
        }
        assert ps == b.params;
      case DataSec(_, _, vs) =>
        forall i | 0 <= i < |vs| ensures vs[i] == b.vars[i] {
          assert Shape(a).vars[i] == Shape(b).vars[i] && rs[i] == Refs(b)[i];
        }
        assert vs == b.vars;
      case Array(_, _, _, _, _) =>
        assert rs[0] == Refs(b)[0] && rs[1] == Refs(b)[1];
      case Fwd(_, _) =>
        assert rs[0] == Refs(b)[0];
      case Ref(_, _, _) =>
        assert rs[0] == Refs(b)[0];
      case Var(_, _, _) =>
        assert rs[0] == Refs(b)[0];
      case _ =>
    }
  }

  lemma SetRefKeepsShape(t: BtfType, k: nat, id: nat)
    requires k < |Refs(t)|
    ensures Shape(SetRef(t, k, id)) == Shape(t)
  {
    var r := SetRef(t, k, id);
    match t
    case Struct(_, _, _, ms) => assert Shape(r).members == Shape(t).members;
    case FuncProto(_, _, ps) => assert Shape(r).params == Shape(t).params;
    case DataSec(_, _, vs) => assert Shape(r).vars == Shape(t).vars;
    case _ =>
  }

  /** Id 0 is void, and every reference stays inside the graph. */
  ghost predicate Closed(g: Graph) {
    && |g| > 0 && g[0] == Void
    && forall i, c :: 0 <= i < |g| && 0 <= c < |Refs(g[i])| ==> Refs(g[i])[c] < |g|
  }

  // ----- equality of types as equality of their unfoldings -----

  /** An enum without values is a forward declaration of one. */
  predicate IsEnumFwd(t: BtfType) {
    t.Enum? && |t.values| == 0
  }

  /** A record that only announces a struct, union or enum. */
  predicate IsForward(t: BtfType) {
    t.Fwd? || IsEnumFwd(t)
  }

  /** What a forward declaration says about the type it announces. */
  datatype Outline =
    | AggregateOutline(isUnion: bool, name: nat)
    | EnumOutline(h: Header, size: nat)
    | OtherOutline(shape: BtfType)

  function OutlineOf(t: BtfType): Outline {
    match t
    case Struct(isUnion, h, _, _) => AggregateOutline(isUnion, h.name)
    case Fwd(h, _) => AggregateOutline(h.kflag, h.name)
    case Enum(h, size, _) => EnumOutline(h, size)
    case _ => OtherOutline(Shape(t))
  }

  lemma ShapeGivesOutline(a: BtfType, b: BtfType)
    requires Shape(a) == Shape(b)
    ensures OutlineOf(a) == OutlineOf(b) && (IsForward(a) <==> IsForward(b))
  {
  }

  /** In comparisons up to forward declarations one of the two records is such a declaration. */
  predicate Loose(up: bool, a: BtfType, b: BtfType) {
    up && (IsForward(a) || IsForward(b))
  }

  /** The two types, unfolded through their references, agree down to depth k. With `up`, a
      forward declaration agrees with everything it may announce. */
  ghost predicate AgreeTo(up: bool, g: Graph, i: nat, g': Graph, j: nat, k: nat)
    requires Closed(g) && Closed(g') && i < |g| && j < |g'|
    decreases k
  {
    k == 0 ||
    if Loose(up, g[i], g'[j]) then OutlineOf(g[i]) == OutlineOf(g'[j])
    else
      && Shape(g[i]) == Shape(g'[j])
      && |Refs(g[i])| == |Refs(g'[j])|
      && forall c :: 0 <= c < |Refs(g[i])| ==> AgreeTo(up, g, Refs(g[i])[c], g', Refs(g'[j])[c], k - 1)
  }

  /** The same type: the possibly infinite unfoldings agree at every depth. */
  ghost predicate Same(up: bool, g: Graph, i: nat, g': Graph, j: nat)
    requires Closed(g) && Closed(g') && i < |g| && j < |g'|
  {
    forall k: nat :: AgreeTo(up, g, i, g', j, k)
  }

  ghost predicate IsBisimulation(up: bool, g: Graph, g': Graph, r: iset<(nat, nat)>)
    requires Closed(g) && Closed(g')
  {
    forall i, j :: (i, j) in r ==>
      && i < |g| && j < |g'|
      && if Loose(up, g[i], g'[j]) then OutlineOf(g[i]) == OutlineOf(g'[j])
         else
           && Shape(g[i]) == Shape(g'[j])
           && |Refs(g[i])| == |Refs(g'[j])|
           && forall c :: 0 <= c < |Refs(g[i])| ==> (Refs(g[i])[c], Refs(g'[j])[c]) in r
  }

  /** `Same` contains every bisimulation ... */
  lemma {:induction false} BisimulationAgrees(up: bool, g: Graph, g': Graph, r: iset<(nat, nat)>, i: nat, j: nat,
      k: nat)
    requires Closed(g) && Closed(g') && IsBisimulation(up, g, g', r) && (i, j) in r
    ensures i < |g| && j < |g'| && AgreeTo(up, g, i, g', j, k)
    decreases k
  {
    hide Shape, Refs, OutlineOf, Loose;
    if k > 0 && !Loose(up, g[i], g'[j]) {
      forall c | 0 <= c < |Refs(g[i])| ensures AgreeTo(up, g, Refs(g[i])[c], g', Refs(g'[j])[c], k - 1) {
        assert (Refs(g[i])[c], Refs(g'[j])[c]) in r;
        BisimulationAgrees(up, g, g', r, Refs(g[i])[c], Refs(g'[j])[c], k - 1);
      }
    }
  }

  /** ... and is one itself, so it is the greatest bisimulation. */
  lemma SameIsBisimulation(up: bool, g: Graph, g': Graph)
    requires Closed(g) && Closed(g')
    ensures IsBisimulation(up, g, g', iset i: nat, j: nat | i < |g| && j < |g'| && Same(up, g, i, g', j) :: (i, j))
  {
    hide OutlineOf, Loose, AgreeTo, Shape, Refs;
    forall i: nat, j: nat | i < |g| && j < |g'| && Same(up, g, i, g', j)
      ensures Loose(up, g[i], g'[j]) ==> OutlineOf(g[i]) == OutlineOf(g'[j])
      ensures !Loose(up, g[i], g'[j]) ==>
        && Shape(g[i]) == Shape(g'[j]) && |Refs(g[i])| == |Refs(g'[j])|
        && forall c :: 0 <= c < |Refs(g[i])| ==> Same(up, g, Refs(g[i])[c], g', Refs(g'[j])[c])
    {
      SameUnfolds(up, g, i, g', j);
    }
  }

  lemma SameUnfolds(up: bool, g: Graph, i: nat, g': Graph, j: nat)
    requires Closed(g) && Closed(g') && i < |g| && j < |g'| && Same(up, g, i, g', j)
    ensures OutlineOf(g[i]) == OutlineOf(g'[j])
    ensures !Loose(up, g[i], g'[j]) ==>
      && Shape(g[i]) == Shape(g'[j]) && |Refs(g[i])| == |Refs(g'[j])|
      && forall c :: 0 <= c < |Refs(g[i])| ==> Same(up, g, Refs(g[i])[c], g', Refs(g'[j])[c])
  {
    hide Shape, Refs, OutlineOf, Loose;
    assert AgreeTo(up, g, i, g', j, 1);
    if !Loose(up, g[i], g'[j]) {
      ShapeGivesOutline(g[i], g'[j]);
      forall c, k: nat | 0 <= c < |Refs(g[i])| ensures AgreeTo(up, g, Refs(g[i])[c], g', Refs(g'[j])[c], k) {
        assert AgreeTo(up, g, i, g', j, k + 1);
      }
    }
  }

  lemma {:induction false} AgreeRefl(up: bool, g: Graph, i: nat, k: nat)
    requires Closed(g) && i < |g|
    ensures AgreeTo(up, g, i, g, i, k)
    decreases k
  {
    hide Shape, Refs, OutlineOf, Loose;
    if k > 0 {
      forall c | 0 <= c < |Refs(g[i])| ensures AgreeTo(up, g, Refs(g[i])[c], g, Refs(g[i])[c], k - 1) {
        AgreeRefl(up, g, Refs(g[i])[c], k - 1);
      }
    }
  }

  lemma {:induction false} AgreeSym(up: bool, g: Graph, i: nat, g': Graph, j: nat, k: nat)
    requires Closed(g) && Closed(g') && i < |g| && j < |g'| && AgreeTo(up, g, i, g', j, k)
    ensures AgreeTo(up, g', j, g, i, k)
    decreases k
  {
    hide Shape, Refs, OutlineOf, IsForward;
    if k > 0 && !Loose(up, g[i], g'[j]) {
      forall c | 0 <= c < |Refs(g[i])| ensures AgreeTo(up, g', Refs(g'[j])[c], g, Refs(g[i])[c], k - 1) {
        AgreeSym(up, g, Refs(g[i])[c], g', Refs(g'[j])[c], k - 1);
      }
    }
  }

  /** Types that one forward declaration may announce are the same, up to forward declarations. */
  ghost predicate Unambiguous(g: Graph)
    requires Closed(g)
  {
    forall f, i, j :: 0 <= f < |g| && 0 <= i < |g| && 0 <= j < |g| && Announced(g, f, i, j) ==> Same(true, g, i, g, j)
  }

  predicate Announced(g: Graph, f: nat, i: nat, j: nat)
    requires f < |g| && i < |g| && j < |g|
  {
    && IsForward(g[f]) && !IsForward(g[i]) && !IsForward(g[j])
    && OutlineOf(g[i]) == OutlineOf(g[f]) == OutlineOf(g[j])
  }

  /** What it takes for agreement to be transitive; nothing unless it is up to forward declarations. */
  ghost predicate Coherent(up: bool, g: Graph)
    requires Closed(g)
  {
    up ==> Unambiguous(g)
  }

  lemma {:induction false} AgreeTrans(up: bool, g: Graph, i: nat, j: nat, l: nat, k: nat)
    requires Closed(g) && Coherent(up, g) && i < |g| && j < |g| && l < |g|
    requires AgreeTo(up, g, i, g, j, k) && AgreeTo(up, g, j, g, l, k)
    ensures AgreeTo(up, g, i, g, l, k)
    decreases k
  {
    hide Shape, Refs, OutlineOf, Unambiguous, Announced;
    if k > 0 {
      AgreeOutline(up, g, i, g, j, k);
      AgreeOutline(up, g, j, g, l, k);
      if !Loose(up, g[i], g[l]) {
        if Loose(up, g[j], g[j]) {
          AnnouncedSame(g, j, i, l);
        } else {
          forall c | 0 <= c < |Refs(g[i])| ensures AgreeTo(up, g, Refs(g[i])[c], g, Refs(g[l])[c], k - 1) {
            AgreeTrans(up, g, Refs(g[i])[c], Refs(g[j])[c], Refs(g[l])[c], k - 1);
          }
        }
      }
    }
  }

  lemma AgreeOutline(up: bool, g: Graph, i: nat, g': Graph, j: nat, k: nat)
    requires Closed(g) && Closed(g') && i < |g| && j < |g'| && k > 0 && AgreeTo(up, g, i, g', j, k)
    ensures OutlineOf(g[i]) == OutlineOf(g'[j])
  {
    hide Shape, Refs, OutlineOf, Loose;
    if !Loose(up, g[i], g'[j]) {
      ShapeGivesOutline(g[i], g'[j]);
    }
  }

  lemma AnnouncedSame(g: Graph, f: nat, i: nat, j: nat)
    requires Closed(g) && Unambiguous(g) && f < |g| && i < |g| && j < |g| && IsForward(g[f])
    requires !IsForward(g[i]) && !IsForward(g[j]) && OutlineOf(g[i]) == OutlineOf(g[f]) == OutlineOf(g[j])
    ensures Same(true, g, i, g, j)
  {
    hide AgreeTo;
    assert Announced(g, f, i, j);
  }

  lemma SameRefl(up: bool, g: Graph, i: nat)
    requires Closed(g) && i < |g|
    ensures Same(up, g, i, g, i)
  {
    forall k: nat ensures AgreeTo(up, g, i, g, i, k) { AgreeRefl(up, g, i, k); }
  }

  lemma SameSym(up: bool, g: Graph, i: nat, g': Graph, j: nat)
    requires Closed(g) && Closed(g') && i < |g| && j < |g'| && Same(up, g, i, g', j)
    ensures Same(up, g', j, g, i)
  {
    forall k: nat ensures AgreeTo(up, g', j, g, i, k) { AgreeSym(up, g, i, g', j, k); }
  }

  lemma SameTrans(up: bool, g: Graph, i: nat, j: nat, l: nat)
    requires Closed(g) && Coherent(up, g) && i < |g| && j < |g| && l < |g|
    requires Same(up, g, i, g, j) && Same(up, g, j, g, l)
    ensures Same(up, g, i, g, l)
  {
    hide AgreeTo, Coherent;
    forall k: nat ensures AgreeTo(up, g, i, g, l, k) { AgreeTrans(up, g, i, j, l, k); }
  }

  /** Joining types that are the same up to forward declarations keeps them the same exactly
      if no forward declaration is ambiguous. */
  lemma UnambiguousExactly(g: Graph)
    requires Closed(g)
    ensures Unambiguous(g) <==>
      forall i, j, l | 0 <= i < |g| && 0 <= j < |g| && 0 <= l < |g| ::
        Same(true, g, i, g, j) && Same(true, g, j, g, l) ==> Same(true, g, i, g, l)
  {
    hide AgreeTo, Same, OutlineOf, IsForward;
    if Unambiguous(g) {
      forall i, j, l | 0 <= i < |g| && 0 <= j < |g| && 0 <= l < |g| && Same(true, g, i, g, j) && Same(true, g, j, g, l)
        ensures Same(true, g, i, g, l)
      {
        SameTrans(true, g, i, j, l);
      }
    } else {
      var f, i, j :| 0 <= f < |g| && 0 <= i < |g| && 0 <= j < |g| && Announced(g, f, i, j) && !Same(true, g, i, g, j);
      LooseSame(true, g, i, g, f);
      LooseSame(true, g, f, g, j);
    }
  }

  /** One level of agreement plus agreement of the children is agreement. */
  lemma SameFolds(up: bool, g: Graph, i: nat, g': Graph, j: nat)
    requires Closed(g) && Closed(g') && i < |g| && j < |g'|
    requires Shape(g[i]) == Shape(g'[j]) && |Refs(g[i])| == |Refs(g'[j])|
    requires forall c :: 0 <= c < |Refs(g[i])| ==> Same(up, g, Refs(g[i])[c], g', Refs(g'[j])[c])
    ensures Same(up, g, i, g', j)
  {
    hide Shape, Refs, OutlineOf, Loose;
    ShapeGivesOutline(g[i], g'[j]);
    forall k: nat ensures AgreeTo(up, g, i, g', j, k) {
    }
  }

  lemma LooseSame(up: bool, g: Graph, i: nat, g': Graph, j: nat)
    requires Closed(g) && Closed(g') && i < |g| && j < |g'|
    requires Loose(up, g[i], g'[j]) && OutlineOf(g[i]) == OutlineOf(g'[j])
    ensures Same(up, g, i, g', j)
  {
  }

  /** A graph in which nothing is merely announced. */
  ghost predicate ForwardFree(g: Graph) {
    forall i :: 0 <= i < |g| ==> !IsForward(g[i])
  }

  /** There, agreement up to forward declarations is agreement. */
  lemma {:induction false} ForwardFreeAgree(g: Graph, i: nat, g': Graph, j: nat, k: nat)
    requires Closed(g) && Closed(g') && i < |g| && j < |g'| && ForwardFree(g) && ForwardFree(g')
    requires AgreeTo(true, g, i, g', j, k)
    ensures AgreeTo(false, g, i, g', j, k)
    decreases k
  {
    hide Shape, Refs, OutlineOf;
    if k > 0 {
      forall c | 0 <= c < |Refs(g[i])| ensures AgreeTo(false, g, Refs(g[i])[c], g', Refs(g'[j])[c], k - 1) {
        ForwardFreeAgree(g, Refs(g[i])[c], g', Refs(g'[j])[c], k - 1);
      }
    }
  }

  lemma ForwardFreeSame(g: Graph, i: nat, g': Graph, j: nat)
    requires Closed(g) && Closed(g') && i < |g| && j < |g'| && ForwardFree(g) && ForwardFree(g')
    requires Same(true, g, i, g', j)
    ensures Same(false, g, i, g', j)
  {
    hide ForwardFree, AgreeTo;
    forall k: nat ensures AgreeTo(false, g, i, g', j, k) { ForwardFreeAgree(g, i, g', j, k); }
  }
}
