/** What the deduplicator's passes compare, and why the links they record are right. */
module DedupTheory {
  import opened BtfGraph
  import opened CanonMap
  import opened Arith
  import opened HashMaps

  // ----- descriptor comparison, field by field as the passes do it -----

  function KindOf(t: BtfType): nat {
    match t
    case Void => 0
    case Int(_, _, _) => 1
    case Ref(kind, _, _) =>
      (match kind case Ptr => 2 case Typedef => 8 case Volatile => 9
       case Const => 10 case Restrict => 11 case Func => 12)
    case Array(_, _, _, _, _) => 3
    case Struct(isUnion, _, _, _) => if isUnion then 5 else 4
    case Enum(_, _, _) => 6
    case Fwd(_, _) => 7
    case FuncProto(_, _, _) => 13
    case Var(_, _, _) => 14
    case DataSec(_, _, _) => 15
  }

  function Vlen(t: BtfType): nat {
    match t
    case Enum(_, _, values) => |values|
    case Struct(_, _, _, ms) => |ms|
    case FuncProto(_, _, ps) => |ps|
    case DataSec(_, _, vs) => |vs|
    case _ => 0
  }

  /** The word that holds a size for some kinds and a type id for others. */
  function SizeOrType(t: BtfType): nat {
    match t
    case Void => 0
    case Int(_, size, _) => size
    case Enum(_, size, _) => size
    case Fwd(_, typ) => typ
    case Ref(_, _, typ) => typ
    case Array(_, size, _, _, _) => size
    case Struct(_, _, size, _) => size
    case FuncProto(_, ret, _) => ret
    case Var(_, typ, _) => typ
    case DataSec(_, size, _) => size
  }

  predicate EqualBits(a: BtfType, b: BtfType) {
    if a.Void? || b.Void? then a == b else a.h.kflag == b.h.kflag && a.h.spare == b.h.spare
  }

  predicate EqualInfo(a: BtfType, b: BtfType) {
    KindOf(a) == KindOf(b) && EqualBits(a, b) && Vlen(a) == Vlen(b)
  }

  predicate EqualCommon(a: BtfType, b: BtfType) {
    Name(a) == Name(b) && EqualInfo(a, b) && SizeOrType(a) == SizeOrType(b)
  }

  predicate EqualInt(a: BtfType, b: BtfType)
    requires a.Int?
  {
    EqualCommon(a, b) && a.encoding == b.encoding
  }

  predicate EqualEnum(a: BtfType, b: BtfType)
    requires a.Enum?
  {
    EqualCommon(a, b) && forall i :: 0 <= i < |a.values| ==> a.values[i] == b.values[i]
  }

  predicate CompatEnum(a: BtfType, b: BtfType)
    requires a.Enum?
  {
    if !IsEnumFwd(a) && !IsEnumFwd(b) then EqualEnum(a, b)
    else Name(a) == Name(b) && KindOf(a) == KindOf(b) && EqualBits(a, b) && SizeOrType(a) == SizeOrType(b)
  }

  predicate ShallowEqualStruct(a: BtfType, b: BtfType)
    requires a.Struct?
  {
    EqualCommon(a, b) && forall i :: 0 <= i < |a.members| ==>
      a.members[i].name == b.members[i].name && a.members[i].offset == b.members[i].offset
  }

  predicate EqualArray(a: BtfType, b: BtfType)
    requires a.Array?
  {
    EqualCommon(a, b) && a.elem == b.elem && a.index == b.index && a.nelems == b.nelems
  }

  predicate CompatArray(a: BtfType, b: BtfType)
    requires a.Array?
  {
    EqualCommon(a, b) && a.nelems == b.nelems
  }

  predicate EqualFnProto(a: BtfType, b: BtfType)
    requires a.FuncProto?
  {
    EqualCommon(a, b) && forall i :: 0 <= i < |a.params| ==> a.params[i] == b.params[i]
  }

  predicate CompatFnProto(a: BtfType, b: BtfType)
    requires a.FuncProto?
  {
    Name(a) == Name(b) && EqualInfo(a, b) && forall i :: 0 <= i < |a.params| ==> a.params[i].name == b.params[i].name
  }

  function FwdKind(t: BtfType): nat
    requires t.Fwd?
  {
    if t.h.kflag then 5 else 4
  }

  /** Name and kind, with a forward declaration counted as what it announces. */
  function Label(t: BtfType): (nat, nat) {
    (Name(t), if t.Fwd? then FwdKind(t) else KindOf(t))
  }

  lemma StructMeaning(a: BtfType, b: BtfType)
    requires a.Struct?
    ensures ShallowEqualStruct(a, b) <==> Shape(a) == Shape(b)
  {
    if ShallowEqualStruct(a, b) {
      assert Shape(a).members == Shape(b).members;
    }
    if Shape(a) == Shape(b) {
      assert |Shape(a).members| == |a.members|;
      forall i | 0 <= i < |a.members|
        ensures a.members[i].name == b.members[i].name && a.members[i].offset == b.members[i].offset
      {
        assert Shape(a).members[i] == Shape(b).members[i];
      }
    }
  }

  lemma FnProtoMeaning(a: BtfType, b: BtfType)
    requires a.FuncProto?
    ensures CompatFnProto(a, b) <==> Shape(a) == Shape(b)
    ensures EqualFnProto(a, b) <==> a == b
  {
    if CompatFnProto(a, b) {
      assert Shape(a).params == Shape(b).params;
    }
    if Shape(a) == Shape(b) {
      assert |Shape(a).params| == |a.params|;
      forall i | 0 <= i < |a.params| ensures a.params[i].name == b.params[i].name {
        assert Shape(a).params[i] == Shape(b).params[i];
      }
    }
    if EqualFnProto(a, b) {
      assert a.params == b.params;
    }
  }

  /** Exact comparison of a resolved reference type with a candidate. */
  predicate EqualRef(t: BtfType, cand: BtfType)
    requires t.Ref? || t.Array? || t.FuncProto?
  {
    match t
    case Array(_, _, _, _, _) => EqualArray(t, cand)
    case FuncProto(_, _, _) => EqualFnProto(t, cand)
    case _ => EqualCommon(t, cand)
  }

  lemma EqualRefMeaning(t: BtfType, cand: BtfType)
    requires t.Ref? || t.Array? || t.FuncProto?
    ensures EqualRef(t, cand) <==> t == cand
  {
    if t.FuncProto? {
      FnProtoMeaning(t, cand);
    }
  }

  /** Exact comparison of a primitive type with a candidate. */
  predicate EqualPrim(t: BtfType, cand: BtfType)
    requires t.Int? || t.Enum? || t.Fwd?
  {
    match t
    case Int(_, _, _) => EqualInt(t, cand)
    case Enum(_, _, _) => EqualEnum(t, cand)
    case _ => EqualCommon(t, cand)
  }

  lemma EqualPrimMeaning(t: BtfType, cand: BtfType)
    requires t.Int? || t.Enum? || t.Fwd?
    ensures EqualPrim(t, cand) <==> t == cand
    ensures t.Enum? ==>
      (CompatEnum(t, cand) <==> t == cand || ((IsEnumFwd(t) || IsEnumFwd(cand)) && OutlineOf(t) == OutlineOf(cand)))
  {
    if t.Enum? && cand.Enum? && EqualEnum(t, cand) {
      assert t.values == cand.values;
    }
  }

  // ----- the node comparison of the side-by-side traversal -----

  datatype Verdict = Equivalent | Different | Invalid

  datatype Step = Stop(verdict: Verdict) | Descend

  function Yes(b: bool): Step {
    Stop(if b then Equivalent else Different)
  }

  function DescendIf(b: bool): Step {
    if b then Descend else Stop(Different)
  }

  function Compare(noFwd: bool, cand: BtfType, canon: BtfType): Step {
    if Name(cand) != Name(canon) then Stop(Different)
    else if !noFwd && (cand.Fwd? || canon.Fwd?) && KindOf(cand) != KindOf(canon) then
      if cand.Fwd? then Yes(FwdKind(cand) == KindOf(canon)) else Yes(FwdKind(canon) == KindOf(cand))
    else if KindOf(cand) != KindOf(canon) then Stop(Different)
    else
      match cand
      case Int(_, _, _) => Yes(EqualInt(cand, canon))
      case Enum(_, _, _) => Yes(if noFwd then EqualEnum(cand, canon) else CompatEnum(cand, canon))
      case Fwd(_, _) => Yes(EqualCommon(cand, canon))
      case Ref(_, _, _) => DescendIf(EqualInfo(cand, canon))
      case Array(_, _, _, _, _) => DescendIf(CompatArray(cand, canon))
      case Struct(_, _, _, _) => DescendIf(ShallowEqualStruct(cand, canon))
      case FuncProto(_, _, _) => DescendIf(CompatFnProto(cand, canon))
      case _ => Stop(Invalid)
  }

  lemma CompareMeaning(noFwd: bool, a: BtfType, b: BtfType)
    ensures Compare(noFwd, a, b) == Descend ==> Shape(a) == Shape(b)
    ensures Compare(noFwd, a, b) == Stop(Equivalent) ==>
      a == b || (Loose(!noFwd, a, b) && OutlineOf(a) == OutlineOf(b))
    ensures Compare(noFwd, a, b) in {Descend, Stop(Equivalent)} ==> Label(a) == Label(b)
  {
    match a
    case Struct(_, _, _, _) => StructMeaning(a, b);
    case FuncProto(_, _, _) => FnProtoMeaning(a, b);
    case Int(_, _, _) => EqualPrimMeaning(a, b);
    case Enum(_, _, _) => EqualPrimMeaning(a, b);
    case Fwd(_, _) => EqualPrimMeaning(a, b);
    case _ =>
  }

  lemma ShapeGivesLabel(a: BtfType, b: BtfType)
    requires Shape(a) == Shape(b)
    ensures Label(a) == Label(b) && (a.Fwd? <==> b.Fwd?) && (a.Struct? <==> b.Struct?)
  {
  }

  // ----- recorded links -----

  /** The two types have the same kind and name; and they are the same type, up to forward
      declarations if these are resolved, provided none of these is ambiguous. */
  ghost predicate LinkFits(g: Graph, noFwd: bool, i: nat, t: nat)
    requires Closed(g) && i < |g| && t < |g|
  {
    Label(g[i]) == Label(g[t]) && (Coherent(!noFwd, g) ==> Same(!noFwd, g, i, g, t))
  }

  /** The map is a forest over the graph, and every link joins equivalent types. */
  ghost predicate LinksOk(g: Graph, m: Links, noFwd: bool) {
    && Closed(g) && |g| == |m| && |g| <= MAX_NR_TYPES + 1 && m[0] == 0
    && Acyclic(m)
    && forall i :: 0 <= i < |m| && Link(m, i) ==> LinkFits(g, noFwd, i, m[i])
  }

  lemma FitsTrans(g: Graph, noFwd: bool, i: nat, j: nat, k: nat)
    requires Closed(g) && i < |g| && j < |g| && k < |g|
    requires LinkFits(g, noFwd, i, j) && LinkFits(g, noFwd, j, k)
    ensures LinkFits(g, noFwd, i, k)
  {
    hide Label, Shape, Refs, AgreeTo, Same, Coherent;
    if Coherent(!noFwd, g) {
      SameTrans(!noFwd, g, i, j, k);
    }
  }

  lemma FitsSym(g: Graph, noFwd: bool, i: nat, j: nat)
    requires Closed(g) && i < |g| && j < |g| && LinkFits(g, noFwd, i, j)
    ensures LinkFits(g, noFwd, j, i)
  {
    hide Label, Shape, Refs, AgreeTo, Same, Coherent;
    if Coherent(!noFwd, g) {
      SameSym(!noFwd, g, i, g, j);
    }
  }

  lemma FitsRefl(g: Graph, noFwd: bool, i: nat)
    requires Closed(g) && i < |g|
    ensures LinkFits(g, noFwd, i, i)
  {
    hide Label, Shape, Refs, AgreeTo, Same, Coherent;
    SameRefl(!noFwd, g, i);
  }

  lemma {:induction false} RootFits(g: Graph, m: Links, noFwd: bool, i: nat)
    requires LinksOk(g, m, noFwd) && i < |m|
    ensures LinkFits(g, noFwd, i, Root(m, i))
    decreases Rank(m)[i]
  {
    hide LinkFits, Closed;
    FitsRefl(g, noFwd, i);
    if Link(m, i) {
      RootFits(g, m, noFwd, m[i]);
      FitsTrans(g, noFwd, i, m[i], Root(m, i));
    }
  }

  lemma AddLink(g: Graph, m: Links, noFwd: bool, i: nat, t: nat)
    requires LinksOk(g, m, noFwd) && 0 < i < |m| && t < |m| && !Passes(m, t, i)
    requires LinkFits(g, noFwd, i, t)
    ensures LinksOk(g, m[i := t], noFwd)
  {
    hide LinkFits, Closed, Acyclic;
    Relink(m, i, t);
  }

  lemma SetRoot(g: Graph, m: Links, noFwd: bool, i: nat, v: nat)
    requires LinksOk(g, m, noFwd) && 0 < i < |m| && (v == i || v > MAX_NR_TYPES)
    ensures LinksOk(g, m[i := v], noFwd)
  {
    hide LinkFits, Closed, Acyclic;
    Unlink(m, i, v);
  }

  // ----- hypothetical pairs -----

  predicate Filled(hyp: seq<nat>, c: nat)
    requires c < |hyp|
  {
    hyp[c] <= MAX_NR_TYPES
  }

  /** Slots hold graph ids, and the list names exactly the filled slots. */
  ghost predicate HypOk(g: Graph, hyp: seq<nat>, list: seq<nat>) {
    && |hyp| == |g|
    && (forall c :: 0 <= c < |hyp| && Filled(hyp, c) ==> hyp[c] < |g|)
    && (forall c :: 0 <= c < |hyp| && Filled(hyp, c) ==> c in list)
    && (forall c :: c in list ==> c < |hyp| && Filled(hyp, c))
  }

  ghost predicate Extends(hyp: seq<nat>, hyp': seq<nat>) {
    |hyp| == |hyp'| && forall c :: 0 <= c < |hyp| && Filled(hyp, c) ==> hyp'[c] == hyp[c]
  }

  ghost function Free(hyp: seq<nat>): set<nat> {
    set c | 0 <= c < |hyp| && !Filled(hyp, c)
  }

  /** A canonical-side FWD stands for the struct it already resolves to. */
  ghost function FwdId(g: Graph, m: Links, b: nat): (r: nat)
    requires |g| == |m| && Acyclic(m) && b < |m|
    ensures r < |m|
  {
    if g[b].Fwd? && !g[Root(m, b)].Fwd? then Root(m, b) else b
  }

  ghost predicate Related(g: Graph, m: Links, hyp: seq<nat>, a: nat, b: nat)
    requires |g| == |m| == |hyp| && Acyclic(m) && a < |g| && b < |g|
  {
    Root(m, a) == Root(m, b) || hyp[FwdId(g, m, b)] == a
  }

  /** A recorded pair compares equal and its children are related in turn. */
  ghost predicate PairOk(g: Graph, m: Links, noFwd: bool, hyp: seq<nat>, c: nat)
    requires Closed(g) && |g| == |m| == |hyp| && Acyclic(m) && c < |g| && hyp[c] < |g|
  {
    match Compare(noFwd, g[hyp[c]], g[c])
    case Stop(v) => v == Equivalent
    case Descend =>
      var ra, rb := Refs(g[hyp[c]]), Refs(g[c]);
      |ra| == |rb| && forall k :: 0 <= k < |ra| ==> Related(g, m, hyp, ra[k], rb[k])
  }

  /** Every pair recorded between hyp and hyp' has been fully checked. */
  ghost predicate NewPairsOk(g: Graph, m: Links, noFwd: bool, hyp: seq<nat>, hyp': seq<nat>)
    requires Closed(g) && |g| == |m| == |hyp| == |hyp'| && Acyclic(m)
  {
    forall c :: 0 <= c < |g| && Filled(hyp', c) && !Filled(hyp, c) ==> hyp'[c] < |g| && PairOk(g, m, noFwd, hyp', c)
  }

  /** `a` is a hypothetical map, extending hyp by checked pairs only, that relates cand to canon. */
  ghost predicate Witness(g: Graph, m: Links, noFwd: bool, hyp: seq<nat>, a: seq<nat>, cand: nat, canon: nat)
    requires LinksOk(g, m, noFwd) && |hyp| == |g| && cand < |g| && canon < |g|
  {
    |a| == |g| && Extends(hyp, a) && NewPairsOk(g, m, noFwd, hyp, a) && Related(g, m, a, cand, canon)
  }

  /** Whatever relates the pair also relates its children, once the pair itself is recorded. */
  lemma WitnessDescends(g: Graph, m: Links, noFwd: bool, h0: seq<nat>, a: seq<nat>, cand: nat, canon: nat)
    requires LinksOk(g, m, noFwd) && |h0| == |g| && cand < |g| && canon < |g|
    requires Witness(g, m, noFwd, h0, a, cand, canon) && Root(m, cand) != Root(m, canon)
    ensures var c := FwdId(g, m, canon);
      && a[c] == cand
      && (!Filled(h0, c) ==>
            && Extends(h0[c := cand], a) && NewPairsOk(g, m, noFwd, h0[c := cand], a)
            && PairOk(g, m, noFwd, a, c))
  {
    hide Closed, LinkFits, Acyclic, PairOk;
  }

  lemma PairOkGrows(g: Graph, m: Links, noFwd: bool, hyp: seq<nat>, hyp': seq<nat>, c: nat)
    requires Closed(g) && |g| == |m| == |hyp| && |g| <= MAX_NR_TYPES + 1 && Acyclic(m) && c < |g| && hyp[c] < |g|
    requires Extends(hyp, hyp') && PairOk(g, m, noFwd, hyp, c)
    ensures hyp'[c] == hyp[c] && PairOk(g, m, noFwd, hyp', c)
  {
    hide Compare, Refs, Acyclic;
  }

  lemma NewPairsCompose(g: Graph, m: Links, noFwd: bool, h0: seq<nat>, h1: seq<nat>, h2: seq<nat>)
    requires Closed(g) && |g| == |m| == |h0| == |h1| == |h2| && |g| <= MAX_NR_TYPES + 1 && Acyclic(m)
    requires Extends(h0, h1) && Extends(h1, h2)
    requires NewPairsOk(g, m, noFwd, h0, h1) && NewPairsOk(g, m, noFwd, h1, h2)
    ensures Extends(h0, h2) && NewPairsOk(g, m, noFwd, h0, h2)
  {
    hide PairOk, Acyclic, Closed;
    forall c | 0 <= c < |g| && Filled(h2, c) && !Filled(h0, c)
      ensures h2[c] < |g| && PairOk(g, m, noFwd, h2, c)
    {
      if Filled(h1, c) {
        PairOkGrows(g, m, noFwd, h1, h2, c);
      }
    }
  }

  /** The recorded pairs, read as claims about the types. */
  ghost predicate Hypotheses(g: Graph, noFwd: bool, hyp: seq<nat>) {
    && Closed(g) && |hyp| == |g|
    && forall c :: 0 <= c < |g| && Filled(hyp, c) ==> hyp[c] < |g| && LinkFits(g, noFwd, hyp[c], c)
  }

  lemma {:induction false} RelatedAgree(g: Graph, m: Links, noFwd: bool, hyp: seq<nat>, a: nat, b: nat, k: nat)
    requires LinksOk(g, m, noFwd) && Coherent(!noFwd, g) && |hyp| == |g| && a < |g| && b < |g|
    requires Related(g, m, hyp, a, b)
    requires forall c :: 0 <= c < |g| && Filled(hyp, c) ==> hyp[c] < |g| && AgreeTo(!noFwd, g, hyp[c], g, c, k)
    ensures AgreeTo(!noFwd, g, a, g, b, k)
  {
    hide AgreeTo, Closed, Acyclic, Label, Coherent;
    RootFits(g, m, noFwd, a);
    RootFits(g, m, noFwd, b);
    if Root(m, a) == Root(m, b) {
      AgreeSym(!noFwd, g, b, g, Root(m, b), k);
      AgreeTrans(!noFwd, g, a, Root(m, a), b, k);
    } else {
      var c := FwdId(g, m, b);
      AgreeRefl(!noFwd, g, b, k);
      AgreeSym(!noFwd, g, b, g, c, k);
      AgreeTrans(!noFwd, g, a, c, b, k);
    }
  }

  /** A fully checked hypothetical map is a bisimulation up to known links. */
  lemma {:induction false} PairsAgree(g: Graph, m: Links, noFwd: bool, hyp: seq<nat>, k: nat)
    requires LinksOk(g, m, noFwd) && Coherent(!noFwd, g) && |hyp| == |g|
    requires forall c :: 0 <= c < |g| && Filled(hyp, c) ==> hyp[c] < |g| && PairOk(g, m, noFwd, hyp, c)
    ensures forall c :: 0 <= c < |g| && Filled(hyp, c) ==> AgreeTo(!noFwd, g, hyp[c], g, c, k)
  {
    hide PairOk, Closed, Acyclic, Shape, Refs, Coherent, OutlineOf, Loose;
    if k > 0 {
      PairsAgree(g, m, noFwd, hyp, k - 1);
      forall c | 0 <= c < |g| && Filled(hyp, c) ensures AgreeTo(!noFwd, g, hyp[c], g, c, k) {
        PairAgrees(g, m, noFwd, hyp, c, k);
      }
    }
  }

  lemma PairAgrees(g: Graph, m: Links, noFwd: bool, hyp: seq<nat>, c: nat, k: nat)
    requires LinksOk(g, m, noFwd) && Coherent(!noFwd, g) && |hyp| == |g| && k > 0 && c < |g| && hyp[c] < |g|
    requires PairOk(g, m, noFwd, hyp, c)
    requires forall d :: 0 <= d < |g| && Filled(hyp, d) ==> hyp[d] < |g| && AgreeTo(!noFwd, g, hyp[d], g, d, k - 1)
    ensures AgreeTo(!noFwd, g, hyp[c], g, c, k)
  {
    hide Compare, Shape, Refs, Related, LinksOk, Coherent, OutlineOf, Loose, Label;
    assert Closed(g) && Acyclic(m) by { LinksOkParts(g, m, noFwd); }
    var a := hyp[c];
    CompareMeaning(noFwd, g[a], g[c]);
    if Compare(noFwd, g[a], g[c]) == Descend {
      ShapeGivesOutline(g[a], g[c]);
      forall j | 0 <= j < |Refs(g[a])| ensures AgreeTo(!noFwd, g, Refs(g[a])[j], g, Refs(g[c])[j], k - 1) {
        RelatedAgree(g, m, noFwd, hyp, Refs(g[a])[j], Refs(g[c])[j], k - 1);
      }
    } else if g[a] == g[c] {
      forall j | 0 <= j < |Refs(g[a])| ensures AgreeTo(!noFwd, g, Refs(g[a])[j], g, Refs(g[c])[j], k - 1) {
        AgreeRefl(!noFwd, g, Refs(g[a])[j], k - 1);
      }
    }
  }

  lemma LinksOkParts(g: Graph, m: Links, noFwd: bool)
    requires LinksOk(g, m, noFwd)
    ensures Closed(g) && Acyclic(m) && |g| == |m| && |g| <= MAX_NR_TYPES + 1 && m[0] == 0
  {
  }

  lemma PairsAreHypotheses(g: Graph, m: Links, noFwd: bool, hyp: seq<nat>)
    requires LinksOk(g, m, noFwd) && |hyp| == |g|
    requires forall c :: 0 <= c < |g| && Filled(hyp, c) ==> hyp[c] < |g| && PairOk(g, m, noFwd, hyp, c)
    ensures Hypotheses(g, noFwd, hyp)
  {
    hide Compare, AgreeTo, Acyclic, Related, Label, Coherent, Loose, OutlineOf;
    forall c | 0 <= c < |g| && Filled(hyp, c) ensures LinkFits(g, noFwd, hyp[c], c) {
      CompareMeaning(noFwd, g[hyp[c]], g[c]);
      if Coherent(!noFwd, g) {
        var up := !noFwd;
        forall k: nat ensures AgreeTo(up, g, hyp[c], g, c, k) {
          PairsAgree(g, m, noFwd, hyp, k);
        }
      }
    }
  }

  // ----- what the passes keep -----

  /** Only forward declarations may ever be re-pointed after they were mapped. */
  ghost predicate StaysPut(g: Graph, m: Links, m': Links, noFwd: bool, i: nat)
    requires |g| == |m| == |m'| && i < |g|
  {
    Mapped(m, i) ==> Mapped(m', i) && (m'[i] == m[i] || (!noFwd && IsForward(g[i])))
  }

  ghost predicate Stable(g: Graph, m: Links, m': Links, noFwd: bool) {
    |g| == |m| == |m'| && forall i :: 0 <= i < |g| ==> StaysPut(g, m, m', noFwd, i)
  }

  /** Candidates are representatives of themselves, up to resolved forward declarations. */
  ghost predicate Canonical(g: Graph, m: Links, noFwd: bool, id: nat) {
    |g| == |m| && 0 < id < |m| && Mapped(m, id) && (m[id] == id || (!noFwd && IsForward(g[id])))
  }

  lemma CanonicalsStay(g: Graph, m: Links, m': Links, noFwd: bool)
    requires Stable(g, m, m', noFwd)
    ensures forall id :: Canonical(g, m, noFwd, id) ==> Canonical(g, m', noFwd, id)
  {
    forall id | Canonical(g, m, noFwd, id) ensures Canonical(g, m', noFwd, id) {
      assert StaysPut(g, m, m', noFwd, id);
    }
  }

  lemma StableTrans(g: Graph, m: Links, m': Links, m'': Links, noFwd: bool)
    requires Stable(g, m, m', noFwd) && Stable(g, m', m'', noFwd)
    ensures Stable(g, m, m'', noFwd)
  {
    forall i | 0 <= i < |g| ensures StaysPut(g, m, m'', noFwd, i) {
      assert StaysPut(g, m, m', noFwd, i) && StaysPut(g, m', m'', noFwd, i);
    }
  }

  /** Joining a root to another root that describes an equivalent type. */
  lemma JoinRoots(g: Graph, m: Links, noFwd: bool, x: nat, y: nat)
    requires LinksOk(g, m, noFwd) && x < |m| && y < |m| && x != y && g[x] != Void
    requires !Link(m, x) && !Link(m, y) && LinkFits(g, noFwd, x, y)
    requires Mapped(m, x) ==> !noFwd && IsForward(g[x])
    ensures LinksOk(g, m[x := y], noFwd) && Stable(g, m, m[x := y], noFwd)
    ensures forall i :: 0 <= i < |m| ==> Root(m[x := y], i) == if Root(m, i) == x then y else Root(m, i)
  {
    hide LinkFits, Acyclic;
    AddLink(g, m, noFwd, x, y);
    forall i | 0 <= i < |m| ensures Root(m[x := y], i) == if Root(m, i) == x then y else Root(m, i) {
      JoinedRoot(m, x, y, i);
    }
  }

  /** The pairs that merging the hypothetical map must join. */
  predicate ShouldJoin(g: Graph, m: Links, t: nat, c: nat)
    requires |g| == |m| && t < |g| && c < |g|
  {
    g[t].Fwd? != g[c].Fwd? || (g[t].Struct? && !g[c].Fwd? && Mapped(m, c) && !Mapped(m, t))
  }

  /** The map after roots t and c were merged: a forward declaration gives way to the other. */
  function MergedRoots(g: Graph, m: Links, t: nat, c: nat): Links
    requires |g| == |m| && t < |g| && c < |g|
  {
    if !ShouldJoin(g, m, t, c) then m else if g[c].Fwd? then m[c := t] else m[t := c]
  }

  lemma FwdOnBothSides(g: Graph, i: nat, j: nat)
    requires Closed(g) && i < |g| && j < |g| && LinkFits(g, true, i, j)
    ensures g[i].Fwd? <==> g[j].Fwd?
  {
    hide Shape, Refs, Closed, AgreeTo;
    SameUnfolds(false, g, i, g, j);
    ShapeGivesLabel(g[i], g[j]);
  }

  // ----- signature hashes, 64-bit wrapping -----

  function HashCombine(h: nat, value: nat): nat {
    (h * 31 + value) % WORD
  }

  function InfoWord(t: BtfType): nat {
    if t.Void? then 0
    else (if t.h.kflag then 0x8000_0000 else 0) + KindOf(t) * 0x100_0000 + t.h.spare + Vlen(t)
  }

  function HashCommon(t: BtfType): nat {
    HashCombine(HashCombine(HashCombine(0, Name(t)), InfoWord(t)), SizeOrType(t))
  }

  function HashMembers(h: nat, ms: seq<Member>): nat
    decreases ms
  {
    if ms == [] then h
    else HashMembers(HashCombine(HashCombine(h, ms[0].name), ms[0].offset), ms[1..])
  }

  function HashParams(h: nat, ps: seq<Param>): nat
    decreases ps
  {
    if ps == [] then h
    else HashParams(HashCombine(HashCombine(h, ps[0].name), ps[0].typ), ps[1..])
  }

  /** Signature hash per kind; enum values and struct member types are not hashed. */
  function HashOf(t: BtfType): nat {
    match t
    case Int(_, _, encoding) => HashCombine(HashCommon(t), encoding)
    case Enum(_, size, _) => HashCombine(HashCombine(HashCombine(0, Name(t)), InfoWord(t) - Vlen(t)), size)
    case Struct(_, _, _, ms) => HashMembers(HashCommon(t), ms)
    case Array(_, _, index, elem, nelems) =>
      HashCombine(HashCombine(HashCombine(HashCommon(t), elem), index), nelems)
    case FuncProto(_, _, ps) => HashParams(HashCommon(t), ps)
    case _ => HashCommon(t)
  }

  // ----- the candidate table -----

  /** Kinds that have a representative chosen for them. */
  predicate IsDeduped(t: BtfType) {
    !t.Void? && !t.Var? && !t.DataSec?
  }

  predicate IsPrim(t: BtfType) {
    t.Int? || t.Enum? || t.Fwd?
  }

  predicate IsRefType(t: BtfType) {
    t.Ref? || t.Array? || t.FuncProto?
  }

  type Candidates = multiset<Entry<nat, nat>>

  /** Candidates are canonical, filed under their hash, and pairwise different
      (structs and unions aside, whose members are not compared here); every
      representative is a candidate. */
  ghost predicate TableFits(g: Graph, ts: Graph, m: Links, noFwd: bool, items: Candidates) {
    && |g| == |ts| == |m|
    && (forall e :: e in items ==> Canonical(g, m, noFwd, e.value) && e.key == HashOf(ts[e.value]))
    && (forall e, f :: e in items && f in items && ts[e.value] == ts[f.value] && !ts[e.value].Struct? ==>
          e.value == f.value)
    && (forall i :: 0 < i < |m| && m[i] == i && IsDeduped(ts[i]) ==> Entry(HashOf(ts[i]), i) in items)
  }

  /** No entry newly becomes its own representative. */
  ghost predicate NoNewRoots(m: Links, m': Links) {
    |m| == |m'| && forall i :: 0 <= i < |m| && m'[i] == i ==> m[i] == i
  }

  lemma TableKept(g: Graph, ts: Graph, m: Links, m': Links, noFwd: bool, items: Candidates)
    requires TableFits(g, ts, m, noFwd, items) && Stable(g, m, m', noFwd) && NoNewRoots(m, m')
    ensures TableFits(g, ts, m', noFwd, items)
  {
    hide IsForward, StaysPut, HashOf;
    CanonicalsStay(g, m, m', noFwd);
    hide Canonical, Stable;
  }

  lemma NotACandidate(g: Graph, ts: Graph, m: Links, noFwd: bool, items: Candidates, id: nat)
    requires TableFits(g, ts, m, noFwd, items) && id < |g| && !Mapped(m, id)
    ensures forall e :: e in items ==> e.value != id
  {
    hide HashOf;
  }

  /** No candidate with this hash has the same record (structs and unions aside). */
  ghost predicate Unmatched(ts: Graph, items: Candidates, id: nat)
    requires id < |ts|
  {
    ts[id].Struct? || forall e :: e in items && e.key == HashOf(ts[id]) ==> e.value < |ts| && ts[e.value] != ts[id]
  }

  lemma UnmatchedStruct(ts: Graph, items: Candidates, id: nat)
    requires id < |ts| && ts[id].Struct?
    ensures Unmatched(ts, items, id)
  {
  }

  lemma UnmatchedBy(ts: Graph, items: Candidates, id: nat, cands: seq<nat>)
    requires id < |ts| && forall v :: v in cands <==> Entry(HashOf(ts[id]), v) in items
    requires forall c :: c in cands ==> c < |ts| && ts[c] != ts[id]
    ensures Unmatched(ts, items, id)
  {
    hide HashOf;
    forall e | e in items && e.key == HashOf(ts[id]) ensures e.value in cands {
      assert e == Entry(HashOf(ts[id]), e.value);
    }
  }

  lemma CandidatesCanonical(g: Graph, ts: Graph, m: Links, noFwd: bool, items: Candidates, h: nat, cands: seq<nat>)
    requires TableFits(g, ts, m, noFwd, items) && forall v :: v in cands <==> Entry(h, v) in items
    ensures forall c :: c in cands ==> Canonical(g, m, noFwd, c)
  {
    hide HashOf, Canonical;
  }

  /** The table after id got its representative. */
  lemma TableSettled(g: Graph, ts: Graph, m: Links, noFwd: bool, items: Candidates, id: nat, newId: nat)
    requires TableFits(g, ts, m, noFwd, items) && 0 < id < |g| && newId < |g| <= MAX_NR_TYPES + 1
    requires forall e :: e in items ==> e.value != id
    requires newId == id ==> Unmatched(ts, items, id)
    ensures newId != id ==> TableFits(g, ts, m[id := newId], noFwd, items)
    ensures newId == id ==> TableFits(g, ts, m[id := id], noFwd, items + multiset{Entry(HashOf(ts[id]), id)})
  {
    hide HashOf, IsForward;
  }

  /** Rewriting a descriptor that is neither candidate nor representative. */
  lemma TableRewrite(g: Graph, ts: Graph, m: Links, noFwd: bool, items: Candidates, id: nat, t: BtfType)
    requires TableFits(g, ts, m, noFwd, items) && id < |g| <= MAX_NR_TYPES + 1 && !Mapped(m, id)
    ensures TableFits(g, ts[id := t], m, noFwd, items)
  {
    NotACandidate(g, ts, m, noFwd, items, id);
    hide HashOf, IsForward;
  }

  // ----- steps of the passes -----

  /** Links lead to ids that have a representative. */
  ghost predicate TargetsMapped(m: Links) {
    InRange(m) && forall x :: 0 <= x < |m| && Link(m, x) ==> Mapped(m, m[x])
  }

  ghost predicate TargetsMappedBut(m: Links, id: nat) {
    InRange(m) && forall x :: 0 <= x < |m| && Link(m, x) ==> Mapped(m, m[x]) || m[x] == id
  }

  lemma TargetsBut(m: Links, id: nat)
    requires TargetsMapped(m)
    ensures TargetsMappedBut(m, id)
  {
  }

  lemma SettledTarget(m: Links, id: nat, newId: nat)
    requires TargetsMappedBut(m, id) && id < |m| <= MAX_NR_TYPES + 1 && newId < |m|
    requires newId == id || Mapped(m, newId)
    ensures TargetsMapped(m[id := newId])
  {
    var m' := m[id := newId];
    forall x | 0 <= x < |m'| && Link(m', x) ensures Mapped(m', m'[x]) {
      assert x != id ==> Link(m, x);
    }
  }

  lemma CanonicalMapped(g: Graph, m: Links, noFwd: bool, c: nat)
    requires Canonical(g, m, noFwd, c)
    ensures 0 < c < |m| && Mapped(m, c)
  {
  }

  lemma PickEqual(g: Graph, m: Links, noFwd: bool, id: nat, c: nat)
    requires LinksOk(g, m, noFwd) && Canonical(g, m, noFwd, c) && id < |g| && !Mapped(m, id)
    requires IsPrim(g[id]) && EqualPrim(g[id], g[c])
    requires IsForward(g[id]) ==> TargetsMapped(m)
    ensures LinkFits(g, noFwd, id, c) && !Passes(m, c, id)
  {
    hide LinkFits, Acyclic, EqualPrim;
    EqualPrimMeaning(g[id], g[c]);
    EqualTypesFit(g, noFwd, id, c);
    if IsForward(g[id]) {
      OffTarget(m, c, id);
    }
  }

  lemma EqualTypesFit(g: Graph, noFwd: bool, i: nat, j: nat)
    requires Closed(g) && i < |g| && j < |g| && g[i] == g[j]
    ensures LinkFits(g, noFwd, i, j)
  {
    hide Same, Shape, Refs, Coherent;
    forall c | 0 <= c < |Refs(g[i])| ensures Same(!noFwd, g, Refs(g[i])[c], g, Refs(g[j])[c]) {
      SameRefl(!noFwd, g, Refs(g[i])[c]);
    }
    SameFolds(!noFwd, g, i, g, j);
  }

  lemma PickFullEnum(g: Graph, m: Links, noFwd: bool, id: nat, c: nat)
    requires LinksOk(g, m, noFwd) && Canonical(g, m, noFwd, c) && id < |g| && !Mapped(m, id) && !noFwd
    requires IsEnumFwd(g[id]) && CompatEnum(g[id], g[c]) && TargetsMapped(m)
    ensures LinkFits(g, noFwd, id, c) && !Passes(m, c, id)
  {
    hide Acyclic, Coherent, Same, OutlineOf, Label;
    OffTarget(m, c, id);
    AnnouncedFits(g, id, c);
  }

  /** An enum forward may stand for a full enum, and the other way round. */
  lemma AnnouncedFits(g: Graph, id: nat, c: nat)
    requires Closed(g) && id < |g| && c < |g| && g[id].Enum? && CompatEnum(g[id], g[c])
    ensures LinkFits(g, false, id, c) && LinkFits(g, false, c, id)
  {
    hide AgreeTo, Coherent, CompatEnum, OutlineOf;
    EqualPrimMeaning(g[id], g[c]);
    if g[id] == g[c] {
      EqualTypesFit(g, false, id, c);
    } else {
      LooseSame(true, g, id, g, c);
      assert Label(g[id]) == Label(g[c]) by { EnumLabels(g[id], g[c]); }
    }
    FitsSym(g, false, id, c);
  }

  lemma EnumLabels(a: BtfType, b: BtfType)
    requires a.Enum? && OutlineOf(a) == OutlineOf(b)
    ensures Label(a) == Label(b)
  {
  }

  lemma TakeOver(g: Graph, m: Links, noFwd: bool, id: nat, c: nat)
    requires LinksOk(g, m, noFwd) && Canonical(g, m, noFwd, c) && id < |g| && !Mapped(m, id) && !noFwd
    requires g[id].Enum? && !IsEnumFwd(g[id]) && CompatEnum(g[id], g[c]) && !EqualPrim(g[id], g[c])
    requires TargetsMappedBut(m, id)
    ensures LinksOk(g, m[c := id], noFwd) && Stable(g, m, m[c := id], noFwd)
    ensures TargetsMappedBut(m[c := id], id) && !IsForward(g[id]) && IsPrim(g[c]) && NoNewRoots(m, m[c := id])
  {
    hide Acyclic, Same, Coherent, LinkFits, Closed;
    AnnouncedFits(g, id, c);
    AddLink(g, m, noFwd, c, id);
  }

  lemma StableRefl(g: Graph, m: Links, noFwd: bool)
    requires |g| == |m|
    ensures Stable(g, m, m, noFwd)
  {
  }

  /** Writing an entry that was unmapped to begin with disturbs nothing. */
  lemma StableWrite(g: Graph, m0: Links, m1: Links, noFwd: bool, id: nat, v: nat)
    requires Stable(g, m0, m1, noFwd) && id < |g| && !Mapped(m0, id)
    ensures Stable(g, m0, m1[id := v], noFwd)
  {
    var m2 := m1[id := v];
    forall i | 0 <= i < |g| ensures StaysPut(g, m0, m2, noFwd, i) {
      assert StaysPut(g, m0, m1, noFwd, i);
    }
  }

  lemma StableKeepsMapped(g: Graph, m: Links, m': Links, noFwd: bool)
    requires Stable(g, m, m', noFwd)
    ensures forall i :: 0 <= i < |g| && Mapped(m, i) ==> Mapped(m', i)
  {
    forall i | 0 <= i < |g| && Mapped(m, i) ensures Mapped(m', i) {
      assert StaysPut(g, m, m', noFwd, i);
    }
  }

  lemma LeafPair(g: Graph, m: Links, noFwd: bool, h0: seq<nat>, h1: seq<nat>, canon: nat)
    requires LinksOk(g, m, noFwd) && |h0| == |g| && canon < |g| && !Filled(h0, canon)
    requires |h1| == |h0| && h1[canon] < |g| && h1 == h0[canon := h1[canon]]
    requires Compare(noFwd, g[h1[canon]], g[canon]) == Stop(Equivalent)
    ensures NewPairsOk(g, m, noFwd, h0, h1)
  {
    hide Closed, LinkFits, Acyclic, Compare, Refs;
  }

  lemma InnerPair(g: Graph, m: Links, noFwd: bool, h0: seq<nat>, h1: seq<nat>, h2: seq<nat>, canon: nat)
    requires LinksOk(g, m, noFwd) && |h0| == |g| && canon < |g| && !Filled(h0, canon)
    requires |h1| == |h0| && h1[canon] < |g| && h1 == h0[canon := h1[canon]] && Extends(h1, h2)
    requires Compare(noFwd, g[h1[canon]], g[canon]) == Descend
    requires NewPairsOk(g, m, noFwd, h1, h2)
    requires var ra, rb := Refs(g[h1[canon]]), Refs(g[canon]);
      |ra| == |rb| && forall j :: 0 <= j < |ra| ==> Related(g, m, h2, ra[j], rb[j])
    ensures Extends(h0, h2) && NewPairsOk(g, m, noFwd, h0, h2)
  {
    hide Closed, LinkFits, Acyclic, Compare, Refs, Related;
    assert h2[canon] == h1[canon];
    assert PairOk(g, m, noFwd, h2, canon);
  }

  lemma ComposeChild(g: Graph, m: Links, noFwd: bool, h0: seq<nat>, h1: seq<nat>, h2: seq<nat>,
                     ra: seq<nat>, rb: seq<nat>, i: nat)
    requires LinksOk(g, m, noFwd) && |g| == |h0| == |h1| && Extends(h0, h1) && Extends(h1, h2)
    requires |ra| == |rb| && i < |ra| && forall j :: 0 <= j < |ra| ==> ra[j] < |g| && rb[j] < |g|
    requires NewPairsOk(g, m, noFwd, h0, h1)
    requires forall j :: 0 <= j < i ==> Related(g, m, h1, ra[j], rb[j])
    ensures Extends(h0, h2) && Free(h2) <= Free(h1)
    ensures NewPairsOk(g, m, noFwd, h1, h2) ==> NewPairsOk(g, m, noFwd, h0, h2)
    ensures forall j :: 0 <= j < i ==> Related(g, m, h2, ra[j], rb[j])
  {
    hide Closed, LinkFits, Acyclic, PairOk;
    if NewPairsOk(g, m, noFwd, h1, h2) {
      NewPairsCompose(g, m, noFwd, h0, h1, h2);
    }
  }

  lemma RefsInRange(g: Graph, i: nat)
    requires Closed(g) && i < |g|
    ensures forall j :: 0 <= j < |Refs(g[i])| ==> Refs(g[i])[j] < |g|
  {
  }

  ghost predicate WitnessAll(g: Graph, m: Links, noFwd: bool, hyp: seq<nat>, a: seq<nat>, ra: seq<nat>, rb: seq<nat>)
    requires LinksOk(g, m, noFwd) && |hyp| == |g| && |ra| == |rb|
    requires forall j :: 0 <= j < |ra| ==> ra[j] < |g| && rb[j] < |g|
  {
    && |a| == |g| && Extends(hyp, a) && NewPairsOk(g, m, noFwd, hyp, a)
    && forall j :: 0 <= j < |ra| ==> Related(g, m, a, ra[j], rb[j])
  }

  lemma WitnessExtends(g: Graph, m: Links, noFwd: bool, h0: seq<nat>, cand: nat, canon: nat)
    requires LinksOk(g, m, noFwd) && |h0| == |g| && cand < |g| && canon < |g|
    ensures forall a :: Witness(g, m, noFwd, h0, a, cand, canon) ==> |a| == |g| && Extends(h0, a)
  {
    hide Closed, LinkFits, Acyclic, PairOk, Related, Extends;
  }

  lemma WitnessChild(g: Graph, m: Links, noFwd: bool, h0: seq<nat>, hi: seq<nat>, a: seq<nat>,
                     ra: seq<nat>, rb: seq<nat>, i: nat)
    requires LinksOk(g, m, noFwd) && |h0| == |g| == |hi| && |ra| == |rb| && i < |ra|
    requires forall j :: 0 <= j < |ra| ==> ra[j] < |g| && rb[j] < |g|
    requires WitnessAll(g, m, noFwd, h0, a, ra, rb) && Extends(h0, hi) && Extends(hi, a)
    ensures Witness(g, m, noFwd, hi, a, ra[i], rb[i])
  {
    hide Closed, LinkFits, Acyclic, PairOk, Related;
  }

  lemma WitnessRefs(g: Graph, m: Links, noFwd: bool, h1: seq<nat>, a: seq<nat>, canon: nat)
    requires LinksOk(g, m, noFwd) && |h1| == |g| == |a| && canon < |g| && a[canon] < |g|
    requires Extends(h1, a) && NewPairsOk(g, m, noFwd, h1, a) && PairOk(g, m, noFwd, a, canon)
    requires Compare(noFwd, g[a[canon]], g[canon]) == Descend
    ensures |Refs(g[a[canon]])| == |Refs(g[canon])|
    ensures WitnessAll(g, m, noFwd, h1, a, Refs(g[a[canon]]), Refs(g[canon]))
  {
    hide LinkFits, Acyclic, Related, Compare, Refs, Extends, NewPairsOk;
  }

  lemma LeafVerdict(g: Graph, m: Links, noFwd: bool, a: seq<nat>, canon: nat)
    requires LinksOk(g, m, noFwd) && |g| == |a| && canon < |g| && a[canon] < |g|
    requires PairOk(g, m, noFwd, a, canon)
    ensures Compare(noFwd, g[a[canon]], g[canon]) in {Descend, Stop(Equivalent)}
  {
    hide LinkFits, Acyclic, Related, Compare, Refs;
  }

  lemma RootsFit(g: Graph, m: Links, noFwd: bool, t: nat, c: nat)
    requires LinksOk(g, m, noFwd) && t < |g| && c < |g| && LinkFits(g, noFwd, t, c)
    ensures LinkFits(g, noFwd, Root(m, t), Root(m, c)) && LinkFits(g, noFwd, Root(m, c), Root(m, t))
    ensures noFwd ==> (g[Root(m, t)].Fwd? <==> g[Root(m, c)].Fwd?)
  {
    hide Closed, LinkFits, Acyclic, Root;
    RootFits(g, m, noFwd, t);
    RootFits(g, m, noFwd, c);
    FitsSym(g, noFwd, t, Root(m, t));
    FitsTrans(g, noFwd, Root(m, t), t, c);
    FitsTrans(g, noFwd, Root(m, t), c, Root(m, c));
    FitsSym(g, noFwd, Root(m, t), Root(m, c));
    if noFwd {
      FwdOnBothSides(g, Root(m, t), Root(m, c));
    }
  }

  // ----- the struct pass -----

  /** Some hypothetical map, every recorded pair of which checks out, relates the two types. */
  ghost predicate Pairable(g: Graph, m: Links, noFwd: bool, cand: nat, canon: nat)
    requires LinksOk(g, m, noFwd) && cand < |g| && canon < |g|
  {
    exists a :: AllPairsOk(g, m, noFwd, a) && Related(g, m, a, cand, canon)
  }

  ghost predicate AllPairsOk(g: Graph, m: Links, noFwd: bool, a: seq<nat>)
    requires LinksOk(g, m, noFwd)
  {
    |a| == |g| && forall c :: 0 <= c < |g| && Filled(a, c) ==> a[c] < |g| && PairOk(g, m, noFwd, a, c)
  }

  /** Starting from an empty hypothetical map, a witness is all it takes. */
  lemma PairableByWitness(g: Graph, m: Links, noFwd: bool, h0: seq<nat>, cand: nat, canon: nat)
    requires LinksOk(g, m, noFwd) && |h0| == |g| && cand < |g| && canon < |g|
    requires forall c :: 0 <= c < |g| ==> !Filled(h0, c)
    ensures Pairable(g, m, noFwd, cand, canon) <==> exists a :: Witness(g, m, noFwd, h0, a, cand, canon)
  {
    hide LinkFits, Acyclic, PairOk, Related, Closed;
    if Pairable(g, m, noFwd, cand, canon) {
      var a :| AllPairsOk(g, m, noFwd, a) && Related(g, m, a, cand, canon);
      assert Witness(g, m, noFwd, h0, a, cand, canon);
    }
    if a :| Witness(g, m, noFwd, h0, a, cand, canon) {
      assert AllPairsOk(g, m, noFwd, a);
    }
  }

  /** What a successful traversal from an empty hypothetical map establishes. */
  lemma TraversalResult(g: Graph, m: Links, noFwd: bool, h0: seq<nat>, h: seq<nat>, cand: nat, canon: nat)
    requires LinksOk(g, m, noFwd) && |h0| == |g| == |h| && cand < |g| && canon < |g|
    requires forall c :: 0 <= c < |g| ==> !Filled(h0, c)
    requires NewPairsOk(g, m, noFwd, h0, h) && Related(g, m, h, cand, canon)
    requires !Mapped(m, cand) && Canonical(g, m, noFwd, canon) && g[canon].Struct?
    ensures Pairable(g, m, noFwd, cand, canon) && Hypotheses(g, noFwd, h) && LinkFits(g, noFwd, cand, canon)
  {
    hide LinkFits, Acyclic, PairOk, Closed;
    assert AllPairsOk(g, m, noFwd, h);
    PairsAreHypotheses(g, m, noFwd, h);
    assert Root(m, cand) == cand && Root(m, canon) == canon;
    assert Filled(h, canon);
  }

  lemma SelfMappedStruct(g: Graph, m: Links, m': Links, noFwd: bool, id: nat, c: nat)
    requires LinksOk(g, m, noFwd) && LinksOk(g, m', noFwd) && Stable(g, m, m', noFwd)
    requires Canonical(g, m, noFwd, c) && g[c].Struct? && id < |g| && !Mapped(m, id)
    ensures !Passes(m', c, id) && m'[c] == c
  {
    hide LinkFits, Acyclic, Closed;
    assert StaysPut(g, m, m', noFwd, c);
  }

  lemma {:induction false} SameMembersSameHash(h: nat, a: seq<Member>, b: seq<Member>)
    requires |a| == |b|
    requires forall i :: 0 <= i < |a| ==> a[i].name == b[i].name && a[i].offset == b[i].offset
    ensures HashMembers(h, a) == HashMembers(h, b)
    decreases a
  {
    if a != [] {
      SameMembersSameHash(HashCombine(HashCombine(h, a[0].name), a[0].offset), a[1..], b[1..]);
    }
  }

  /** The signature hash never separates structs the traversal could pair. */
  lemma SameSignature(a: BtfType, b: BtfType)
    requires a.Struct? && ShallowEqualStruct(a, b)
    ensures HashOf(a) == HashOf(b)
  {
    SameMembersSameHash(HashCommon(a), a.members, b.members);
  }

  /** The representative c cannot stand for the struct id. */
  ghost predicate NoMatch(g: Graph, m: Links, noFwd: bool, id: nat, c: nat)
    requires LinksOk(g, m, noFwd) && id < |g| && g[id].Struct?
  {
    c < |g| && (ShallowEqualStruct(g[id], g[c]) ==> !Pairable(g, m, noFwd, id, c))
  }

  /** Having tried the candidates with the right hash is having tried all representatives. */
  lemma TriedAll(g: Graph, m: Links, noFwd: bool, items: Candidates, id: nat, cands: seq<nat>)
    requires LinksOk(g, m, noFwd) && TableFits(g, g, m, noFwd, items) && id < |g| && g[id].Struct?
    requires forall v :: v in cands <==> Entry(HashOf(g[id]), v) in items
    requires forall c :: c in cands ==> NoMatch(g, m, noFwd, id, c)
    ensures forall c :: 0 < c < |g| && m[c] == c ==> NoMatch(g, m, noFwd, id, c)
  {
    hide HashOf, Pairable, Closed, Acyclic, LinkFits, Canonical;
    forall c | 0 < c < |g| && m[c] == c ensures NoMatch(g, m, noFwd, id, c) {
      if ShallowEqualStruct(g[id], g[c]) {
        SameSignature(g[id], g[c]);
        assert c in cands;
      }
    }
  }

  lemma ShallowEqualIsStruct(t: BtfType, cand: BtfType)
    requires t.Struct? && ShallowEqualStruct(t, cand)
    ensures cand.Struct?
  {
  }

  // ----- the reference pass -----

  /** The records may have had references replaced, but only by equivalent ones. */
  ghost predicate Resolving(g: Graph, ts: Graph, noFwd: bool) {
    Closed(g) && Closed(ts) && |ts| == |g| && forall i :: 0 <= i < |g| ==> RecordKept(g, ts[i], noFwd, i)
  }

  ghost predicate RecordKept(g: Graph, t: BtfType, noFwd: bool, i: nat)
    requires Closed(g) && i < |g|
  {
    && Shape(t) == Shape(g[i]) && |Refs(t)| == |Refs(g[i])|
    && forall c :: 0 <= c < |Refs(t)| ==>
         Refs(t)[c] < |g| && LinkFits(g, noFwd, Refs(g[i])[c], Refs(t)[c])
  }

  lemma ResolvingStart(g: Graph, noFwd: bool)
    requires Closed(g)
    ensures Resolving(g, g, noFwd)
  {
    hide LinkFits, Shape, Refs;
    forall i, c | 0 <= i < |g| && 0 <= c < |Refs(g[i])|
      ensures LinkFits(g, noFwd, Refs(g[i])[c], Refs(g[i])[c])
    {
      FitsRefl(g, noFwd, Refs(g[i])[c]);
    }
  }

  lemma ResolvingWrite(g: Graph, ts: Graph, noFwd: bool, i: nat, k: nat, r: nat)
    requires Resolving(g, ts, noFwd) && i < |g| && k < |Refs(ts[i])| && r < |g|
    requires Refs(ts[i])[k] < |g| && LinkFits(g, noFwd, Refs(ts[i])[k], r)
    ensures Resolving(g, ts[i := SetRef(ts[i], k, r)], noFwd)
  {
    hide LinkFits, Shape, Refs, SetRef;
    var t := SetRef(ts[i], k, r);
    SetRefKeepsShape(ts[i], k, r);
    assert RecordKept(g, ts[i], noFwd, i);
    FitsTrans(g, noFwd, Refs(g[i])[k], Refs(ts[i])[k], r);
    assert RecordKept(g, t, noFwd, i);
    var ts' := ts[i := t];
    assert Closed(ts') by {
      if i == 0 { VoidHasNoRefs(ts[0]); }
      forall j, c | 0 <= j < |ts'| && 0 <= c < |Refs(ts'[j])| ensures Refs(ts'[j])[c] < |ts'| {
        assert RecordKept(g, ts'[j], noFwd, j);
      }
    }
  }

  lemma VoidHasNoRefs(t: BtfType)
    requires t.Void?
    ensures Refs(t) == []
  {
  }

  /** Identical records in the rewritten graph come from equivalent types in the original. */
  lemma EqualRecordsFit(g: Graph, ts: Graph, noFwd: bool, i: nat, j: nat)
    requires Resolving(g, ts, noFwd) && i < |g| && j < |g| && ts[i] == ts[j]
    ensures LinkFits(g, noFwd, i, j)
  {
    hide Shape, Refs, Same, Label, Coherent;
    assert RecordKept(g, ts[i], noFwd, i) && RecordKept(g, ts[j], noFwd, j);
    ShapeGivesLabel(g[i], g[j]);
    if Coherent(!noFwd, g) {
      forall c | 0 <= c < |Refs(g[i])| ensures Same(!noFwd, g, Refs(g[i])[c], g, Refs(g[j])[c]) {
        SameSym(!noFwd, g, Refs(g[j])[c], g, Refs(ts[j])[c]);
        SameTrans(!noFwd, g, Refs(g[i])[c], Refs(ts[i])[c], Refs(g[j])[c]);
      }
      SameFolds(!noFwd, g, i, g, j);
    }
  }

  /** The references of a representative are representatives. */
  ghost predicate RefsSettled(ts: Graph, m: Links) {
    |ts| == |m| && forall i, c :: 0 <= i < |m| && m[i] == i && IsRefType(ts[i]) && 0 <= c < |Refs(ts[i])| ==>
      Refs(ts[i])[c] < |m| && m[Refs(ts[i])[c]] == Refs(ts[i])[c]
  }

  ghost function Untouched(m: Links): set<nat> {
    set i | 0 <= i < |m| && !Mapped(m, i) && m[i] != IN_PROGRESS
  }

  /** Entries and records that the recursion leaves alone. */
  ghost predicate Preserved(ts: Graph, m: Links, ts': Graph, m': Links) {
    && |ts| == |m| == |ts'| == |m'|
    && (forall j :: 0 <= j < |m| && (Mapped(m, j) || m[j] == IN_PROGRESS) ==> m'[j] == m[j] && ts'[j] == ts[j])
  }

  lemma {:induction false} RootIsSettled(m: Links, i: nat)
    requires Acyclic(m) && TargetsMapped(m) && i < |m| && Mapped(m, i)
    ensures m[Root(m, i)] == Root(m, i)
    decreases Rank(m)[i]
  {
    if Link(m, i) {
      RootIsSettled(m, m[i]);
    }
  }

  /** Facts about an id whose references are being resolved. */
  lemma MarkInProgress(g: Graph, ts: Graph, m: Links, noFwd: bool, items: Candidates, id: nat)
    requires LinksOk(g, m, noFwd) && TableFits(g, ts, m, noFwd, items) && TargetsMapped(m) && RefsSettled(ts, m)
    requires 0 < id < |g| && !Mapped(m, id)
    ensures var m' := m[id := IN_PROGRESS];
      && LinksOk(g, m', noFwd) && TableFits(g, ts, m', noFwd, items) && TargetsMapped(m') && RefsSettled(ts, m')
      && (m[id] != IN_PROGRESS ==> Untouched(m') < Untouched(m))
  {
    hide LinkFits, Acyclic, Closed, HashOf, IsForward, Refs;
    SetRoot(g, m, noFwd, id, IN_PROGRESS);
    var m' := m[id := IN_PROGRESS];
    forall x | 0 <= x < |m'| && Link(m', x) ensures Mapped(m', m'[x]) {
      assert Link(m, x);
    }
    NotACandidate(g, ts, m, noFwd, items, id);
    assert id !in Untouched(m');
    assert m[id] != IN_PROGRESS ==> id in Untouched(m);
  }

  /** Facts after the reference type id got its representative. */
  lemma RefSettled(ts: Graph, m: Links, id: nat, newId: nat)
    requires TargetsMapped(m) && RefsSettled(ts, m) && id < |m| && !Mapped(m, id) && newId < |m| <= MAX_NR_TYPES + 1
    requires newId != id ==> m[newId] == newId
    requires newId == id && IsRefType(ts[id]) ==>
      forall c :: 0 <= c < |Refs(ts[id])| ==> Refs(ts[id])[c] < |m| && m[Refs(ts[id])[c]] == Refs(ts[id])[c]
    ensures TargetsMapped(m[id := newId]) && RefsSettled(ts, m[id := newId])
  {
    hide Refs;
    var m' := m[id := newId];
    forall x | 0 <= x < |m'| && Link(m', x) ensures Mapped(m', m'[x]) {
      assert x != id ==> Link(m, x);
    }
  }

  lemma RefsWritten(ts: Graph, m: Links, id: nat, t: BtfType)
    requires RefsSettled(ts, m) && id < |m| <= MAX_NR_TYPES + 1 && !Mapped(m, id)
    ensures RefsSettled(ts[id := t], m)
  {
    hide Refs;
  }

  lemma PreservedTrans(ts: Graph, m: Links, ts': Graph, m': Links, ts'': Graph, m'': Links)
    requires Preserved(ts, m, ts', m') && Preserved(ts', m', ts'', m'')
    ensures Preserved(ts, m, ts'', m'') && Untouched(m'') <= Untouched(m')
  {
  }

  /** As `Preserved`, except for the record of the id being resolved. */
  ghost predicate PreservedBut(ts: Graph, m: Links, ts': Graph, m': Links, id: nat) {
    && |ts| == |m| == |ts'| == |m'|
    && (forall j :: 0 <= j < |m| && (Mapped(m, j) || m[j] == IN_PROGRESS) ==>
          m'[j] == m[j] && (j != id ==> ts'[j] == ts[j]))
    && Untouched(m') <= Untouched(m)
  }

  /** The order in which the references of a record are resolved: an array's
      element type comes before its index type. */
  function Visit(isArray: bool, j: nat): nat
    requires isArray ==> j < 2
  {
    if isArray then 1 - j else j
  }

  predicate SelfMapped(m: Links, i: nat) {
    i < |m| && m[i] == i
  }

  ghost predicate VisitedSettled(t: BtfType, m: Links, isArray: bool, j: nat)
    requires j <= |Refs(t)| && (isArray ==> |Refs(t)| == 2)
  {
    forall i :: 0 <= i < j ==> SelfMapped(m, Refs(t)[Visit(isArray, i)])
  }

  lemma AllVisited(t: BtfType, m: Links, isArray: bool)
    requires isArray ==> |Refs(t)| == 2
    requires VisitedSettled(t, m, isArray, |Refs(t)|)
    ensures forall c :: 0 <= c < |Refs(t)| ==> SelfMapped(m, Refs(t)[c])
  {
    forall c | 0 <= c < |Refs(t)| ensures SelfMapped(m, Refs(t)[c]) {
      assert SelfMapped(m, Refs(t)[Visit(isArray, Visit(isArray, c))]);
    }
  }

  /** Self-mapped entries stay so, hence resolved references stay resolved. */
  lemma VisitedKept(ts: Graph, m: Links, ts': Graph, m': Links, isArray: bool, id: nat, j: nat)
    requires Preserved(ts, m, ts', m') && id < |m| <= MAX_NR_TYPES + 1 && m[id] == IN_PROGRESS
    requires j <= |Refs(ts[id])| && (isArray ==> |Refs(ts[id])| == 2) && VisitedSettled(ts[id], m, isArray, j)
    ensures ts'[id] == ts[id] && m'[id] == IN_PROGRESS && VisitedSettled(ts'[id], m', isArray, j)
  {
    hide Refs;
    forall i | 0 <= i < j ensures SelfMapped(m', Refs(ts[id])[Visit(isArray, i)]) {
      assert SelfMapped(m, Refs(ts[id])[Visit(isArray, i)]);
    }
  }

  lemma VisitedGrows(t: BtfType, m: Links, isArray: bool, j: nat, r: nat)
    requires j < |Refs(t)| && (isArray ==> |Refs(t)| == 2) && VisitedSettled(t, m, isArray, j) && SelfMapped(m, r)
    ensures var t' := SetRef(t, Visit(isArray, j), r);
      |Refs(t')| == |Refs(t)| && VisitedSettled(t', m, isArray, j + 1)
  {
    hide Refs, SetRef;
    var t' := SetRef(t, Visit(isArray, j), r);
    forall i | 0 <= i < j + 1 ensures SelfMapped(m, Refs(t')[Visit(isArray, i)]) {
      assert i < j ==> SelfMapped(m, Refs(t)[Visit(isArray, i)]);
    }
  }

  /** A reference of an unmapped id, resolved to r, is written back. */
  lemma RefWritten(g: Graph, ts: Graph, m: Links, noFwd: bool, items: Candidates, id: nat, k: nat, r: nat)
    requires Resolving(g, ts, noFwd) && TableFits(g, ts, m, noFwd, items) && RefsSettled(ts, m)
    requires |g| == |ts| == |m|
    requires id < |g| <= MAX_NR_TYPES + 1 && !Mapped(m, id) && k < |Refs(ts[id])| && r < |g|
    requires Refs(ts[id])[k] < |g| && LinkFits(g, noFwd, Refs(ts[id])[k], r)
    ensures var ts' := ts[id := SetRef(ts[id], k, r)];
      Resolving(g, ts', noFwd) && TableFits(g, ts', m, noFwd, items) && RefsSettled(ts', m)
  {
    hide Refs, SetRef, Resolving, TableFits, RefsSettled, LinkFits;
    ResolvingWrite(g, ts, noFwd, id, k, r);
    TableRewrite(g, ts, m, noFwd, items, id, SetRef(ts[id], k, r));
    RefsWritten(ts, m, id, SetRef(ts[id], k, r));
  }

  lemma ResolvingRange(g: Graph, ts: Graph, noFwd: bool, i: nat)
    requires Resolving(g, ts, noFwd) && i < |g|
    ensures |ts| == |g| && forall c :: 0 <= c < |Refs(ts[i])| ==> Refs(ts[i])[c] < |g|
    ensures IsRefType(ts[i]) <==> IsRefType(g[i])
    ensures ts[i].Array? ==> |Refs(ts[i])| == 2
  {
    assert RecordKept(g, ts[i], noFwd, i);
  }

  lemma PreservedButTrans(ts: Graph, m: Links, ts': Graph, m': Links, ts'': Graph, m'': Links, id: nat, t: BtfType)
    requires PreservedBut(ts, m, ts', m', id) && Preserved(ts', m', ts'', m'') && id < |m|
    requires Untouched(m'') <= Untouched(m')
    ensures PreservedBut(ts, m, ts''[id := t], m'', id)
  {
  }

  /** The candidate picked for a resolved reference type. */
  lemma PickRef(g: Graph, ts: Graph, m: Links, noFwd: bool, id: nat, c: nat)
    requires LinksOk(g, m, noFwd) && Resolving(g, ts, noFwd) && Canonical(g, m, noFwd, c)
    requires id < |g| && !Mapped(m, id) && IsRefType(ts[id]) && ts[id] == ts[c]
    ensures c != id && m[c] == c && LinkFits(g, noFwd, id, c) && !Passes(m, c, id)
  {
    hide Resolving, LinkFits, Closed, Acyclic;
    ResolvingRange(g, ts, noFwd, c);
    EqualRecordsFit(g, ts, noFwd, id, c);
  }

  /** Writing the one entry that was untouched at the start. */
  lemma PreservedAfter(t0: Graph, m0: Links, t1: Graph, m1: Links, id: nat, v: nat)
    requires id < |m0| && !Mapped(m0, id) && m0[id] != IN_PROGRESS
    requires PreservedBut(t0, m0[id := IN_PROGRESS], t1, m1, id) && (v <= MAX_NR_TYPES || v == IN_PROGRESS)
    ensures Preserved(t0, m0, t1, m1[id := v]) && Untouched(m1[id := v]) <= Untouched(m0)
  {
    var m' := m0[id := IN_PROGRESS];
    forall j | 0 <= j < |m0| && (Mapped(m0, j) || m0[j] == IN_PROGRESS) ensures m1[j] == m0[j] && t1[j] == t0[j] {
      assert m'[j] == m0[j];
    }
    assert Untouched(m') <= Untouched(m0);
    assert Untouched(m1[id := v]) <= Untouched(m1);
  }

  lemma StartVisit(ts: Graph, m: Links, id: nat)
    requires |ts| == |m| && id < |m| && (ts[id].Array? ==> |Refs(ts[id])| == 2)
    ensures VisitedSettled(ts[id], m, ts[id].Array?, 0) && PreservedBut(ts, m, ts, m, id)
  {
  }

  lemma SetRefKind(t: BtfType, k: nat, r: nat)
    requires k < |Refs(t)|
    ensures IsRefType(SetRef(t, k, r)) <==> IsRefType(t)
  {
  }

  lemma ArrayArity(t: BtfType)
    ensures t.Array? ==> |Refs(t)| == 2
  {
  }
}
