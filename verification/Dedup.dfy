/** BTF type deduplication: the canonical map, the hypothetical map and the type
    records are rewritten in place by the passes. */
module Dedup {
  import opened BtfGraph
  import opened CanonMap
  import opened DedupTheory
  import opened HashMaps
  import opened DedupCompact
  import opened DedupErrors

  datatype Error = InvalidInput | Loop

  datatype Result<+T> = Ok(value: T) | Err(error: Error)

  /** Void, variables and data sections are their own representatives from the start. */
  predicate InitiallyMapped(g: Graph, i: nat)
    requires i < |g|
  {
    i == 0 || g[i].Var? || g[i].DataSec?
  }

  class BtfDedup {
    const noFwd: bool
    const types: array<BtfType>
    var nrTypes: nat
    const map_: array<nat>
    const hypotMap: array<nat>
    var hypotList: seq<nat>
    const table: HashMap<nat, nat>
    /** The type graph as it was before the passes started. */
    ghost const g: Graph

    constructor (input: Graph, dontResolveFwds: bool)
      requires Closed(input) && |input| <= MAX_NR_TYPES + 1
      ensures fresh(types) && fresh(map_) && fresh(hypotMap) && fresh(table)
      ensures g == input && noFwd == dontResolveFwds && types[..] == g
      ensures Linked() && table.Valid() && table.Items() == multiset{}
      ensures forall i :: 0 <= i < |g| ==> map_[i] == if InitiallyMapped(g, i) then i else UNPROCESSED
      ensures forall i :: 0 <= i < |g| ==> hypotMap[i] == UNPROCESSED
      ensures hypotList == [] && Initial()
    {
      noFwd, g := dontResolveFwds, input;
      types := new BtfType[|input|](i requires 0 <= i < |input| => input[i]);
      map_ := new nat[|input|](i requires 0 <= i < |input| => if InitiallyMapped(input, i) then i else UNPROCESSED);
      hypotMap := new nat[|input|](_ => UNPROCESSED);
      nrTypes := |input| - 1;
      hypotList := [];
      table := new HashMap<nat, nat>(h => h);
      new;
      hide TableFits, LinksOk, HashMap.Items, HashMap.Valid, Closed, HypOk, InitiallyMapped;
      StartLinks(g, map_[..], noFwd);
      StartHyp(g, hypotMap[..]);
      assert types[..] == g;
    }

    ghost predicate Fixed() {
      && types.Length == map_.Length == hypotMap.Length == |g|
      && map_ != hypotMap
      && |g| > 0 && Closed(g)
    }

    ghost predicate Linked()
      reads map_
    {
      Fixed() && LinksOk(g, map_[..], noFwd)
    }

    ghost predicate TableOk()
      reads types, map_, table
    {
      table.Valid() && TableFits(g, types[..], map_[..], noFwd, table.Items())
    }

    ghost predicate Ready()
      reads types, map_, table
    {
      Linked() && types[..] == g && TableOk()
    }

    method ResolveTypeId(id: nat) returns (r: nat)
      requires Linked() && id < |g|
      ensures Linked() && r == Root(map_[..], id)
    {
      hide Closed, LinkFits;
      ghost var m := map_[..];
      r := id;
      while map_[r] <= MAX_NR_TYPES && map_[r] != r
        invariant r < |g| && Acyclic(m) && Root(m, r) == Root(m, id)
        decreases Rank(m)[r]
      {
        r := map_[r];
      }
    }

    method ResolveFwdId(id: nat) returns (r: nat)
      requires Linked() && types[..] == g && id < |g|
      ensures Linked() && r == FwdId(g, map_[..], id)
    {
      hide Closed, LinkFits, Acyclic;
      if !types[id].Fwd? {
        return id;
      }
      r := ResolveTypeId(id);
      if types[r].Fwd? {
        r := id;
      }
    }

    method HypotMapAdd(from: nat, to: nat)
      requires Fixed() && HypOk(g, hypotMap[..], hypotList) && from < |g| && to < |g|
      requires |g| <= MAX_NR_TYPES + 1 && !Filled(hypotMap[..], from)
      modifies hypotMap, this`hypotList
      ensures hypotMap[..] == old(hypotMap[..])[from := to]
      ensures HypOk(g, hypotMap[..], hypotList)
      ensures Extends(old(hypotMap[..]), hypotMap[..])
      ensures Free(hypotMap[..]) < Free(old(hypotMap[..]))
    {
      hide Closed;
      hypotList := hypotList + [from];
      hypotMap[from] := to;
      assert from in Free(old(hypotMap[..]));
      assert from !in Free(hypotMap[..]);
    }

    /** Side-by-side traversal of the candidate and the canonical graph. */
    method IsEquiv(cand: nat, canon0: nat) returns (v: Verdict)
      requires Linked() && types[..] == g && cand < |g| && canon0 < |g|
      requires HypOk(g, hypotMap[..], hypotList)
      modifies hypotMap, this`hypotList
      decreases Free(hypotMap[..]), 0
      ensures Linked() && map_[..] == old(map_[..])
      ensures HypOk(g, hypotMap[..], hypotList)
      ensures Extends(old(hypotMap[..]), hypotMap[..])
      ensures v == Equivalent ==> Related(g, map_[..], hypotMap[..], cand, canon0)
      ensures v == Equivalent ==> NewPairsOk(g, map_[..], noFwd, old(hypotMap[..]), hypotMap[..])
      ensures forall a :: Witness(g, map_[..], noFwd, old(hypotMap[..]), a, cand, canon0) ==>
                v == Equivalent && Extends(hypotMap[..], a)
      ensures Tame(g) && Traversable(g[cand]) ==> v != Invalid
    {
      hide Closed, LinkFits, Acyclic, PairOk, Compare, Refs, Witness, Tame, Traversable;
      ghost var m := map_[..];
      ghost var h0 := hypotMap[..];
      var rcand := ResolveTypeId(cand);
      var rcanon := ResolveTypeId(canon0);
      if rcand == rcanon {
        WitnessExtends(g, m, noFwd, h0, cand, canon0);
        return Equivalent;
      }
      var canon := ResolveFwdId(canon0);
      forall a | Witness(g, m, noFwd, h0, a, cand, canon0)
        ensures |a| == |g| && a[canon] == cand && Extends(h0, a) && (!Filled(h0, canon) ==>
          && Extends(h0[canon := cand], a) && NewPairsOk(g, m, noFwd, h0[canon := cand], a)
          && PairOk(g, m, noFwd, a, canon))
      {
        WitnessExtends(g, m, noFwd, h0, cand, canon0);
        WitnessDescends(g, m, noFwd, h0, a, cand, canon0);
      }
      if hypotMap[canon] <= MAX_NR_TYPES {
        return if hypotMap[canon] == cand then Equivalent else Different;
      }
      HypotMapAdd(canon, cand);
      ghost var h1 := hypotMap[..];
      var candType, canonType := types[cand], types[canon];
      var step := Compare(noFwd, candType, canonType);
      TameStep(g, m, noFwd, cand, canon0);
      if step.Stop? {
        v := step.verdict;
        forall a | Witness(g, m, noFwd, h0, a, cand, canon0) ensures v == Equivalent {
          LeafVerdict(g, m, noFwd, a, canon);
        }
        if v == Equivalent {
          LeafPair(g, m, noFwd, h0, h1, canon);
        }
        return;
      }
      CompareMeaning(noFwd, candType, canonType);
      SameShapeSameArity(candType, canonType);
      var ra, rb := Refs(candType), Refs(canonType);
      RefsInRange(g, cand);
      RefsInRange(g, canon);
      forall a | Witness(g, m, noFwd, h0, a, cand, canon0) ensures WitnessAll(g, m, noFwd, h1, a, ra, rb) {
        WitnessRefs(g, m, noFwd, h1, a, canon);
      }
      v := IsEquivRefs(cand, canon, ra, rb);
      if v == Equivalent {
        InnerPair(g, m, noFwd, h0, h1, hypotMap[..], canon);
      }
    }

    /** The member, parameter and referenced-type loops of the traversal. */
    method IsEquivRefs(cand: nat, canon: nat, ra: seq<nat>, rb: seq<nat>) returns (v: Verdict)
      requires Linked() && types[..] == g && cand < |g| && canon < |g|
      requires ra == Refs(g[cand]) && rb == Refs(g[canon]) && |ra| == |rb|
      requires forall j :: 0 <= j < |ra| ==> ra[j] < |g| && rb[j] < |g|
      requires HypOk(g, hypotMap[..], hypotList)
      modifies hypotMap, this`hypotList
      decreases Free(hypotMap[..]), 1
      ensures Linked() && map_[..] == old(map_[..])
      ensures HypOk(g, hypotMap[..], hypotList)
      ensures Extends(old(hypotMap[..]), hypotMap[..])
      ensures v == Equivalent ==> forall j :: 0 <= j < |ra| ==> Related(g, map_[..], hypotMap[..], ra[j], rb[j])
      ensures v == Equivalent ==> NewPairsOk(g, map_[..], noFwd, old(hypotMap[..]), hypotMap[..])
      ensures forall a :: WitnessAll(g, map_[..], noFwd, old(hypotMap[..]), a, ra, rb) ==>
                v == Equivalent && Extends(hypotMap[..], a)
      ensures Tame(g) && (forall j :: 0 <= j < |ra| ==> Traversable(g[ra[j]])) ==> v != Invalid
    {
      hide Closed, LinkFits, Acyclic, PairOk, Refs, Witness, Root, Related, Filled, Tame, Traversable;
      ghost var m := map_[..];
      ghost var h0 := hypotMap[..];
      var i := 0;
      while i < |ra|
        invariant 0 <= i <= |ra| && Linked() && map_[..] == m
        invariant HypOk(g, hypotMap[..], hypotList) && Extends(h0, hypotMap[..])
        invariant NewPairsOk(g, m, noFwd, h0, hypotMap[..])
        invariant forall j :: 0 <= j < i ==> Related(g, m, hypotMap[..], ra[j], rb[j])
        invariant Free(hypotMap[..]) <= Free(h0)
        invariant forall a :: WitnessAll(g, m, noFwd, h0, a, ra, rb) ==> Extends(hypotMap[..], a)
      {
        ghost var hi := hypotMap[..];
        v := IsEquiv(ra[i], rb[i]);
        forall a | WitnessAll(g, m, noFwd, h0, a, ra, rb) ensures v == Equivalent && Extends(hypotMap[..], a) {
          WitnessChild(g, m, noFwd, h0, hi, a, ra, rb, i);
        }
        ComposeChild(g, m, noFwd, h0, hi, hypotMap[..], ra, rb, i);
        if v != Equivalent {
          return;
        }
        i := i + 1;
      }
      v := Equivalent;
    }

    method ClearHypotMap()
      requires Fixed() && HypOk(g, hypotMap[..], hypotList)
      modifies hypotMap, this`hypotList
      ensures HypOk(g, hypotMap[..], hypotList)
      ensures forall c :: 0 <= c < |g| ==> !Filled(hypotMap[..], c)
    {
      hide Closed;
      ghost var list := hypotList;
      var i := 0;
      while i < |hypotList|
        invariant 0 <= i <= |hypotList| && hypotList == list
        invariant forall c :: 0 <= c < |g| && Filled(hypotMap[..], c) ==> c in list[i..]
      {
        assert list[i] in list;
        assert list[i..] == [list[i]] + list[i + 1..];
        ghost var h := hypotMap[..];
        hypotMap[hypotList[i]] := UNPROCESSED;
        forall c | 0 <= c < |g| && Filled(hypotMap[..], c) ensures c in list[i + 1..] {
          assert c != list[i] && Filled(h, c);
        }
        i := i + 1;
      }
      hypotList := [];
    }

    /** Turns the hypothetical pairs into permanent links where that is safe. */
    method MergeHypotMap()
      requires Linked() && types[..] == g && Hypotheses(g, noFwd, hypotMap[..])
      requires HypOk(g, hypotMap[..], hypotList)
      modifies map_
      ensures Linked() && Stable(g, old(map_[..]), map_[..], noFwd) && NoNewRoots(old(map_[..]), map_[..])
      ensures hypotMap[..] == old(hypotMap[..])
      ensures forall x :: 0 <= x < |g| && !g[x].Fwd? && !g[x].Struct? ==> map_[x] == old(map_[x])
    {
      hide Closed, LinkFits, Acyclic, Root, IsForward;
      ghost var h := hypotMap[..];
      ghost var m0 := map_[..];
      var i := 0;
      while i < |hypotList|
        invariant 0 <= i <= |hypotList|
        invariant Linked() && Stable(g, m0, map_[..], noFwd) && NoNewRoots(m0, map_[..])
        invariant hypotMap[..] == h
        invariant forall x :: 0 <= x < |g| && !g[x].Fwd? && !g[x].Struct? ==> map_[x] == m0[x]
      {
        var candId := hypotList[i];
        assert candId in hypotList && Filled(h, candId);
        var targId := hypotMap[candId];
        ghost var mi := map_[..];
        MergeOne(targId, candId);
        StableTrans(g, m0, mi, map_[..], noFwd);
        i := i + 1;
      }
    }

    method MergeOne(targId: nat, candId: nat)
      requires Linked() && types[..] == g && targId < |g| && candId < |g| && LinkFits(g, noFwd, targId, candId)
      modifies map_
      ensures Linked() && Stable(g, old(map_[..]), map_[..], noFwd) && NoNewRoots(old(map_[..]), map_[..])
      ensures var m := old(map_[..]);
        && map_[..] == MergedRoots(g, m, Root(m, targId), Root(m, candId))
        && (ShouldJoin(g, m, Root(m, targId), Root(m, candId)) ==> Root(map_[..], targId) == Root(map_[..], candId))
      ensures forall x :: 0 <= x < |g| && !g[x].Fwd? && !g[x].Struct? ==> map_[x] == old(map_[x])
    {
      hide Closed, LinkFits, Acyclic, Root;
      ghost var m := map_[..];
      var tId := ResolveTypeId(targId);
      var cId := ResolveTypeId(candId);
      RootsFit(g, m, noFwd, targId, candId);
      var t, c := types[tId], types[cId];
      if !t.Fwd? && c.Fwd? {
        JoinRoots(g, m, noFwd, cId, tId);
        map_[cId] := tId;
        assert map_[..] == m[cId := tId];
      } else if t.Fwd? && !c.Fwd? {
        JoinRoots(g, m, noFwd, tId, cId);
        map_[tId] := cId;
        assert map_[..] == m[tId := cId];
      }
      if t.Struct? && !c.Fwd? && map_[cId] <= MAX_NR_TYPES && map_[tId] > MAX_NR_TYPES {
        JoinRoots(g, m, noFwd, tId, cId);
        map_[tId] := cId;
        assert map_[..] == m[tId := cId];
      }
    }

    /** Records the representative found for id; a new representative becomes a candidate. */
    method Settle(id: nat, newId: nat, h: nat)
      requires Linked() && TableOk() && 0 < id < |g| && newId < |g| && h == HashOf(types[id])
      requires forall e :: e in table.Items() ==> e.value != id
      requires newId != id ==> LinkFits(g, noFwd, id, newId) && !Passes(map_[..], newId, id)
      requires newId == id ==> Unmatched(types[..], table.Items(), id)
      modifies map_, table
      ensures Linked() && TableOk() && map_[..] == old(map_[..])[id := newId]
    {
      hide Closed, LinkFits, Acyclic, IsForward, Passes, HashMap.Items, HashMap.Valid, TableFits, HashOf, Unmatched;
      ghost var m := map_[..];
      TableSettled(g, types[..], m, noFwd, table.Items(), id, newId);
      if newId == id {
        SetRoot(g, m, noFwd, id, newId);
      } else {
        AddLink(g, m, noFwd, id, newId);
      }
      map_[id] := newId;
      assert map_[..] == m[id := newId];
      if newId == id {
        var _, _ := table.Insert(h, id, Append);
      }
    }

    // ----- primitive types -----

    method PrimTypes() returns (r: Result<()>)
      requires Ready() && TargetsMapped(map_[..])
      requires forall x :: 0 <= x < |g| && IsPrim(g[x]) ==> !Mapped(map_[..], x)
      modifies map_, table
      ensures Ready() && Stable(g, old(map_[..]), map_[..], noFwd)
      ensures forall x :: 0 <= x < |g| && !IsPrim(g[x]) ==> map_[x] == old(map_[x])
      ensures r.Ok? ==> forall i :: 0 < i < |g| ==> g[i] != Void && (IsPrim(g[i]) ==> Mapped(map_[..], i))
      ensures r.Ok? ==> TargetsMapped(map_[..])
      ensures r.Err? ==> !OneVoid(g)
    {
      hide Closed, LinkFits, Acyclic, IsForward, StaysPut, TableFits, HashMap.Items, HashMap.Valid, TargetsMapped;
      ghost var m0 := map_[..];
      StableRefl(g, m0, noFwd);
      var i := 1;
      while i < types.Length
        invariant 1 <= i <= |g| && Ready() && Stable(g, m0, map_[..], noFwd)
        invariant TargetsMapped(map_[..])
        invariant forall j :: i <= j < |g| && IsPrim(g[j]) ==> !Mapped(map_[..], j)
        invariant forall j :: 0 <= j < |g| && !IsPrim(g[j]) ==> map_[j] == m0[j]
        invariant forall j :: 0 < j < i ==> g[j] != Void && (IsPrim(g[j]) ==> Mapped(map_[..], j))
      {
        ghost var mi := map_[..];
        r := PrimType(i);
        StableTrans(g, m0, mi, map_[..], noFwd);
        StableKeepsMapped(g, mi, map_[..], noFwd);
        if r.Err? {
          return;
        }
        i := i + 1;
      }
      r := Ok(());
    }

    method PrimType(id: nat) returns (r: Result<()>)
      requires Ready() && 0 < id < |g| && TargetsMapped(map_[..])
      requires IsPrim(g[id]) ==> !Mapped(map_[..], id)
      modifies map_, table
      ensures Ready() && Stable(g, old(map_[..]), map_[..], noFwd) && TargetsMapped(map_[..])
      ensures forall x :: 0 <= x < |g| && x != id && !Mapped(old(map_[..]), x) ==> map_[x] == old(map_[x])
      ensures forall x :: 0 <= x < |g| && !IsPrim(g[x]) ==> map_[x] == old(map_[x])
      ensures r.Ok? <==> g[id] != Void
      ensures r.Ok? && IsPrim(g[id]) ==> Mapped(map_[..], id)
    {
      hide Closed, LinkFits, Acyclic, IsForward, StaysPut, EqualPrim, HashOf, HashMap.Items, HashMap.Valid, Canonical;
      hide Passes, Stable, TableFits, Unmatched, LinksOk, TargetsMapped, TargetsMappedBut;
      ghost var m0 := map_[..];
      LinksOkParts(g, m0, noFwd);
      StableRefl(g, m0, noFwd);
      var t := types[id];
      if t.Void? {
        return Err(InvalidInput);
      }
      if !IsPrim(t) {
        return Ok(());
      }
      var h := HashOf(t);
      var cands := table.KeyEntries(h);
      NotACandidate(g, g, m0, noFwd, table.Items(), id);
      CandidatesCanonical(g, g, m0, noFwd, table.Items(), h, cands);
      var newId := FindPrim(id, cands);
      ghost var m1 := map_[..];
      if newId == id {
        UnmatchedBy(g, table.Items(), id, cands);
      }
      Settle(id, newId, h);
      SettledTarget(m1, id, newId);
      StableWrite(g, m0, m1, noFwd, id, newId);
      r := Ok(());
    }

    /** Looks for a representative; a full enum also takes over matching enum forwards. */
    method FindPrim(id: nat, cands: seq<nat>) returns (newId: nat)
      requires Ready() && 0 < id < |g| && IsPrim(g[id]) && !Mapped(map_[..], id)
      requires TargetsMapped(map_[..])
      requires forall c :: c in cands ==> Canonical(g, map_[..], noFwd, c)
      modifies map_
      ensures Ready() && Stable(g, old(map_[..]), map_[..], noFwd) && !Mapped(map_[..], id)
      ensures TargetsMappedBut(map_[..], id)
      ensures forall x :: 0 <= x < |g| && !Mapped(old(map_[..]), x) ==> map_[x] == old(map_[x])
      ensures forall x :: 0 <= x < |g| && !IsPrim(g[x]) ==> map_[x] == old(map_[x])
      ensures newId < |g| && (newId != id ==> Mapped(map_[..], newId))
      ensures newId != id ==> LinkFits(g, noFwd, id, newId) && !Passes(map_[..], newId, id)
      ensures newId == id ==> forall c :: c in cands ==> c < |g| && g[c] != g[id]
    {
      hide Closed, LinkFits, Acyclic, LinksOk, StaysPut, Stable, EqualPrim, CompatEnum, Canonical;
      hide TargetsMapped, TargetsMappedBut, Passes, HashMap.Items, HashMap.Valid, IsEnumFwd, TableFits, NoNewRoots;
      LinksOkParts(g, map_[..], noFwd);
      TargetsBut(map_[..], id);
      ghost var m0 := map_[..];
      StableRefl(g, m0, noFwd);
      newId := id;
      var t := types[id];
      var i := 0;
      while i < |cands|
        invariant 0 <= i <= |cands| && Ready() && Stable(g, m0, map_[..], noFwd) && !Mapped(map_[..], id)
        invariant forall c :: c in cands ==> Canonical(g, map_[..], noFwd, c)
        invariant TargetsMappedBut(map_[..], id)
        invariant IsForward(g[id]) ==> TargetsMapped(map_[..])
        invariant forall x :: 0 <= x < |g| && (!Mapped(m0, x) || !IsPrim(g[x])) ==> map_[x] == m0[x]
        invariant forall j :: 0 <= j < i ==> cands[j] < |g| && g[cands[j]] != t
      {
        var candId := cands[i];
        ghost var m := map_[..];
        CanonicalMapped(g, m, noFwd, candId);
        var cand := types[candId];
        EqualPrimMeaning(t, cand);
        if EqualPrim(t, cand) {
          PickEqual(g, m, noFwd, id, candId);
          return candId;
        }
        if t.Enum? && !noFwd && CompatEnum(t, cand) {
          if IsEnumFwd(t) {
            PickFullEnum(g, m, noFwd, id, candId);
            return candId;
          }
          TakeOver(g, m, noFwd, id, candId);
          map_[candId] := id;
          assert map_[..] == m[candId := id];
          StableTrans(g, m0, m, map_[..], noFwd);
          CanonicalsStay(g, m, map_[..], noFwd);
          TableKept(g, g, m, map_[..], noFwd, table.Items());
        }
        i := i + 1;
      }
    }

    // ----- structs and unions -----

    method StructTypes() returns (r: Result<()>)
      requires Ready() && HypOk(g, hypotMap[..], hypotList)
      modifies map_, hypotMap, this`hypotList, table
      ensures Ready() && HypOk(g, hypotMap[..], hypotList) && Stable(g, old(map_[..]), map_[..], noFwd)
      ensures forall x :: 0 <= x < |g| && !g[x].Fwd? && !g[x].Struct? ==> map_[x] == old(map_[x])
      ensures r.Ok? ==> forall i :: 0 < i < |g| && g[i].Struct? ==> Mapped(map_[..], i)
      ensures r.Err? ==> !Tame(g)
    {
      hide Tame, Closed, LinkFits, Acyclic, IsForward, StaysPut, TableFits, HashMap.Items, HashMap.Valid, HypOk;
      ghost var m0 := map_[..];
      StableRefl(g, m0, noFwd);
      var i := 1;
      while i < types.Length
        invariant 1 <= i <= |g| && Ready() && HypOk(g, hypotMap[..], hypotList) && Stable(g, m0, map_[..], noFwd)
        invariant forall x :: 0 <= x < |g| && !g[x].Fwd? && !g[x].Struct? ==> map_[x] == m0[x]
        invariant forall j :: 0 < j < i && g[j].Struct? ==> Mapped(map_[..], j)
      {
        ghost var mi := map_[..];
        r := StructType(i);
        StableTrans(g, m0, mi, map_[..], noFwd);
        StableKeepsMapped(g, mi, map_[..], noFwd);
        if r.Err? {
          return;
        }
        i := i + 1;
      }
      r := Ok(());
    }

    /** An unmapped struct joins a candidate it can be paired with, and becomes a
        representative of its own only if there is none. */
    method StructType(id: nat) returns (r: Result<()>)
      requires Ready() && HypOk(g, hypotMap[..], hypotList) && 0 < id < |g|
      modifies map_, hypotMap, this`hypotList, table
      ensures Ready() && HypOk(g, hypotMap[..], hypotList) && Stable(g, old(map_[..]), map_[..], noFwd)
      ensures forall x :: 0 <= x < |g| && !g[x].Fwd? && !g[x].Struct? ==> map_[x] == old(map_[x])
      ensures r.Ok? && g[id].Struct? ==> Mapped(map_[..], id)
      ensures r.Ok? && g[id].Struct? && !Mapped(old(map_[..]), id) ==>
        && map_[id] < |g|
        && (map_[id] != id ==> Pairable(g, old(map_[..]), noFwd, id, map_[id]))
        && (map_[id] != id ==> Canonical(g, old(map_[..]), noFwd, map_[id]) && ShallowEqualStruct(g[id], g[map_[id]]))
        && (map_[id] == id ==> map_[..] == old(map_[..])[id := id])
        && (map_[id] == id ==> forall c :: 0 < c < |g| && old(map_[c]) == c ==> NoMatch(g, old(map_[..]), noFwd, id, c))
      ensures !g[id].Struct? || Mapped(old(map_[..]), id) ==> r.Ok? && map_[..] == old(map_[..])
      ensures r.Err? ==> !Tame(g)
    {
      hide Tame, Closed, LinkFits, Acyclic, IsForward, StaysPut, HashOf, HashMap.Items, HashMap.Valid, Canonical, HypOk;
      hide Passes, Stable, TableFits, Unmatched, Pairable, NoMatch;
      ghost var m0 := map_[..];
      StableRefl(g, m0, noFwd);
      if map_[id] <= MAX_NR_TYPES {
        return Ok(());
      }
      var t := types[id];
      if !t.Struct? {
        return Ok(());
      }
      var h := HashOf(t);
      var cands := table.KeyEntries(h);
      NotACandidate(g, g, m0, noFwd, table.Items(), id);
      CandidatesCanonical(g, g, m0, noFwd, table.Items(), h, cands);
      var found := FindStruct(id, cands);
      if found.Err? {
        return Err(found.error);
      }
      var newId := found.value;
      ghost var m1 := map_[..];
      UnmatchedStruct(g, table.Items(), id);
      if newId == id {
        TriedAll(g, m0, noFwd, table.Items(), id, cands);
      }
      Settle(id, newId, h);
      StableWrite(g, m0, m1, noFwd, id, newId);
      r := Ok(());
    }

    method FindStruct(id: nat, cands: seq<nat>) returns (r: Result<nat>)
      requires Ready() && HypOk(g, hypotMap[..], hypotList) && 0 < id < |g| && g[id].Struct? && !Mapped(map_[..], id)
      requires forall c :: c in cands ==> Canonical(g, map_[..], noFwd, c)
      modifies map_, hypotMap, this`hypotList
      ensures Ready() && HypOk(g, hypotMap[..], hypotList) && Stable(g, old(map_[..]), map_[..], noFwd)
      ensures forall x :: 0 <= x < |g| && !g[x].Fwd? && !g[x].Struct? ==> map_[x] == old(map_[x])
      ensures r.Ok? ==> r.value < |g|
      ensures r.Ok? && r.value != id ==> r.value in cands && Pairable(g, old(map_[..]), noFwd, id, r.value)
      ensures r.Ok? && r.value != id ==> LinkFits(g, noFwd, id, r.value) && !Passes(map_[..], r.value, id)
      ensures r.Ok? && r.value != id ==> ShallowEqualStruct(g[id], g[r.value])
      ensures r.Ok? && r.value == id ==> map_[..] == old(map_[..])
      ensures r.Ok? && r.value == id ==> forall c :: c in cands ==> NoMatch(g, old(map_[..]), noFwd, id, c)
      ensures r.Err? ==> !Tame(g)
    {
      hide Tame, Closed, LinkFits, Acyclic, LinksOk, StaysPut, Stable, Canonical, HypOk, Passes, Pairable, Witness;
      hide Related;
      hide HashMap.Items, HashMap.Valid, TableFits, NoNewRoots, ShallowEqualStruct, Hypotheses, NewPairsOk, Extends;
      hide Filled;
      ghost var m0 := map_[..];
      LinksOkParts(g, m0, noFwd);
      StableRefl(g, m0, noFwd);
      var t := types[id];
      var i := 0;
      while i < |cands|
        invariant 0 <= i <= |cands| && Ready() && HypOk(g, hypotMap[..], hypotList) && map_[..] == m0
        invariant forall j :: 0 <= j < i ==> NoMatch(g, m0, noFwd, id, cands[j])
      {
        var candId := cands[i];
        CanonicalMapped(g, m0, noFwd, candId);
        if ShallowEqualStruct(t, types[candId]) {
          ShallowEqualIsStruct(t, types[candId]);
          ClearHypotMap();
          ghost var h0 := hypotMap[..];
          var v := IsEquiv(id, candId);
          PairableByWitness(g, m0, noFwd, h0, id, candId);
          if v == Invalid {
            return Err(InvalidInput);
          }
          if v == Equivalent {
            TraversalResult(g, m0, noFwd, h0, hypotMap[..], id, candId);
            MergeHypotMap();
            TableKept(g, g, m0, map_[..], noFwd, table.Items());
            SelfMappedStruct(g, m0, map_[..], noFwd, id, candId);
            return Ok(candId);
          }
        }
        i := i + 1;
      }
      r := Ok(id);
    }

    // ----- reference types -----

    ghost predicate Resolved()
      reads types, map_, table
    {
      && Linked() && Resolving(g, types[..], noFwd) && TableOk()
      && TargetsMapped(map_[..]) && RefsSettled(types[..], map_[..])
    }

    /** Fails on a loop of reference types, and on nothing else. */
    method RefTypes(ghost rank: seq<nat>, ghost loop: set<nat>) returns (r: Result<()>)
      requires Resolved() && Pending(g, types[..], map_[..]) && forall j :: 0 <= j < |g| ==> map_[j] != IN_PROGRESS
      requires IsLoop(g, loop) ==> NoneMapped(map_[..], loop)
      modifies types, map_, table
      ensures Resolved() && Preserved(old(types[..]), old(map_[..]), types[..], map_[..])
      ensures r.Ok? ==> forall i :: 0 <= i < |g| ==> Mapped(map_[..], i)
      ensures r.Err? ==> !Ranking(g, rank)
      ensures r.Ok? && IsLoop(g, loop) ==> loop == {}
    {
      hide Pending, Ranking, IsLoop, Closed, LinkFits, Acyclic, Resolving, TargetsMapped, RefsSettled, TableFits;
      hide HashMap.Items, HashMap.Valid;
      ghost var t0, m0 := types[..], map_[..];
      var i := 1;
      while i < types.Length
        invariant 1 <= i <= |g| && Resolved() && Preserved(t0, m0, types[..], map_[..])
        invariant forall j :: 0 <= j < i ==> Mapped(map_[..], j)
        invariant Pending(g, types[..], map_[..]) && forall j :: 0 <= j < |g| ==> map_[j] != IN_PROGRESS
        invariant IsLoop(g, loop) ==> NoneMapped(map_[..], loop)
      {
        ghost var ti, mi := types[..], map_[..];
        ChartIdle(g, mi, rank, loop, RankOf(rank, i) + 1);
        var one := RefType(i, rank, loop);
        PreservedTrans(t0, m0, ti, mi, types[..], map_[..]);
        if one.Err? {
          return Err(one.error);
        }
        i := i + 1;
      }
      r := Ok(());
    }

    /** Resolves what id refers to, recursively, and then id itself. */
    method RefType(id: nat, ghost rank: seq<nat>, ghost loop: set<nat>) returns (r: Result<nat>)
      requires Resolved() && id < |g| && Pending(g, types[..], map_[..])
      requires Chart(g, map_[..], rank, loop, RankOf(rank, id) + 1)
      modifies types, map_, table
      decreases Untouched(map_[..]), 0
      ensures Resolved() && Preserved(old(types[..]), old(map_[..]), types[..], map_[..])
      ensures Untouched(map_[..]) <= Untouched(old(map_[..]))
      ensures r.Ok? ==> r.value < |g| && map_[r.value] == r.value && LinkFits(g, noFwd, id, r.value)
      ensures r.Ok? ==> Mapped(map_[..], id) && Root(map_[..], id) == r.value
      ensures r.Err? ==> !Ranking(g, rank)
      ensures r.Ok? ==> Finished(g, types[..], old(map_[..]), map_[..], loop, {id})
    {
      hide Pending, Ranking, IsLoop, Chart, Finished, Closed, LinkFits, Acyclic, Resolving, TargetsMapped, RefsSettled;
      hide TableFits, HashMap.Items, HashMap.Valid;
      hide HashOf, Unmatched, Refs, Passes, IsForward;
      ghost var t0, m0 := types[..], map_[..];
      NotInProgress(g, m0, rank, loop, id);
      if map_[id] == IN_PROGRESS {
        return Err(Loop);
      }
      if map_[id] <= MAX_NR_TYPES {
        var root := ResolveTypeId(id);
        RootIsSettled(m0, id);
        RootFits(g, m0, noFwd, id);
        DoneAlready(g, t0, m0, rank, loop, id, RankOf(rank, id) + 1);
        return Ok(root);
      }
      ChartStart(g, t0, m0, rank, loop, id);
      MarkInProgress(g, t0, m0, noFwd, table.Items(), id);
      map_[id] := IN_PROGRESS;
      assert map_[..] == m0[id := IN_PROGRESS];
      PreservedAfter(t0, m0, t0, map_[..], id, IN_PROGRESS);
      if !IsRefType(types[id]) {
        return Err(InvalidInput);
      }
      var children := RefChildren(id, rank, loop);
      PreservedAfter(t0, m0, types[..], map_[..], id, IN_PROGRESS);
      assert map_[..] == map_[..][id := IN_PROGRESS];
      if children.Err? {
        return Err(children.error);
      }
      ghost var m2 := map_[..];
      var newId := FinishRef(id);
      DoneType(g, types[..], m0, m2, loop, id, newId, {});
      PreservedAfter(t0, m0, types[..], m2, id, newId);
      r := Ok(newId);
    }

    method RefChildren(id: nat, ghost rank: seq<nat>, ghost loop: set<nat>) returns (r: Result<()>)
      requires Resolved() && 0 < id < |g| && map_[id] == IN_PROGRESS && IsRefType(types[id])
      requires types[id] == g[id] && Pending(g, types[..], map_[..]) && Chart(g, map_[..], rank, loop, RankOf(rank, id))
      modifies types, map_, table
      decreases Untouched(map_[..]), 1
      ensures Resolved() && map_[id] == IN_PROGRESS && IsRefType(types[id])
      ensures PreservedBut(old(types[..]), old(map_[..]), types[..], map_[..], id)
      ensures r.Ok? ==> forall c :: 0 <= c < |Refs(types[id])| ==> SelfMapped(map_[..], Refs(types[id])[c])
      ensures r.Err? ==> !Ranking(g, rank)
      ensures r.Ok? ==> Finished(g, types[..], old(map_[..]), map_[..], loop, {}) && (IsLoop(g, loop) ==> id !in loop)
    {
      hide Pending, Ranking, IsLoop, Chart, Finished, Unvisited, VisitedIds, Closed, LinkFits, Acyclic, Resolving;
      hide TargetsMapped, RefsSettled, TableFits, HashMap.Items, HashMap.Valid;
      hide Refs, SetRef, VisitedSettled, Root, Preserved, PreservedBut, Untouched;
      ghost var t0, m0 := types[..], map_[..];
      ResolvingRange(g, t0, noFwd, id);
      StartVisit(t0, m0, id);
      var isArray := types[id].Array?;
      var n := |Refs(types[id])|;
      var j := 0;
      DoneNothing(g, t0, m0, rank, loop, RankOf(rank, id));
      VisitStart(g[id], isArray);
      while j < n
        invariant 0 <= j <= n == |Refs(types[id])| == |Refs(g[id])| && (isArray ==> n == 2)
        invariant Unvisited(g[id], types[id], isArray, j)
        invariant Finished(g, types[..], m0, map_[..], loop, VisitedIds(g[id], isArray, j))
        invariant Resolved() && map_[id] == IN_PROGRESS && IsRefType(types[id])
        invariant PreservedBut(t0, m0, types[..], map_[..], id)
        invariant VisitedSettled(types[id], map_[..], isArray, j)
        invariant Untouched(map_[..]) <= Untouched(m0)
      {
        ghost var ti, mi := types[..], map_[..];
        ResolvingRange(g, ti, noFwd, id);
        var k := Visit(isArray, j);
        ChartAfter(g, ti, m0, mi, rank, loop, VisitedIds(g[id], isArray, j), RankOf(rank, id));
        VisitNext(g[id], ti[id], isArray, j, 0);
        ChartDown(g, mi, rank, loop, id, k);
        DoneParts(g, ti, m0, mi, loop, VisitedIds(g[id], isArray, j));
        var child := RefType(Refs(types[id])[k], rank, loop);
        VisitedKept(ti, mi, types[..], map_[..], isArray, id, j);
        if child.Err? {
          PreservedButTrans(t0, m0, ti, mi, types[..], map_[..], id, types[id]);
          assert types[..] == types[..][id := types[id]];
          return Err(child.error);
        }
        ghost var tk := types[..];
        DoneTrans(g, ti, tk, m0, mi, map_[..], loop, VisitedIds(g[id], isArray, j), {Refs(g[id])[k]});
        VisitedNext(g[id], isArray, j);
        VisitNext(g[id], tk[id], isArray, j, child.value);
        DoneWritten(g, tk, m0, map_[..], loop, VisitedIds(g[id], isArray, j + 1), id, SetRef(tk[id], k, child.value));
        RefWritten(g, tk, map_[..], noFwd, table.Items(), id, k, child.value);
        VisitedGrows(tk[id], map_[..], isArray, j, child.value);
        SetRefKind(tk[id], k, child.value);
        PreservedButTrans(t0, m0, ti, mi, tk, map_[..], id, SetRef(tk[id], k, child.value));
        types[id] := SetRef(types[id], k, child.value);
        assert types[..] == tk[id := SetRef(tk[id], k, child.value)];
        j := j + 1;
      }
      AllVisited(types[id], map_[..], isArray);
      OffLoop(g, types[..], m0, map_[..], loop, id, isArray);
      DoneLess(g, types[..], m0, map_[..], loop, VisitedIds(g[id], isArray, n));
      r := Ok(());
    }

    method FindRef(id: nat, cands: seq<nat>) returns (newId: nat)
      requires Linked() && id < |g| && IsRefType(types[id])
      requires forall c :: c in cands ==> Canonical(g, map_[..], noFwd, c) && c != id
      ensures newId < |g|
      ensures newId != id ==> newId in cands && types[newId] == types[id]
      ensures newId == id ==> forall c :: c in cands ==> c < |g| && types[c] != types[id]
    {
      hide Closed, LinkFits, Acyclic, EqualRef, Canonical;
      var t := types[id];
      for i := 0 to |cands|
        invariant forall j :: 0 <= j < i ==> cands[j] < |g| && types[cands[j]] != t
      {
        CanonicalMapped(g, map_[..], noFwd, cands[i]);
        var cand := types[cands[i]];
        EqualRefMeaning(t, cand);
        if EqualRef(t, cand) {
          return cands[i];
        }
      }
      newId := id;
    }

    /** Finds an identical record among the candidates, or makes id a representative. */
    method FinishRef(id: nat) returns (newId: nat)
      requires Resolved() && 0 < id < |g| && map_[id] == IN_PROGRESS && IsRefType(types[id])
      requires forall c :: 0 <= c < |Refs(types[id])| ==> SelfMapped(map_[..], Refs(types[id])[c])
      modifies map_, table
      ensures Resolved() && newId < |g| && map_[newId] == newId && LinkFits(g, noFwd, id, newId)
      ensures map_[..] == old(map_[..])[id := newId] && Root(map_[..], id) == newId
    {
      hide Closed, LinkFits, Acyclic, Resolving, TargetsMapped, RefsSettled, TableFits, HashMap.Items, HashMap.Valid;
      hide Refs, HashOf, Unmatched, Passes, EqualRef, Canonical;
      ghost var ts, m := types[..], map_[..];
      var t := types[id];
      var h := HashOf(t);
      var cands := table.KeyEntries(h);
      NotACandidate(g, ts, m, noFwd, table.Items(), id);
      CandidatesCanonical(g, ts, m, noFwd, table.Items(), h, cands);
      assert forall c :: c in cands ==> c != id by {
        assert forall c :: c in cands ==> Entry(h, c) in table.Items();
      }
      newId := FindRef(id, cands);
      if newId == id {
        UnmatchedBy(ts, table.Items(), id, cands);
        FitsRefl(g, noFwd, id);
      } else {
        PickRef(g, ts, m, noFwd, id, newId);
      }
      RefSettled(ts, m, id, newId);
      Settle(id, newId, h);
      assert types[..] == ts;
    }

    // ----- compaction and remapping -----

    method ResetNumbers()
      requires Fixed()
      modifies hypotMap
      ensures map_[..] == old(map_[..]) && hypotMap[0] == 0
      ensures forall i :: 0 < i < |g| ==> hypotMap[i] == UNPROCESSED
    {
      hide Closed;
      hypotMap[0] := 0;
      var z := 1;
      while z < hypotMap.Length
        invariant 1 <= z <= |g| && hypotMap[0] == 0 && map_[..] == old(map_[..])
        invariant forall i :: 0 < i < z ==> hypotMap[i] == UNPROCESSED
      {
        hypotMap[z] := UNPROCESSED;
        z := z + 1;
      }
    }

    /** Moves the representatives' records to the front, numbering them in order. */
    method CompactTypes() returns (r: Result<()>)
      requires Resolved()
      modifies types, hypotMap, this`nrTypes
      ensures map_[..] == old(map_[..])
      ensures r.Ok? ==> nrTypes == Count(map_[..], |g| - 1)
      ensures r.Ok? ==> Numbered(map_[..], hypotMap[..], |g| - 1)
      ensures r.Ok? ==> MovedUpTo(old(types[..]), map_[..], types[..], |g| - 1)
      ensures r.Err? ==> Void in old(types[..])[1..]
    {
      hide Closed, LinksOk, Resolving, TargetsMapped, RefsSettled, TableFits, HashMap.Items, HashMap.Valid;
      hide Numbered, MovedUpTo, Count;
      ghost var ts, m := types[..], map_[..];
      ResetNumbers();
      NothingMoved(ts, m, hypotMap[..]);
      var next := 1;
      var i := 1;
      while i < types.Length
        invariant 1 <= i <= |g| && map_[..] == m
        invariant next == Count(m, i - 1) + 1
        invariant Numbered(m, hypotMap[..], i - 1) && MovedUpTo(ts, m, types[..], i - 1)
      {
        ghost var tn, hn := types[..], hypotMap[..];
        NumberNext(m, hn, i - 1);
        MoveNext(ts, m, tn, i - 1);
        MovedRest(ts, m, tn, i - 1);
        if map_[i] == i {
          if types[i].Void? {
            assert ts[1..][i - 1] == Void;
            return Err(InvalidInput);
          }
          hypotMap[i] := next;
          types[next] := types[i];
          assert types[..] == tn[next := ts[i]] && hypotMap[..] == hn[i := next];
          next := next + 1;
        }
        i := i + 1;
      }
      nrTypes := next - 1;
      r := Ok(());
    }

    method RemapTypeId(id: nat) returns (r: Result<nat>)
      requires Linked() && id < |g|
      ensures Linked()
      ensures var n := hypotMap[Root(map_[..], id)]; r == if n > MAX_NR_TYPES then Err(InvalidInput) else Ok(n)
    {
      var resolved := ResolveTypeId(id);
      if hypotMap[resolved] > MAX_NR_TYPES {
        return Err(InvalidInput);
      }
      r := Ok(hypotMap[resolved]);
    }

    /** Rewrites every reference of one record to its final id. */
    method RemapType(i: nat) returns (r: Result<()>)
      requires Linked() && i < |g| && RefsBelow(types[i], |g|)
      modifies types
      ensures forall j :: 0 <= j < |g| && j != i ==> types[j] == old(types[j])
      ensures r.Ok? ==> RemappedRecord(old(types[i]), map_[..], hypotMap[..], types[i])
      ensures r.Err? ==> Unmappable(old(types[i]), map_[..], hypotMap[..])
    {
      hide Closed, LinkFits, Acyclic, Root, Refs, SetRef, Shape;
      ghost var m, hyp, t := map_[..], hypotMap[..], types[i];
      if types[i].Void? {
        return Err(InvalidInput);
      }
      ArrayArity(types[i]);
      var isArray := types[i].Array?;
      var n := |Refs(types[i])|;
      var j := 0;
      while j < n
        invariant 0 <= j <= n == |Refs(t)| && map_[..] == m && hypotMap[..] == hyp
        invariant PartlyRemapped(t, m, hyp, types[i], isArray, j)
        invariant forall x :: 0 <= x < |g| && x != i ==> types[x] == old(types[x])
      {
        var k := Visit(isArray, j);
        var one := RemapTypeId(Refs(types[i])[k]);
        if one.Err? {
          return Err(one.error);
        }
        RemapNext(t, m, hyp, types[i], isArray, j, one.value);
        types[i] := SetRef(types[i], k, one.value);
        j := j + 1;
      }
      r := Ok(());
    }

    method RemapTypes() returns (r: Result<()>)
      requires Linked() && nrTypes < |g| && forall k :: 0 < k <= nrTypes ==> RefsBelow(types[k], |g|)
      modifies types
      ensures Linked() && types[0] == old(types[0])
      ensures r.Ok? ==> forall k :: 0 < k <= nrTypes ==>
                RemappedRecord(old(types[k]), map_[..], hypotMap[..], types[k])
      ensures r.Err? ==> exists k :: 0 < k <= nrTypes && Unmappable(old(types[k]), map_[..], hypotMap[..])
    {
      hide Closed, LinksOk, LinkFits, RefsBelow, RemappedRecord, Unmappable;
      ghost var ts, m, hyp := types[..], map_[..], hypotMap[..];
      assert Acyclic(m) by { LinksOkParts(g, m, noFwd); }
      var i := 1;
      while i <= nrTypes
        invariant 1 <= i <= nrTypes + 1 && map_[..] == m && hypotMap[..] == hyp && types[0] == ts[0]
        invariant forall k :: 0 < k < i ==> RemappedRecord(ts[k], m, hyp, types[k])
        invariant forall k :: i <= k < |g| ==> types[k] == ts[k]
      {
        r := RemapType(i);
        if r.Err? {
          return;
        }
        i := i + 1;
      }
      r := Ok(());
    }

    // ----- all passes -----

    ghost predicate Initial()
      reads this, types, map_, hypotMap, table
    {
      && Ready() && HypOk(g, hypotMap[..], hypotList)
      && forall i :: 0 <= i < |g| ==> map_[i] == if InitiallyMapped(g, i) then i else UNPROCESSED
    }

    /** Primitive and struct passes. */
    method EarlyPasses() returns (r: Result<()>)
      requires Initial()
      modifies this`hypotList, map_, hypotMap, table
      ensures r.Ok? ==> Resolved() && types[..] == g
      ensures r.Ok? ==> forall i :: 0 < i < |g| ==> IsPrim(g[i]) ==> Mapped(map_[..], i)
      ensures r.Ok? ==> Void !in g[1..]
      ensures r.Ok? ==> forall i :: 0 <= i < |g| ==>
        if IsRefType(g[i]) then map_[i] == UNPROCESSED else Mapped(map_[..], i)
      ensures r.Err? ==> !Tame(g)
      ensures r.Ok? ==> OneVoid(g)
    {
      hide Tame, OneVoid, LinksOk, TableFits, HypOk, HashMap.Items, HashMap.Valid, Resolving, TargetsMapped;
      hide RefsSettled, Acyclic;
      ghost var m0 := map_[..];
      StartTargets(g, m0);
      LinksOkParts(g, m0, noFwd);
      r := PrimTypes();
      if r.Err? {
        TameVoid(g);
        return;
      }
      NoVoids(g);
      ghost var m1 := map_[..];
      r := StructTypes();
      if r.Ok? {
        StableKeepsMapped(g, m1, map_[..], noFwd);
        EarlyMapped(g, m0, m1, map_[..]);
        ReadyForRefs(g, map_[..], noFwd);
      }
    }

    /** Compaction and remapping cannot fail once every type has a representative. */
    method LatePasses() returns (r: Result<()>)
      requires Resolved() && (forall i :: 0 <= i < |g| ==> Mapped(map_[..], i)) && Void !in types[..][1..]
      modifies this`nrTypes, types, hypotMap
      ensures r.Ok? && nrTypes < |g| && map_[..] == old(map_[..]) && Linked()
      ensures Closed(old(types[..])) && Renumbered(old(types[..]), map_[..], types[..nrTypes + 1])
      ensures Closed(types[..nrTypes + 1])
    {
      hide Closed, LinksOk, TableFits, HashMap.Items, HashMap.Valid, Resolving, TargetsMapped, RefsSettled, Acyclic;
      hide Numbered, MovedUpTo, Count, RemappedRecord, RefsBelow, Unmappable, AllMapped, Renumbered;
      ghost var ts, m := types[..], map_[..];
      LinksOkParts(g, m, noFwd);
      ResolvingParts(g, ts, noFwd);
      assert AllMapped(m) by { EveryIdMapped(m); }
      r := CompactTypes();
      if r.Ok? {
        ghost var t1 := types[..];
        forall k | 0 <= k <= nrTypes ensures k < |g| && RefsBelow(t1[k], |g|) {
          MovedRange(ts, m, t1, k);
        }
        MovedRange(ts, m, t1, nrTypes);
        MovedVoid(ts, m, t1);
        r := RemapTypes();
        if r.Ok? {
          RemapResult(ts, m, hypotMap[..], t1, types[..nrTypes + 1]);
        } else {
          forall k | 0 < k <= nrTypes ensures !Unmappable(t1[k], m, hypotMap[..]) {
            LookupsSucceed(ts, m, hypotMap[..], t1, k);
          }
        }
      }
    }

    /** All passes; on success the records 1..nrTypes are the deduplicated graph. On a tame
        graph they succeed exactly if chains of references end. */
    method Run() returns (r: Result<()>)
      requires Initial()
      modifies this`nrTypes, this`hypotList, types, map_, hypotMap, table
      ensures r.Ok? ==> nrTypes < |g| && DedupResult(g, map_[..], noFwd, types[..nrTypes + 1])
      ensures Tame(g) ==> (r.Ok? <==> !HasLoop(g))
      ensures !OneVoid(g) || HasLoop(g) ==> r.Err?
    {
      hide Closed, LinksOk, TableFits, HypOk, HashMap.Items, HashMap.Valid, Resolving, TargetsMapped, RefsSettled;
      hide Acyclic;
      hide DedupResult, Preserved, AllMapped, Renumbered, Tame, Ranking, IsLoop, Pending, OneVoid, HasLoop;
      ghost var rank, loop := SomeRanking(g), SomeLoop(g);
      RankingOrLoop(g);
      assert Tame(g) ==> OneVoid(g) by { if Tame(g) { TameOneVoid(g); } }
      r := EarlyPasses();
      if r.Err? {
        return;
      }
      ghost var m0 := map_[..];
      StartRefs(g, m0, loop);
      r := RefTypes(rank, loop);
      if r.Err? {
        return;
      }
      ghost var ts, m := types[..], map_[..];
      NoVoidAppears(g, ts, noFwd);
      assert AllMapped(m) by { EveryIdMapped(m); }
      assert FwdWordsZero(g) ==> FwdWordsZero(ts) by {
        if FwdWordsZero(g) { FwdWordsKept(g, m0, ts, m, noFwd); }
      }
      r := LatePasses();
      DedupCorrect(g, ts, m, noFwd, table.Items(), types[..nrTypes + 1]);
    }
  }

  lemma NoVoids(g: Graph)
    requires |g| > 0 && forall i :: 0 < i < |g| ==> g[i] != Void
    ensures OneVoid(g) && Void !in g[1..]
  {
  }

  lemma TameOneVoid(g: Graph)
    requires Tame(g)
    ensures OneVoid(g)
  {
  }

  lemma TameVoid(g: Graph)
    requires !OneVoid(g)
    ensures !Tame(g)
  {
  }

  /** After the primitive and struct passes only reference types are without a map entry. */
  lemma EarlyMapped(g: Graph, m0: Links, m1: Links, m2: Links)
    requires |g| == |m0| == |m1| == |m2| <= MAX_NR_TYPES + 1 && OneVoid(g)
    requires forall i :: 0 <= i < |g| ==> m0[i] == if InitiallyMapped(g, i) then i else UNPROCESSED
    requires forall i :: 0 <= i < |g| && !IsPrim(g[i]) ==> m1[i] == m0[i]
    requires forall i :: 0 < i < |g| && IsPrim(g[i]) ==> Mapped(m1, i)
    requires forall i :: 0 <= i < |g| && !g[i].Fwd? && !g[i].Struct? ==> m2[i] == m1[i]
    requires forall i :: 0 <= i < |g| && Mapped(m1, i) ==> Mapped(m2, i)
    requires forall i :: 0 < i < |g| && g[i].Struct? ==> Mapped(m2, i)
    requires |g| > 0 && g[0] == Void
    ensures forall i :: 0 <= i < |g| ==> if IsRefType(g[i]) then m2[i] == UNPROCESSED else Mapped(m2, i)
  {
  }

  lemma NoVoidAppears(g: Graph, ts: Graph, noFwd: bool)
    requires Resolving(g, ts, noFwd) && Void !in g[1..]
    ensures |ts| > 0 && Void !in ts[1..]
  {
    hide LinkFits;
    forall i | 0 < i < |ts| ensures ts[i] != Void {
      RecordAt(g, ts, noFwd, i);
      assert g[i] == g[1..][i - 1];
    }
  }

  lemma LookupsSucceed(ts: Graph, m: Links, hyp: seq<nat>, t1: Graph, k: nat)
    requires Acyclic(m) && TargetsMapped(m) && AllMapped(m) && 0 < |m| <= MAX_NR_TYPES + 1 && m[0] == 0
    requires Closed(ts) && MovedUpTo(ts, m, t1, |m| - 1) && Numbered(m, hyp, |m| - 1)
    requires |ts| > 0 && Void !in ts[1..]
    requires 0 < k <= Count(m, |m| - 1) && k < |t1| && |hyp| == |m| && RefsBelow(t1[k], |m|)
    ensures !Unmappable(t1[k], m, hyp)
  {
    hide Acyclic, TargetsMapped, AllMapped, Numbered, Unmappable, Count;
    RemappedIsRenumbered(t1[k], m, hyp, t1[k]);
    MovedRange(ts, m, t1, k);
    var i :| 0 < i < |m| && t1[k] == ts[i];
    assert ts[1..][i - 1] == ts[i];
  }

  lemma StartHyp(g: Graph, hyp: seq<nat>)
    requires |hyp| == |g| && forall i :: 0 <= i < |hyp| ==> hyp[i] == UNPROCESSED
    ensures HypOk(g, hyp, [])
  {
  }

  lemma StartLinks(g: Graph, m: Links, noFwd: bool)
    requires Closed(g) && |g| <= MAX_NR_TYPES + 1
    requires |g| == |m| && forall i :: 0 <= i < |g| ==> m[i] == if InitiallyMapped(g, i) then i else UNPROCESSED
    ensures LinksOk(g, m, noFwd) && TableFits(g, g, m, noFwd, multiset{})
  {
    hide LinkFits, HashOf;
    assert RankedBy(m, seq(|g|, _ => 0));
  }

  lemma StartTargets(g: Graph, m: Links)
    requires Closed(g)
    requires |g| == |m| && forall i :: 0 <= i < |g| ==> m[i] == if InitiallyMapped(g, i) then i else UNPROCESSED
    ensures TargetsMapped(m) && forall x :: 0 <= x < |g| && IsPrim(g[x]) ==> !Mapped(m, x)
  {
  }

  lemma EveryIdMapped(m: Links)
    requires forall i :: 0 <= i < |m| ==> Mapped(m, i)
    ensures AllMapped(m)
  {
  }

  lemma MovedVoid(ts: Graph, m: Links, t1: Graph)
    requires Closed(ts) && |m| > 0 && MovedUpTo(ts, m, t1, |m| - 1)
    ensures |t1| > 0 && t1[0] == Void
  {
  }
}
