/** What linking a program with the functions it refers to must produce. */
module LinkSpec {
  import opened Wrappers

  /** An instruction: opcode, the fields linking leaves alone, and the immediate. */
  datatype Ins = Ins(code: nat, rest: nat, imm: nat)

  datatype RelType = Void | Abs64 | Abs32

  /** `off` counts instructions. */
  datatype Reloc = Reloc(off: nat, name: nat, typ: RelType, data: nat)

  datatype Difo = Difo(code: seq<Ins>, relocs: seq<Reloc>, nvars: nat)

  /** Symbols are constants or functions; an inlined function has been linked before. */
  datatype Symbol = Scalar(value: nat) | Func(difo: Option<Difo>, inlined: bool)

  type Lib = map<nat, Symbol>

  const UNDEF: nat := 0xffff_ffff

  datatype Block = Block(name: Option<nat>, difo: Difo, inlined: bool)

  datatype Trace = Trace(ref: set<nat>, blocks: seq<Block>)

  predicate IsNew(lib: Lib, ref: set<nat>, name: nat) {
    name in lib && lib[name].Func? && name !in ref
  }

  /** The functions reached from a relocation table, in the order they are placed:
      depth first, each one once; None if one of them has no code. */
  function Reached(lib: Lib, ref: set<nat>, relocs: seq<Reloc>): (t: Option<Trace>)
    ensures t.Some? ==> ref <= t.value.ref
    decreases lib.Keys - ref, 1, |relocs|
  {
    if relocs == [] then Some(Trace(ref, []))
    else if !IsNew(lib, ref, relocs[0].name) then Reached(lib, ref, relocs[1..])
    else
      var here := Place(lib, ref, relocs[0].name);
      if here.None? then None
      else
        var rest := Reached(lib, here.value.ref, relocs[1..]);
        if rest.None? then None else Some(Trace(rest.value.ref, here.value.blocks + rest.value.blocks))
  }

  function Place(lib: Lib, ref: set<nat>, name: nat): (t: Option<Trace>)
    requires IsNew(lib, ref, name)
    ensures t.Some? ==> ref + {name} <= t.value.ref
    decreases lib.Keys - ref, 0, 0
  {
    var Func(difo, inlined) := lib[name];
    if difo.None? then None
    else
      var b := Block(Some(name), difo.value, inlined);
      if inlined then Some(Trace(ref + {name}, [b]))
      else
        assert lib.Keys - (ref + {name}) < lib.Keys - ref by {
          assert name in lib.Keys - ref && name !in lib.Keys - (ref + {name});
        }
        var below := Reached(lib, ref + {name}, difo.value.relocs);
        if below.None? then None else Some(Trace(below.value.ref, [b] + below.value.blocks))
  }

  function RootRef(root: Block): set<nat> {
    if root.name.Some? then {root.name.value} else {}
  }

  /** The whole image: the program's own block, then what it reaches. */
  function Image(lib: Lib, root: Block): Option<Trace> {
    if root.inlined then Some(Trace(RootRef(root), [root]))
    else
      var below := Reached(lib, RootRef(root), root.difo.relocs);
      if below.None? then None else Some(Trace(below.value.ref, [root] + below.value.blocks))
  }

  // ----- sizes, places, contents -----

  function Len(bs: seq<Block>): nat {
    if bs == [] then 0 else Len(bs[..|bs| - 1]) + |bs[|bs| - 1].difo.code|
  }

  function RelLen(bs: seq<Block>): nat {
    if bs == [] then 0 else RelLen(bs[..|bs| - 1]) + |bs[|bs| - 1].difo.relocs|
  }

  function VarLen(bs: seq<Block>): nat {
    if bs == [] then 0 else VarLen(bs[..|bs| - 1]) + bs[|bs| - 1].difo.nvars
  }

  function Code(bs: seq<Block>): (s: seq<Ins>)
    ensures |s| == Len(bs)
  {
    if bs == [] then [] else Code(bs[..|bs| - 1]) + bs[|bs| - 1].difo.code
  }

  /** Where each named block starts, when the blocks are laid out from pc on. */
  function Places(ids: map<nat, nat>, pc: nat, bs: seq<Block>): map<nat, nat> {
    if bs == [] then ids
    else
      var n := |bs| - 1;
      var before := Places(ids, pc, bs[..n]);
      if bs[n].name.Some? then before[bs[n].name.value := pc + Len(bs[..n])] else before
  }

  function IdOf(ids: map<nat, nat>, name: nat): nat {
    if name in ids then ids[name] else UNDEF
  }

  /** The entry made for relocation r of a block placed at s. */
  function Entry(lib: Lib, ids: map<nat, nat>, s: nat, inlined: bool, r: Reloc): Reloc {
    if r.name !in lib then Reloc(r.off + s, r.name, r.typ, r.data)
    else
      match lib[r.name]
      case Scalar(v) => if inlined then Reloc(r.off + s, r.name, Void, r.data) else Reloc(r.off + s, r.name, r.typ, v)
      case Func(_, _) => Reloc(r.off + s, r.name, r.typ, if inlined then r.data + s else IdOf(ids, r.name))
  }

  function Entries(lib: Lib, ids: map<nat, nat>, s: nat, b: Block): (t: seq<Reloc>)
    ensures |t| == |b.difo.relocs|
  {
    seq(|b.difo.relocs|, i requires 0 <= i < |b.difo.relocs| => Entry(lib, ids, s, b.inlined, b.difo.relocs[i]))
  }

  function RelTab(lib: Lib, ids: map<nat, nat>, pc: nat, bs: seq<Block>): (t: seq<Reloc>)
    ensures |t| == RelLen(bs)
  {
    if bs == [] then []
    else
      var n := |bs| - 1;
      RelTab(lib, ids, pc, bs[..n]) + Entries(lib, ids, pc + Len(bs[..n]), bs[n])
  }

  // ----- concatenation -----

  lemma {:induction false} SizesConcat(a: seq<Block>, b: seq<Block>)
    ensures Len(a + b) == Len(a) + Len(b) && RelLen(a + b) == RelLen(a) + RelLen(b)
    ensures VarLen(a + b) == VarLen(a) + VarLen(b)
    decreases |b|
  {
    if b == [] {
      assert a + b == a;
    } else {
      var n := |b| - 1;
      assert (a + b)[..|a + b| - 1] == a + b[..n];
      SizesConcat(a, b[..n]);
    }
  }

  lemma {:induction false} CodeConcat(a: seq<Block>, b: seq<Block>)
    ensures Code(a + b) == Code(a) + Code(b)
    decreases |b|
  {
    hide Len;
    if b == [] {
      assert a + b == a;
    } else {
      var n := |b| - 1;
      assert (a + b)[..|a + b| - 1] == a + b[..n];
      CodeConcat(a, b[..n]);
    }
  }

  lemma {:induction false} PlacesConcat(ids: map<nat, nat>, pc: nat, a: seq<Block>, b: seq<Block>)
    ensures Places(ids, pc, a + b) == Places(Places(ids, pc, a), pc + Len(a), b)
    decreases |b|
  {
    if b == [] {
      assert a + b == a;
    } else {
      var n := |b| - 1;
      assert (a + b)[..|a + b| - 1] == a + b[..n];
      PlacesConcat(ids, pc, a, b[..n]);
      SizesConcat(a, b[..n]);
    }
  }

  lemma {:induction false} RelTabConcat(lib: Lib, ids: map<nat, nat>, pc: nat, a: seq<Block>, b: seq<Block>)
    ensures RelTab(lib, ids, pc, a + b) == RelTab(lib, ids, pc, a) + RelTab(lib, ids, pc + Len(a), b)
    decreases |b|
  {
    hide Entries;
    if b == [] {
      assert a + b == a;
    } else {
      var n := |b| - 1;
      assert (a + b)[..|a + b| - 1] == a + b[..n];
      RelTabConcat(lib, ids, pc, a, b[..n]);
      SizesConcat(a, b[..n]);
    }
  }

  lemma OneBlock(lib: Lib, ids: map<nat, nat>, pc: nat, b: Block)
    ensures Len([b]) == |b.difo.code| && RelLen([b]) == |b.difo.relocs| && VarLen([b]) == b.difo.nvars
    ensures Code([b]) == b.difo.code && RelTab(lib, ids, pc, [b]) == Entries(lib, ids, pc, b)
    ensures Places(ids, pc, [b]) == if b.name.Some? then ids[b.name.value := pc] else ids
  {
    hide Entries;
    assert [b][..0] == [];
  }

  // ----- each function is placed once -----

  ghost predicate Placed(bs: seq<Block>, x: nat) {
    exists i :: 0 <= i < |bs| && bs[i].name == Some(x)
  }

  /** The blocks are functions of the library, none placed before, none twice. */
  ghost predicate FreshBlocks(lib: Lib, ref: set<nat>, t: Trace) {
    && (forall i :: 0 <= i < |t.blocks| ==>
          && t.blocks[i].name.Some? && t.blocks[i].name.value in t.ref - ref && t.blocks[i].name.value in lib
          && lib[t.blocks[i].name.value] == Func(Some(t.blocks[i].difo), t.blocks[i].inlined))
    && (forall i, j :: 0 <= i < |t.blocks| && 0 <= j < |t.blocks| && t.blocks[i].name == t.blocks[j].name ==> i == j)
    && (forall x :: x in t.ref - ref ==> Placed(t.blocks, x))
  }

  lemma FreshConcat(lib: Lib, ref: set<nat>, a: Trace, b: Trace)
    requires ref <= a.ref <= b.ref && FreshBlocks(lib, ref, a) && FreshBlocks(lib, a.ref, b)
    ensures FreshBlocks(lib, ref, Trace(b.ref, a.blocks + b.blocks))
  {
    hide Placed;
    var t := Trace(b.ref, a.blocks + b.blocks);
    forall p, q | 0 <= p < |a.blocks| && 0 <= q < |b.blocks| ensures a.blocks[p].name != b.blocks[q].name {
      assert a.blocks[p].name.value in a.ref && b.blocks[q].name.value in b.ref - a.ref;
    }
    forall i, j | 0 <= i < |t.blocks| && 0 <= j < |t.blocks| && t.blocks[i].name == t.blocks[j].name ensures i == j {
      var n := |a.blocks|;
      if i < n && j < n {
        assert a.blocks[i].name == a.blocks[j].name;
      } else if i >= n && j >= n {
        assert b.blocks[i - n].name == b.blocks[j - n].name;
      }
    }
    forall x | x in t.ref - ref ensures Placed(t.blocks, x) {
      assert if x in a.ref then x in a.ref - ref else x in b.ref - a.ref;
      PlacedConcat(a.blocks, b.blocks, x);
    }
  }

  lemma PlacedConcat(a: seq<Block>, b: seq<Block>, x: nat)
    ensures Placed(a, x) || Placed(b, x) ==> Placed(a + b, x)
  {
    if Placed(a, x) {
      var i :| 0 <= i < |a| && a[i].name == Some(x);
      assert (a + b)[i].name == Some(x);
    }
    if Placed(b, x) {
      var i :| 0 <= i < |b| && b[i].name == Some(x);
      assert (a + b)[|a| + i].name == Some(x);
    }
  }

  lemma {:induction false} ReachedFresh(lib: Lib, ref: set<nat>, relocs: seq<Reloc>)
    requires Reached(lib, ref, relocs).Some?
    ensures FreshBlocks(lib, ref, Reached(lib, ref, relocs).value)
    decreases lib.Keys - ref, 1, |relocs|
  {
    if relocs == [] {
    } else if !IsNew(lib, ref, relocs[0].name) {
      ReachedFresh(lib, ref, relocs[1..]);
    } else {
      var here := Place(lib, ref, relocs[0].name).value;
      PlaceFresh(lib, ref, relocs[0].name);
      ReachedFresh(lib, here.ref, relocs[1..]);
      FreshConcat(lib, ref, here, Reached(lib, here.ref, relocs[1..]).value);
    }
  }

  lemma {:induction false} PlaceFresh(lib: Lib, ref: set<nat>, name: nat)
    requires IsNew(lib, ref, name) && Place(lib, ref, name).Some?
    ensures FreshBlocks(lib, ref, Place(lib, ref, name).value)
    decreases lib.Keys - ref, 0, 0
  {
    var Func(difo, inlined) := lib[name];
    var b := Block(Some(name), difo.value, inlined);
    var one := Trace(ref + {name}, [b]);
    assert FreshBlocks(lib, ref, one) by {
      assert one.blocks[0].name == Some(name);
    }
    if !inlined {
      assert name in lib.Keys - ref && name !in lib.Keys - (ref + {name});
      ReachedFresh(lib, ref + {name}, difo.value.relocs);
      FreshConcat(lib, ref, one, Reached(lib, ref + {name}, difo.value.relocs).value);
    }
  }

  /** Everything a non-inlined block refers to is placed, or was before. */
  ghost predicate AllReached(lib: Lib, ref: set<nat>, relocs: seq<Reloc>) {
    forall i :: 0 <= i < |relocs| && relocs[i].name in lib && lib[relocs[i].name].Func? ==> relocs[i].name in ref
  }

  lemma {:induction false} ReachedClosed(lib: Lib, ref: set<nat>, relocs: seq<Reloc>)
    requires Reached(lib, ref, relocs).Some?
    ensures var t := Reached(lib, ref, relocs).value;
      && AllReached(lib, t.ref, relocs)
      && forall i :: 0 <= i < |t.blocks| && !t.blocks[i].inlined ==> AllReached(lib, t.ref, t.blocks[i].difo.relocs)
    decreases lib.Keys - ref, 1, |relocs|
  {
    if relocs == [] {
    } else if !IsNew(lib, ref, relocs[0].name) {
      ReachedClosed(lib, ref, relocs[1..]);
    } else {
      var here := Place(lib, ref, relocs[0].name).value;
      PlaceClosed(lib, ref, relocs[0].name);
      ReachedClosed(lib, here.ref, relocs[1..]);
    }
  }

  lemma {:induction false} PlaceClosed(lib: Lib, ref: set<nat>, name: nat)
    requires IsNew(lib, ref, name) && Place(lib, ref, name).Some?
    ensures var t := Place(lib, ref, name).value;
      forall i :: 0 <= i < |t.blocks| && !t.blocks[i].inlined ==> AllReached(lib, t.ref, t.blocks[i].difo.relocs)
    decreases lib.Keys - ref, 0, 0
  {
    var Func(difo, inlined) := lib[name];
    if !inlined {
      assert name in lib.Keys - ref && name !in lib.Keys - (ref + {name});
      ReachedClosed(lib, ref + {name}, difo.value.relocs);
    }
  }

  // ----- properties of the image -----

  function Width(r: Reloc): nat {
    if r.typ == Abs64 then 2 else 1
  }

  /** Relocations come in ascending order, do not overlap and lie inside the code. */
  ghost predicate Spaced(t: seq<Reloc>, lo: nat, hi: nat) {
    && (forall i :: 0 <= i < |t| ==> lo <= t[i].off && t[i].off + Width(t[i]) <= hi)
    && (forall i, j :: 0 <= i < j < |t| ==> t[i].off + Width(t[i]) <= t[j].off)
  }

  ghost predicate GoodBlocks(bs: seq<Block>) {
    forall i :: 0 <= i < |bs| ==> Spaced(bs[i].difo.relocs, 0, |bs[i].difo.code|)
  }

  lemma EntriesSpaced(lib: Lib, ids: map<nat, nat>, s: nat, b: Block)
    requires Spaced(b.difo.relocs, 0, |b.difo.code|)
    ensures Spaced(Entries(lib, ids, s, b), s, s + |b.difo.code|)
  {
    var t := Entries(lib, ids, s, b);
    forall i | 0 <= i < |t| ensures t[i].off == b.difo.relocs[i].off + s && Width(t[i]) <= Width(b.difo.relocs[i]) {
    }
  }

  /** The final relocation table is in strictly ascending order, without overlaps. */
  lemma {:induction false} RelTabSpaced(lib: Lib, ids: map<nat, nat>, pc: nat, bs: seq<Block>)
    requires GoodBlocks(bs)
    ensures Spaced(RelTab(lib, ids, pc, bs), pc, pc + Len(bs))
    decreases |bs|
  {
    hide Entries;
    if bs != [] {
      var n := |bs| - 1;
      RelTabSpaced(lib, ids, pc, bs[..n]);
      EntriesSpaced(lib, ids, pc + Len(bs[..n]), bs[n]);
    }
  }

  /** The i-th block's code stands at its place in the image. */
  lemma {:induction false} CodeOf(bs: seq<Block>, i: nat)
    requires i < |bs|
    ensures var s := Len(bs[..i]);
      s + |bs[i].difo.code| <= |Code(bs)| && Code(bs)[s..s + |bs[i].difo.code|] == bs[i].difo.code
  {
    assert bs == bs[..i] + [bs[i]] + bs[i + 1..];
    CodeConcat(bs[..i], [bs[i]]);
    CodeConcat(bs[..i] + [bs[i]], bs[i + 1..]);
    OneBlock(map[], map[], 0, bs[i]);
  }

  /** The i-th block's relocations, moved to its place, are in the table. */
  lemma EntriesOf(lib: Lib, ids: map<nat, nat>, bs: seq<Block>, i: nat)
    requires i < |bs|
    ensures var k := RelLen(bs[..i]);
      && k + |bs[i].difo.relocs| <= |RelTab(lib, ids, 0, bs)|
      && RelTab(lib, ids, 0, bs)[k..k + |bs[i].difo.relocs|] == Entries(lib, ids, Len(bs[..i]), bs[i])
  {
    hide Entries;
    assert bs == bs[..i] + [bs[i]] + bs[i + 1..];
    RelTabConcat(lib, ids, 0, bs[..i], [bs[i]]);
    RelTabConcat(lib, ids, 0, bs[..i] + [bs[i]], bs[i + 1..]);
    OneBlock(lib, ids, Len(bs[..i]), bs[i]);
  }

  /** A block with a name of its own is found under that name. */
  lemma {:induction false} PlaceOf(ids: map<nat, nat>, pc: nat, bs: seq<Block>, i: nat)
    requires i < |bs| && bs[i].name.Some?
    requires forall j :: 0 <= j < |bs| && bs[j].name == bs[i].name ==> j == i
    ensures bs[i].name.value in Places(ids, pc, bs) && Places(ids, pc, bs)[bs[i].name.value] == pc + Len(bs[..i])
    decreases |bs|
  {
    var n := |bs| - 1;
    if i < n {
      PlaceOf(ids, pc, bs[..n], i);
      assert bs[..n][..i] == bs[..i];
    }
  }

  lemma {:induction false} PlacesKeep(ids: map<nat, nat>, pc: nat, bs: seq<Block>, x: nat)
    requires forall j :: 0 <= j < |bs| ==> bs[j].name != Some(x)
    ensures IdOf(Places(ids, pc, bs), x) == IdOf(ids, x)
    decreases |bs|
  {
    if bs != [] {
      PlacesKeep(ids, pc, bs[..|bs| - 1], x);
    }
  }

  // ----- resolving -----

  const W32: nat := 0x1_0000_0000

  function Low(v: int): nat {
    v % W32
  }

  /** The value a relocation stores: a constant, or the distance of a call. */
  function RelValue(lib: Lib, r: Reloc): int
    requires r.name in lib
  {
    if lib[r.name].Scalar? then r.data else r.data - r.off - 1
  }

  function Resolve1(lib: Lib, buf: seq<Ins>, r: Reloc): (b: seq<Ins>)
    requires r.off + Width(r) <= |buf|
    ensures |b| == |buf|
  {
    if r.name !in lib || r.typ == Void then buf
    else
      var v := RelValue(lib, r);
      var first := buf[r.off := Ins(buf[r.off].code, buf[r.off].rest, Low(v))];
      if r.typ == Abs64 then
        first[r.off + 1 := Ins(buf[r.off + 1].code, buf[r.off + 1].rest, Low(v / W32))]
      else first
  }

  function Resolve(lib: Lib, buf: seq<Ins>, tab: seq<Reloc>, n: nat): (b: seq<Ins>)
    requires n <= |tab| && forall i :: 0 <= i < |tab| ==> tab[i].off + Width(tab[i]) <= |buf|
    ensures |b| == |buf|
  {
    if n == 0 then buf else Resolve1(lib, Resolve(lib, buf, tab, n - 1), tab[n - 1])
  }

  /** Positions outside every relocation keep their instruction; what relocation i
      writes is not overwritten by later ones. */
  lemma {:induction false} ResolveAt(lib: Lib, buf: seq<Ins>, tab: seq<Reloc>, n: nat, p: nat)
    requires Spaced(tab, 0, |buf|) && n <= |tab| && p < |buf|
    ensures var b := Resolve(lib, buf, tab, n);
      && b[p].code == buf[p].code && b[p].rest == buf[p].rest
      && ((forall i :: 0 <= i < n ==> p < tab[i].off || tab[i].off + Width(tab[i]) <= p) ==> b[p] == buf[p])
      && (forall i :: 0 <= i < n && tab[i].off == p && tab[i].name in lib && tab[i].typ != Void ==>
            b[p].imm == Low(RelValue(lib, tab[i])))
    decreases n
  {
    hide RelValue, Low;
    if n > 0 {
      ResolveAt(lib, buf, tab, n - 1, p);
    }
  }

  // ----- the linked program -----

  /** Identifier values after layout; the program's own identifier gets none. */
  function FinalIds(ids: map<nat, nat>, bs: seq<Block>): map<nat, nat>
    requires |bs| > 0
  {
    Places(ids, |bs[0].difo.code|, bs[1..])
  }

  function FinalTab(lib: Lib, ids: map<nat, nat>, bs: seq<Block>): seq<Reloc>
    requires |bs| > 0
  {
    RelTab(lib, FinalIds(ids, bs), 0, bs)
  }

  lemma FinalTabSpaced(lib: Lib, ids: map<nat, nat>, bs: seq<Block>)
    requires |bs| > 0 && GoodBlocks(bs)
    ensures Spaced(FinalTab(lib, ids, bs), 0, |Code(bs)|)
  {
    hide RelTab, Spaced, FinalIds, GoodBlocks, Len;
    RelTabSpaced(lib, FinalIds(ids, bs), 0, bs);
  }

  /** Code of the linked program. */
  function LinkedCode(lib: Lib, ids: map<nat, nat>, bs: seq<Block>): (code: seq<Ins>)
    requires |bs| > 0 && GoodBlocks(bs)
    ensures |code| == Len(bs)
  {
    FinalTabSpaced(lib, ids, bs);
    Resolve(lib, Code(bs), FinalTab(lib, ids, bs), |FinalTab(lib, ids, bs)|)
  }

  lemma ImageBlocks(lib: Lib, root: Block)
    requires !root.inlined && Image(lib, root).Some?
    ensures var t := Image(lib, root).value;
      && |t.blocks| > 0 && t.blocks[0] == root
      && (forall i :: 0 < i < |t.blocks| ==> t.blocks[i].name.Some?)
      && (forall i, j :: 0 < i < |t.blocks| && 0 < j < |t.blocks| && t.blocks[i].name == t.blocks[j].name ==> i == j)
      && (forall i :: 0 <= i < |t.blocks| && !t.blocks[i].inlined ==> AllReached(lib, t.ref, t.blocks[i].difo.relocs))
      && (forall x :: x in t.ref && root.name != Some(x) ==>
            exists j :: 0 < j < |t.blocks| && t.blocks[j].name == Some(x))
  {
    var ref := RootRef(root);
    ReachedFresh(lib, ref, root.difo.relocs);
    ReachedClosed(lib, ref, root.difo.relocs);
    var below := Reached(lib, ref, root.difo.relocs).value;
    var t := Image(lib, root).value;
    forall x | x in t.ref && root.name != Some(x)
      ensures exists j :: 0 < j < |t.blocks| && t.blocks[j].name == Some(x)
    {
      assert x in below.ref - ref && Placed(below.blocks, x);
      var i :| 0 <= i < |below.blocks| && below.blocks[i].name == Some(x);
      assert t.blocks[i + 1].name == Some(x);
    }
  }

  lemma FinalPlace(ids: map<nat, nat>, bs: seq<Block>, j: nat)
    requires 0 < j < |bs| && bs[j].name.Some?
    requires forall i :: 0 < i < |bs| && bs[i].name == bs[j].name ==> i == j
    ensures IdOf(FinalIds(ids, bs), bs[j].name.value) == Len(bs[..j])
  {
    PlaceOf(ids, |bs[0].difo.code|, bs[1..], j - 1);
    assert bs[..j] == [bs[0]] + bs[1..][..j - 1];
    SizesConcat([bs[0]], bs[1..][..j - 1]);
    OneBlock(map[], map[], 0, bs[0]);
  }

  /** What the linker stores for relocation k of block i. */
  lemma StoredImm(lib: Lib, ids: map<nat, nat>, bs: seq<Block>, i: nat, k: nat)
    requires |bs| > 0 && GoodBlocks(bs) && i < |bs| && k < |bs[i].difo.relocs|
    requires var r := bs[i].difo.relocs[k]; r.typ == Abs32 && r.name in lib && lib[r.name].Func?
    ensures var r := bs[i].difo.relocs[k]; var at := Len(bs[..i]) + r.off;
      var target := if bs[i].inlined then r.data + Len(bs[..i]) else IdOf(FinalIds(ids, bs), r.name);
      at < Len(bs) && LinkedCode(lib, ids, bs)[at].imm == Low(target - at - 1)
  {
    hide Low, Len, RelLen, FinalIds, RelTab, Code, Entries, Resolve;
    FinalTabSpaced(lib, ids, bs);
    var tab := FinalTab(lib, ids, bs);
    var r := bs[i].difo.relocs[k];
    var n := TabEntry(lib, FinalIds(ids, bs), bs, i, k);
    CodeOf(bs, i);
    ResolveAt(lib, Code(bs), tab, |tab|, Len(bs[..i]) + r.off);
  }

  lemma TabEntry(lib: Lib, ids: map<nat, nat>, bs: seq<Block>, i: nat, k: nat) returns (n: nat)
    requires i < |bs| && k < |bs[i].difo.relocs|
    ensures n < |RelTab(lib, ids, 0, bs)|
    ensures RelTab(lib, ids, 0, bs)[n] == Entry(lib, ids, Len(bs[..i]), bs[i].inlined, bs[i].difo.relocs[k])
  {
    hide Len, RelLen, RelTab, Entry;
    EntriesOf(lib, ids, bs, i);
    n := RelLen(bs[..i]) + k;
    var m := RelLen(bs[..i]);
    assert RelTab(lib, ids, 0, bs)[m..m + |bs[i].difo.relocs|][k] == RelTab(lib, ids, 0, bs)[n];
  }

  /** Every call to a function other than the program itself lands on the first
      instruction of that function, which is in the image exactly once. */
  lemma CallsLand(lib: Lib, root: Block, ids: map<nat, nat>, i: nat, k: nat) returns (j: nat)
    requires !root.inlined && Image(lib, root).Some? && GoodBlocks(Image(lib, root).value.blocks)
    requires var bs := Image(lib, root).value.blocks;
      && i < |bs| && !bs[i].inlined && k < |bs[i].difo.relocs|
      && var r := bs[i].difo.relocs[k];
         r.typ == Abs32 && r.name in lib && lib[r.name].Func? && root.name != Some(r.name)
    ensures 0 < j < |Image(lib, root).value.blocks|
    ensures var bs := Image(lib, root).value.blocks; var r := bs[i].difo.relocs[k];
      var at := Len(bs[..i]) + r.off; var start := Len(bs[..j]);
      && bs[j].name == Some(r.name)
      && (forall j' :: 0 < j' < |bs| && bs[j'].name == Some(r.name) ==> j' == j)
      && at < Len(bs) && LinkedCode(lib, ids, bs)[at].imm == Low(start - at - 1)
      && Standing(lib, ids, bs, j)
  {
    hide Low, Len, LinkedCode, Reached, FinalIds, Code, Standing;
    ImageBlocks(lib, root);
    var t := Image(lib, root).value;
    var bs := t.blocks;
    var r := bs[i].difo.relocs[k];
    assert r.name in t.ref;
    j :| 0 < j < |bs| && bs[j].name == Some(r.name);
    FinalPlace(ids, bs, j);
    StoredImm(lib, ids, bs, i, k);
    BlockStands(lib, ids, bs, j);
  }

  /** From the start of block j on there are its instructions, immediates apart. */
  ghost predicate Standing(lib: Lib, ids: map<nat, nat>, bs: seq<Block>, j: nat)
    requires |bs| > 0 && GoodBlocks(bs) && j < |bs|
  {
    var start := Len(bs[..j]);
    && start + |bs[j].difo.code| <= Len(bs)
    && forall p :: 0 <= p < |bs[j].difo.code| ==>
         var ins := LinkedCode(lib, ids, bs)[start + p];
         ins.code == bs[j].difo.code[p].code && ins.rest == bs[j].difo.code[p].rest
  }

  lemma BlockStands(lib: Lib, ids: map<nat, nat>, bs: seq<Block>, j: nat)
    requires |bs| > 0 && GoodBlocks(bs) && j < |bs|
    ensures Standing(lib, ids, bs, j)
  {
    hide Low, Len, LinkedCode, Code;
    CodeOf(bs, j);
    forall p | 0 <= p < |bs[j].difo.code|
      ensures var ins := LinkedCode(lib, ids, bs)[Len(bs[..j]) + p];
        ins.code == bs[j].difo.code[p].code && ins.rest == bs[j].difo.code[p].rest
    {
      OpcodeKept(lib, ids, bs, Len(bs[..j]) + p);
      assert Code(bs)[Len(bs[..j])..Len(bs[..j]) + |bs[j].difo.code|][p] == bs[j].difo.code[p];
    }
  }

  /** A call made in a block that was linked before keeps its distance: wherever the block is
      placed, the call lands on instruction `data` of the same block. */
  lemma InlinedCallsLand(lib: Lib, ids: map<nat, nat>, bs: seq<Block>, i: nat, k: nat)
    requires |bs| > 0 && GoodBlocks(bs) && i < |bs| && bs[i].inlined && k < |bs[i].difo.relocs|
    requires var r := bs[i].difo.relocs[k]; r.typ == Abs32 && r.name in lib && lib[r.name].Func?
    ensures var r := bs[i].difo.relocs[k]; var start := Len(bs[..i]); var at := start + r.off;
      && at < Len(bs) && LinkedCode(lib, ids, bs)[at].imm == Low(start + r.data - at - 1) == Low(r.data - r.off - 1)
      && Standing(lib, ids, bs, i)
  {
    hide Low, Len, LinkedCode, Standing;
    StoredImm(lib, ids, bs, i, k);
    BlockStands(lib, ids, bs, i);
  }

  lemma OpcodeKept(lib: Lib, ids: map<nat, nat>, bs: seq<Block>, p: nat)
    requires |bs| > 0 && GoodBlocks(bs) && p < Len(bs)
    ensures LinkedCode(lib, ids, bs)[p].code == Code(bs)[p].code && LinkedCode(lib, ids, bs)[p].rest == Code(bs)[p].rest
  {
    hide Code, Len;
    FinalTabSpaced(lib, ids, bs);
    ResolveAt(lib, Code(bs), FinalTab(lib, ids, bs), |FinalTab(lib, ids, bs)|, p);
  }

  /** Layout never gives the program's own identifier a value, so a call to it is made from
      whatever the identifier held before. It lands on the program exactly if that was 0. */
  lemma CallToItself(lib: Lib, root: Block, ids: map<nat, nat>, i: nat, k: nat)
    requires !root.inlined && Image(lib, root).Some? && GoodBlocks(Image(lib, root).value.blocks)
    requires var bs := Image(lib, root).value.blocks;
      && i < |bs| && !bs[i].inlined && k < |bs[i].difo.relocs|
      && var r := bs[i].difo.relocs[k];
         r.typ == Abs32 && r.name in lib && lib[r.name].Func? && root.name == Some(r.name)
    ensures var bs := Image(lib, root).value.blocks; var r := bs[i].difo.relocs[k];
      var at := Len(bs[..i]) + r.off;
      && bs[0] == root && at < Len(bs) && LinkedCode(lib, ids, bs)[at].imm == Low(IdOf(ids, r.name) - at - 1)
      && (LinkedCode(lib, ids, bs)[at].imm == Low(0 - at - 1) <==> Low(IdOf(ids, r.name)) == 0)
  {
    hide Low, Len, LinkedCode;
    var ref := RootRef(root);
    ReachedFresh(lib, ref, root.difo.relocs);
    var bs := Image(lib, root).value.blocks;
    var r := bs[i].difo.relocs[k];
    assert bs[1..] == Reached(lib, ref, root.difo.relocs).value.blocks;
    PlacesKeep(ids, |bs[0].difo.code|, bs[1..], r.name);
    StoredImm(lib, ids, bs, i, k);
    LowShift(IdOf(ids, r.name), Len(bs[..i]) + r.off + 1);
  }

  lemma LowShift(a: nat, b: nat)
    ensures Low(a - b) == Low(0 - b) <==> Low(a) == 0
  {
  }

  /** A program that calls itself, of one instruction. */
  function Recursive(): Block {
    Block(Some(1), Difo([Ins(0x85, 0, 0)], [Reloc(0, 1, Abs32, 0)], 0), false)
  }

  /** If its identifier has no value yet, the call is not to itself. */
  lemma CallGoesAstray()
    ensures var lib := map[1 := Func(Some(Recursive().difo), false)];
      && Image(lib, Recursive()) == Some(Trace({1}, [Recursive()])) && GoodBlocks([Recursive()])
      && LinkedCode(lib, map[], [Recursive()])[0].imm == Low(UNDEF - 1) != Low(0 - 1)
  {
    hide LinkedCode;
    var lib := map[1 := Func(Some(Recursive().difo), false)];
    var bs := [Recursive()];
    assert Reached(lib, {1}, Recursive().difo.relocs) == Some(Trace({1}, [])) by {
      assert Recursive().difo.relocs[1..] == [];
    }
    assert [Recursive()] + [] == bs && bs[..0] == [];
    CallToItself(lib, Recursive(), map[], 0, 0);
  }
}
