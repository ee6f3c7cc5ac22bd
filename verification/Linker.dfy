/** The linker's passes: layout assigns places, construct fills the image, resolve
    stores constants and call distances. */
module Linking {
  import opened Wrappers
  import opened LinkSpec

  class Linker {
    const lib: Lib
    /** Identifiers already referenced, and the values of function identifiers. */
    var ref: set<nat>
    var ids: map<nat, nat>
    /** Running instruction, relocation and variable counts. */
    var pc: nat
    var rc: nat
    var vc: nat

    constructor (lib: Lib, ids: map<nat, nat>)
      ensures this.lib == lib && this.ids == ids && ref == {}
    {
      this.lib, this.ids, ref := lib, ids, {};
      pc, rc, vc := 0, 0, 0;
    }

    ghost predicate Advanced(pc0: nat, rc0: nat, vc0: nat, bs: seq<Block>)
      reads this
    {
      pc == pc0 + Len(bs) && rc == rc0 + RelLen(bs) && vc == vc0 + VarLen(bs)
    }

    // ----- layout -----

    /** Accounts for one function and what it needs; the caller records its place. */
    method LayoutFunc(name: nat) returns (at: Option<nat>)
      requires IsNew(lib, ref, name)
      modifies this
      decreases lib.Keys - ref, 0
      ensures at.Some? <==> Place(lib, old(ref), name).Some?
      ensures at.Some? ==>
        var t := Place(lib, old(ref), name).value;
        && at.value == old(pc) && ref == t.ref && Advanced(old(pc), old(rc), old(vc), t.blocks)
        && |t.blocks| > 0 && t.blocks[0].name == Some(name)
        && (forall i :: 0 < i < |t.blocks| ==> t.blocks[i].name != Some(name))
        && ids == Places(old(ids), old(pc) + |t.blocks[0].difo.code|, t.blocks[1..])
    {
      hide Reached, Len, RelLen, VarLen, Places, FreshBlocks;
      var f := lib[name];
      if f.difo.None? {
        return None;
      }
      ghost var ref0, ids0, pc0, rc0, vc0 := ref, ids, pc, rc, vc;
      ghost var b := Block(Some(name), f.difo.value, f.inlined);
      at := Some(pc);
      ref := ref + {name};
      pc, rc, vc := pc + |f.difo.value.code|, rc + |f.difo.value.relocs|, vc + f.difo.value.nvars;
      OneBlock(lib, ids, pc0, b);
      if f.inlined {
        NoPlaces(ids, pc);
        return;
      }
      assert name in lib.Keys - ref0 && name !in lib.Keys - ref;
      var ok := LayoutRelocs(f.difo.value.relocs);
      if !ok {
        return None;
      }
      ghost var below := Reached(lib, ref0 + {name}, f.difo.value.relocs).value;
      SizesConcat([b], below.blocks);
      FreshNames(lib, ref0 + {name}, f.difo.value.relocs, name);
      assert ([b] + below.blocks)[1..] == below.blocks;
    }

    method LayoutRelocs(relocs: seq<Reloc>) returns (ok: bool)
      modifies this
      decreases lib.Keys - ref, 1
      ensures ok <==> Reached(lib, old(ref), relocs).Some?
      ensures ok ==>
        var t := Reached(lib, old(ref), relocs).value;
        ref == t.ref && Advanced(old(pc), old(rc), old(vc), t.blocks) && ids == Places(old(ids), old(pc), t.blocks)
    {
      hide Place, Len, RelLen, VarLen, Places;
      ghost var ref0, ids0, pc0, rc0, vc0 := ref, ids, pc, rc, vc;
      ghost var done: seq<Block> := [];
      ghost var total := Reached(lib, ref, relocs);
      Nothing(ids, pc);
      assert total.Some? ==> total.value.blocks == done + total.value.blocks;
      var i := 0;
      assert relocs[0..] == relocs;
      while i < |relocs|
        invariant 0 <= i <= |relocs| && ref0 <= ref
        invariant Advanced(pc0, rc0, vc0, done) && ids == Places(ids0, pc0, done)
        invariant var rest := Reached(lib, ref, relocs[i..]);
          total == if rest.None? then None else Some(Trace(rest.value.ref, done + rest.value.blocks))
      {
        var name := relocs[i].name;
        assert relocs[i..][1..] == relocs[i + 1..];
        if IsNew(lib, ref, name) {
          ghost var here := Place(lib, ref, name);
          ghost var before, refi := ids, ref;
          var at := LayoutFunc(name);
          if at.None? {
            return false;
          }
          ids := ids[name := at.value];
          PlacedLast(before, at.value, here.value.blocks, name);
          PlacesConcat(ids0, pc0, done, here.value.blocks);
          SizesConcat(done, here.value.blocks);
          ghost var rest := Reached(lib, here.value.ref, relocs[i + 1..]);
          if rest.Some? {
            assert (done + here.value.blocks) + rest.value.blocks == done + (here.value.blocks + rest.value.blocks);
          }
          done := done + here.value.blocks;
        }
        i := i + 1;
      }
      assert done + [] == done;
      ok := true;
    }

    /** The layout pass: totals, and the place of every function reached. */
    method Layout(root: Block) returns (ok: bool)
      requires ref == {}
      modifies this
      ensures ref == {} && (ok <==> Image(lib, root).Some?)
      ensures ok ==>
        var bs := Image(lib, root).value.blocks;
        pc == Len(bs) && rc == RelLen(bs) && vc == VarLen(bs) && |bs| > 0 && ids == FinalIds(old(ids), bs)
    {
      hide Reached, Len, RelLen, VarLen, Places;
      OneBlock(lib, ids, 0, root);
      NoPlaces(ids, |root.difo.code|);
      ref := RootRef(root);
      pc, rc, vc := |root.difo.code|, |root.difo.relocs|, root.difo.nvars;
      ok := true;
      if !root.inlined {
        ok := LayoutRelocs(root.difo.relocs);
        if ok {
          ghost var below := Reached(lib, RootRef(root), root.difo.relocs).value.blocks;
          SizesConcat([root], below);
          assert ([root] + below)[1..] == below;
        }
      }
      ref := {};
    }

    // ----- construction -----

    ghost predicate Room(buf: array<Ins>, rel: array<Reloc>, bs: seq<Block>)
      reads this
    {
      pc + Len(bs) <= buf.Length && rc + RelLen(bs) <= rel.Length
    }

    method CopyCode(code: seq<Ins>, buf: array<Ins>)
      requires pc + |code| <= buf.Length
      modifies `pc, buf
      ensures pc == old(pc) + |code| && buf[..pc] == old(buf[..pc]) + code
    {
      ghost var before := buf[..pc];
      var i := 0;
      while i < |code|
        invariant 0 <= i <= |code| && pc == old(pc)
        invariant buf[..pc + i] == before + code[..i]
      {
        buf[pc + i] := code[i];
        i := i + 1;
        assert buf[..pc + i] == buf[..pc + i - 1] + [code[i - 1]];
        assert code[..i] == code[..i - 1] + [code[i - 1]];
      }
      assert code[..i] == code;
      pc := pc + |code|;
    }

    method CopyRelocs(s: nat, relocs: seq<Reloc>, rel: array<Reloc>)
      requires rc + |relocs| <= rel.Length
      modifies `rc, rel
      ensures rc == old(rc) + |relocs|
      ensures rel[..rc] == old(rel[..rc]) + CopiedAll(lib, ids, s, relocs)
    {
      hide Copied;
      ghost var before, all := rel[..rc], CopiedAll(lib, ids, s, relocs);
      var i := 0;
      while i < |relocs|
        invariant 0 <= i <= |relocs| && rc == old(rc)
        invariant rel[..rc + i] == before + all[..i]
      {
        rel[rc + i] := Copied(lib, ids, s, relocs[i]);
        i := i + 1;
        assert rel[..rc + i] == rel[..rc + i - 1] + [all[i - 1]];
        assert all[..i] == all[..i - 1] + [all[i - 1]];
      }
      assert all[..i] == all;
      rc := rc + |relocs|;
    }

    method ConstructFunc(name: nat, buf: array<Ins>, rel: array<Reloc>) returns (at: nat)
      requires IsNew(lib, ref, name) && Place(lib, ref, name).Some?
      requires Room(buf, rel, Place(lib, ref, name).value.blocks) && Agree(ids, pc, Place(lib, ref, name).value.blocks)
      modifies this, buf, rel
      decreases lib.Keys - ref, 0
      ensures var t := Place(lib, old(ref), name).value;
        && at == old(pc) && ref == t.ref && ids == old(ids) && Advanced(old(pc), old(rc), old(vc), t.blocks)
        && buf[..pc] == old(buf[..pc]) + Code(t.blocks)
        && rel[..rc] == old(rel[..rc]) + RelTab(lib, ids, old(pc), t.blocks)
        && name in ids && ids[name] == at
    {
      hide Reached, Len, RelLen, VarLen, Code, RelTab;
      var f := lib[name];
      var b := Block(Some(name), f.difo.value, f.inlined);
      at := pc;
      FirstPlace(lib, ref, ids, pc, name);
      assert name in lib.Keys - ref && name !in lib.Keys - (ref + {name});
      ref := ref + {name};
      Construct(b, buf, rel);
    }

    /** Copies a block, its relocations, and then everything the relocations need. */
    method Construct(b: Block, buf: array<Ins>, rel: array<Reloc>)
      requires Below(lib, ref, b, 0).Some?
      requires Room(buf, rel, [b] + Below(lib, ref, b, 0).value.blocks)
      requires Agree(ids, pc + |b.difo.code|, Below(lib, ref, b, 0).value.blocks)
      modifies this, buf, rel
      decreases lib.Keys - ref, 3
      ensures var t := Below(lib, old(ref), b, 0).value; var bs := [b] + t.blocks;
        && ref == t.ref && ids == old(ids) && Advanced(old(pc), old(rc), old(vc), bs)
        && buf[..pc] == old(buf[..pc]) + Code(bs)
        && rel[..rc] == old(rel[..rc]) + RelTab(lib, ids, old(pc), bs)
    {
      hide Below, Len, RelLen, VarLen, Code, RelTab, Agree, Entries, Here;
      ghost var bs := Below(lib, ref, b, 0).value.blocks;
      ghost var pc0 := pc;
      var start, slot := pc, rc;
      SizesConcat([b], bs);
      OneBlock(lib, ids, pc, b);
      CopyCode(b.difo.code, buf);
      vc := vc + b.difo.nvars;
      CopyRelocs(start, b.difo.relocs, rel);
      ConstructRelocs(b, start, slot, buf, rel);
      CodeConcat([b], bs);
      RelTabConcat(lib, ids, pc0, [b], bs);
    }

    /** Handles the relocations of block b, whose copies are at slot and after. */
    method ConstructRelocs(b: Block, start: nat, slot: nat, buf: array<Ins>, rel: array<Reloc>)
      requires pc <= buf.Length && rc <= rel.Length && slot + |b.difo.relocs| == rc
      requires rel[slot..rc] == CopiedAll(lib, ids, start, b.difo.relocs)
      requires Below(lib, ref, b, 0).Some? && Room(buf, rel, Below(lib, ref, b, 0).value.blocks)
      requires Agree(ids, pc, Below(lib, ref, b, 0).value.blocks)
      modifies this, buf, rel
      decreases lib.Keys - ref, 2
      ensures var t := Below(lib, old(ref), b, 0).value;
        && ref == t.ref && ids == old(ids) && Advanced(old(pc), old(rc), old(vc), t.blocks)
        && buf[..pc] == old(buf[..pc]) + Code(t.blocks)
        && rel[..rc] == old(rel[..slot]) + Entries(lib, ids, start, b) + RelTab(lib, ids, old(pc), t.blocks)
    {
      hide Below, Here, Grown, Ahead, Entry, Copied, Len, RelLen, VarLen, Code, RelTab, Agree, CopiedAll, Entries;
      ghost var was := Sizes(pc, rc, vc);
      ghost var ref0, code0, rel0 := ref, buf[..pc], rel[..slot];
      ghost var done: seq<Block> := [];
      assert rel[..rc][slot..] == rel[slot..rc] && rel[..rc][..slot] == rel0;
      GrownStart(lib, ids, b, start, was, rel[..rc], slot, code0);
      AheadStart(lib, ids, ref, b, was, buf.Length, rel.Length);
      var i := 0;
      while i < |b.difo.relocs|
        invariant 0 <= i <= |b.difo.relocs| && ref0 <= ref && ids == old(ids)
        invariant pc <= buf.Length && slot + |b.difo.relocs| <= rc <= rel.Length
        invariant Ahead(lib, ids, ref0, ref, b, i, done, Sizes(pc, rc, vc), buf.Length, rel.Length)
        invariant Grown(lib, ids, b, start, i, was, code0, rel0, done, Sizes(pc, rc, vc), buf[..pc], rel[..rc])
      {
        ghost var here := AheadStep(lib, ids, ref0, ref, b, i, done, Sizes(pc, rc, vc), buf.Length, rel.Length);
        GrownStep(lib, ids, b, start, i, was, code0, rel0, done, Sizes(pc, rc, vc), buf[..pc], rel[..rc], here.blocks);
        assert rel[..rc][slot + i] == rel[slot + i];
        ConstructReloc(b, i, start, slot, buf, rel);
        done := done + here.blocks;
        i := i + 1;
      }
      AheadEnd(lib, ids, ref0, ref, b, done, Sizes(pc, rc, vc), buf.Length, rel.Length);
      GrownEnd(lib, ids, b, start, was, code0, rel0, done, Sizes(pc, rc, vc), buf[..pc], rel[..rc]);
    }

    /** Handles relocation i of block b, whose copy is at slot + i. */
    method ConstructReloc(b: Block, i: nat, start: nat, slot: nat, buf: array<Ins>, rel: array<Reloc>)
      requires i < |b.difo.relocs| && slot + i < rc <= rel.Length && pc <= buf.Length
      requires rel[slot + i] == Copied(lib, ids, start, b.difo.relocs[i])
      requires Here(lib, ref, b, b.difo.relocs[i]).Some?
      requires Room(buf, rel, Here(lib, ref, b, b.difo.relocs[i]).value.blocks)
      requires Agree(ids, pc, Here(lib, ref, b, b.difo.relocs[i]).value.blocks)
      modifies this, buf, rel
      decreases lib.Keys - ref, 1
      ensures var t := Here(lib, old(ref), b, b.difo.relocs[i]).value;
        && ref == t.ref && ids == old(ids) && Advanced(old(pc), old(rc), old(vc), t.blocks)
        && buf[..pc] == old(buf[..pc]) + Code(t.blocks)
        && rel[..rc] == old(rel[..rc])[slot + i := Entry(lib, ids, start, b.inlined, b.difo.relocs[i])]
                        + RelTab(lib, ids, old(pc), t.blocks)
    {
      hide Place, Len, RelLen, VarLen, Code, RelTab, Agree;
      NoBlocks(lib, ids, pc);
      var r := b.difo.relocs[i];
      ghost var rel0 := rel[..rc];
      assert rel0[slot + i] == rel[slot + i];
      if r.name !in lib {
        return;
      }
      match lib[r.name]
      case Scalar(v) =>
        rel[slot + i] := if b.inlined then rel[slot + i].(typ := Void) else rel[slot + i].(data := v);
        assert rel[..rc] == rel0[slot + i := rel[slot + i]];
      case Func(_, _) =>
        if b.inlined {
          rel[slot + i] := rel[slot + i].(data := r.data + start);
          assert rel[..rc] == rel0[slot + i := rel[slot + i]];
        } else if r.name !in ref {
          var at := ConstructFunc(r.name, buf, rel);
          ids := ids[r.name := at];
          rel[slot + i] := rel[slot + i].(data := at);
        }
    }

    // ----- resolution -----

    method ResolveAll(buf: array<Ins>, rel: array<Reloc>)
      requires forall i :: 0 <= i < rel.Length ==> rel[i].off + Width(rel[i]) <= buf.Length
      modifies buf
      ensures forall i :: 0 <= i < rel.Length ==> rel[i].off + Width(rel[i]) <= buf.Length
      ensures buf[..] == Resolve(lib, old(buf[..]), rel[..], rel.Length)
    {
      hide RelValue, Low;
      ghost var before, tab := buf[..], rel[..];
      var i := 0;
      while i < rel.Length
        invariant 0 <= i <= rel.Length && rel[..] == tab
        invariant buf[..] == Resolve(lib, before, tab, i)
      {
        var r := rel[i];
        if r.name in lib && r.typ != Void {
          var v := RelValue(lib, r);
          buf[r.off] := buf[r.off].(imm := Low(v));
          if r.typ == Abs64 {
            buf[r.off + 1] := buf[r.off + 1].(imm := Low(v / W32));
          }
        }
        i := i + 1;
      }
    }

    /** Links a program: the result holds each function reached exactly once. */
    method Link(root: Block) returns (out: Option<Difo>)
      requires ref == {}
      requires GoodLib(lib) && Spaced(root.difo.relocs, 0, |root.difo.code|)
      modifies this
      ensures ref == {} && (out.Some? <==> Image(lib, root).Some?)
      ensures out.Some? ==>
        var bs := Image(lib, root).value.blocks;
        && |bs| > 0 && GoodBlocks(bs) && ids == map[]
        && out.value == Difo(LinkedCode(lib, old(ids), bs), FinalTab(lib, old(ids), bs), VarLen(bs))
    {
      hide Image, Below, Agree, Len, RelLen, VarLen, Code, RelTab, Spaced, FinalIds, GoodBlocks, Resolve;
      ghost var ids0 := ids;
      var ok := Layout(root);
      if !ok {
        return None;
      }
      ghost var bs := Image(lib, root).value.blocks;
      var buf, rel := ConstructAll(root, ids0);
      InRange(lib, ids0, bs);
      assert forall i :: 0 <= i < rel.Length ==> rel[i] == rel[..][i];
      ResolveAll(buf, rel);
      out := Some(Difo(buf[..], rel[..], vc));
    }

    /** Allocates what layout counted and fills exactly that. */
    method ConstructAll(root: Block, ghost ids0: map<nat, nat>) returns (buf: array<Ins>, rel: array<Reloc>)
      requires Image(lib, root).Some? && GoodLib(lib) && Spaced(root.difo.relocs, 0, |root.difo.code|)
      requires var bs := Image(lib, root).value.blocks;
        |bs| > 0 && pc == Len(bs) && rc == RelLen(bs) && ids == FinalIds(ids0, bs)
      modifies this
      ensures fresh(buf) && fresh(rel) && ref == {} && ids == map[]
      ensures var bs := Image(lib, root).value.blocks;
        && |bs| > 0 && GoodBlocks(bs) && vc == VarLen(bs)
        && buf[..] == Code(bs) && rel[..] == FinalTab(lib, ids0, bs)
    {
      hide Image, Below, Agree, Len, RelLen, VarLen, Code, RelTab, Spaced, FinalIds, GoodBlocks;
      ReadyToConstruct(lib, root, ids0);
      buf := new Ins[pc](_ => Ins(0, 0, 0));
      rel := new Reloc[rc](_ => Reloc(0, 0, Void, 0));
      pc, rc, vc := 0, 0, 0;
      ref := RootRef(root);
      Construct(root, buf, rel);
      assert buf[..0] == [] && rel[..0] == [] && buf[..pc] == buf[..] && rel[..rc] == rel[..];
      ref, ids := {}, map[];
    }
  }

  lemma NoPlaces(ids: map<nat, nat>, pc: nat)
    ensures forall b: Block :: Places(ids, pc, [b][1..]) == ids
  {
  }

  lemma Nothing(ids: map<nat, nat>, pc: nat)
    ensures Len([]) == 0 && RelLen([]) == 0 && VarLen([]) == 0 && Places(ids, pc, []) == ids
  {
  }

  /** A function is not among the functions it needs. */
  lemma FreshNames(lib: Lib, ref: set<nat>, relocs: seq<Reloc>, name: nat)
    requires Reached(lib, ref, relocs).Some? && name in ref
    ensures forall i :: 0 <= i < |Reached(lib, ref, relocs).value.blocks| ==>
      Reached(lib, ref, relocs).value.blocks[i].name != Some(name)
  {
    ReachedFresh(lib, ref, relocs);
  }

  lemma {:induction false} PlacesUpdate(ids: map<nat, nat>, pc: nat, bs: seq<Block>, name: nat, v: nat)
    requires forall i :: 0 <= i < |bs| ==> bs[i].name != Some(name)
    ensures Places(ids[name := v], pc, bs) == Places(ids, pc, bs)[name := v]
    decreases |bs|
  {
    hide Len;
    if bs != [] {
      PlacesUpdate(ids, pc, bs[..|bs| - 1], name, v);
    }
  }

  /** Recording a function's place after those of its dependencies gives the same map. */
  lemma PlacedLast(ids: map<nat, nat>, pc: nat, bs: seq<Block>, name: nat)
    requires |bs| > 0 && bs[0].name == Some(name) && forall i :: 0 < i < |bs| ==> bs[i].name != Some(name)
    ensures Places(ids, pc + |bs[0].difo.code|, bs[1..])[name := pc] == Places(ids, pc, bs)
  {
    hide Len, Places;
    assert bs == [bs[0]] + bs[1..];
    OneBlock(map[], ids, pc, bs[0]);
    PlacesConcat(ids, pc, [bs[0]], bs[1..]);
    PlacesUpdate(ids, pc + |bs[0].difo.code|, bs[1..], name, pc);
  }

  // ----- construction -----

  /** A relocation as first copied, before its symbol is looked at. */
  function Copied(lib: Lib, ids: map<nat, nat>, s: nat, r: Reloc): Reloc {
    Reloc(r.off + s, r.name, r.typ, if r.name in lib && lib[r.name].Func? then IdOf(ids, r.name) else r.data)
  }

  /** What relocation r of block b adds to the image. */
  function Here(lib: Lib, ref: set<nat>, b: Block, r: Reloc): Option<Trace> {
    if b.inlined || !IsNew(lib, ref, r.name) then Some(Trace(ref, [])) else Place(lib, ref, r.name)
  }

  /** What the relocations of block b from i on add. */
  function Below(lib: Lib, ref: set<nat>, b: Block, i: nat): Option<Trace>
    requires i <= |b.difo.relocs|
  {
    if b.inlined then Some(Trace(ref, [])) else Reached(lib, ref, b.difo.relocs[i..])
  }

  lemma BelowStep(lib: Lib, ref: set<nat>, b: Block, i: nat)
    requires i < |b.difo.relocs| && Below(lib, ref, b, i).Some?
    ensures var here := Here(lib, ref, b, b.difo.relocs[i]);
      && here.Some?
      && var rest := Below(lib, here.value.ref, b, i + 1);
      && rest.Some? && Below(lib, ref, b, i).value == Trace(rest.value.ref, here.value.blocks + rest.value.blocks)
  {
    hide Place;
    assert b.difo.relocs[i..][1..] == b.difo.relocs[i + 1..];
    var here := Here(lib, ref, b, b.difo.relocs[i]);
    if here.Some? && here.value.blocks == [] {
      var rest := Below(lib, here.value.ref, b, i + 1);
      assert rest.Some? ==> [] + rest.value.blocks == rest.value.blocks;
    }
  }

  lemma BelowEnd(lib: Lib, ref: set<nat>, b: Block)
    ensures Below(lib, ref, b, |b.difo.relocs|) == Some(Trace(ref, []))
  {
  }

  /** Every identifier already holds the place its block will get. */
  ghost predicate Agree(ids: map<nat, nat>, pc: nat, bs: seq<Block>) {
    forall i :: 0 <= i < |bs| && bs[i].name.Some? ==>
      bs[i].name.value in ids && ids[bs[i].name.value] == pc + Len(bs[..i])
  }

  lemma AgreeSplit(ids: map<nat, nat>, pc: nat, a: seq<Block>, b: seq<Block>)
    requires Agree(ids, pc, a + b)
    ensures Agree(ids, pc, a) && Agree(ids, pc + Len(a), b)
  {
    hide Len;
    forall i | 0 <= i < |a| && a[i].name.Some?
      ensures a[i].name.value in ids && ids[a[i].name.value] == pc + Len(a[..i])
    {
      assert (a + b)[i] == a[i] && (a + b)[..i] == a[..i];
    }
    forall i | 0 <= i < |b| && b[i].name.Some?
      ensures b[i].name.value in ids && ids[b[i].name.value] == pc + Len(a) + Len(b[..i])
    {
      assert (a + b)[|a| + i] == b[i] && (a + b)[..|a| + i] == a + b[..i];
      SizesConcat(a, b[..i]);
    }
  }

  /** Layout's values agree with the places construction uses. */
  lemma LayoutAgrees(lib: Lib, ref: set<nat>, relocs: seq<Reloc>, ids: map<nat, nat>, pc: nat)
    requires Reached(lib, ref, relocs).Some?
    ensures var bs := Reached(lib, ref, relocs).value.blocks; Agree(Places(ids, pc, bs), pc, bs)
  {
    hide Len, Places;
    ReachedFresh(lib, ref, relocs);
    var bs := Reached(lib, ref, relocs).value.blocks;
    forall i | 0 <= i < |bs| && bs[i].name.Some?
      ensures bs[i].name.value in Places(ids, pc, bs) && Places(ids, pc, bs)[bs[i].name.value] == pc + Len(bs[..i])
    {
      PlaceOf(ids, pc, bs, i);
    }
  }

  function CopiedAll(lib: Lib, ids: map<nat, nat>, s: nat, relocs: seq<Reloc>): (t: seq<Reloc>)
    ensures |t| == |relocs|
  {
    seq(|relocs|, i requires 0 <= i < |relocs| => Copied(lib, ids, s, relocs[i]))
  }

  /** The relocations of b when the first i have been handled. */
  function Mixed(lib: Lib, ids: map<nat, nat>, s: nat, b: Block, i: nat): (t: seq<Reloc>)
    requires i <= |b.difo.relocs|
    ensures |t| == |b.difo.relocs|
  {
    Entries(lib, ids, s, b)[..i] + CopiedAll(lib, ids, s, b.difo.relocs)[i..]
  }

  lemma MixedStart(lib: Lib, ids: map<nat, nat>, s: nat, b: Block)
    ensures Mixed(lib, ids, s, b, 0) == CopiedAll(lib, ids, s, b.difo.relocs)
  {
  }

  lemma MixedEnd(lib: Lib, ids: map<nat, nat>, s: nat, b: Block)
    ensures Mixed(lib, ids, s, b, |b.difo.relocs|) == Entries(lib, ids, s, b)
  {
  }

  lemma MixedStep(lib: Lib, ids: map<nat, nat>, s: nat, b: Block, i: nat, before: seq<Reloc>, after: seq<Reloc>)
    requires i < |b.difo.relocs|
    ensures var now := before + Mixed(lib, ids, s, b, i) + after; var k := |before| + i;
      && now[k] == Copied(lib, ids, s, b.difo.relocs[i])
      && now[k := Entry(lib, ids, s, b.inlined, b.difo.relocs[i])] == before + Mixed(lib, ids, s, b, i + 1) + after
  {
    hide Copied, Entry;
    var e := Entry(lib, ids, s, b.inlined, b.difo.relocs[i]);
    assert Mixed(lib, ids, s, b, i)[i := e] == Mixed(lib, ids, s, b, i + 1);
  }

  lemma NoBlocks(lib: Lib, ids: map<nat, nat>, pc: nat)
    ensures Len([]) == 0 && RelLen([]) == 0 && VarLen([]) == 0 && Code([]) == [] && RelTab(lib, ids, pc, []) == []
  {
  }

  lemma FirstPlace(lib: Lib, ref: set<nat>, ids: map<nat, nat>, pc: nat, name: nat)
    requires IsNew(lib, ref, name) && Place(lib, ref, name).Some? && Agree(ids, pc, Place(lib, ref, name).value.blocks)
    ensures var b := Block(Some(name), lib[name].difo.value, lib[name].inlined);
      && Below(lib, ref + {name}, b, 0).Some?
      && Place(lib, ref, name).value ==
         Trace(Below(lib, ref + {name}, b, 0).value.ref, [b] + Below(lib, ref + {name}, b, 0).value.blocks)
      && Agree(ids, pc + |b.difo.code|, Below(lib, ref + {name}, b, 0).value.blocks) && name in ids && ids[name] == pc
  {
    hide Reached, Len;
    var b := Block(Some(name), lib[name].difo.value, lib[name].inlined);
    assert b.difo.relocs[0..] == b.difo.relocs;
    var below := Below(lib, ref + {name}, b, 0).value;
    var bs := Place(lib, ref, name).value.blocks;
    assert bs == [b] + below.blocks;
    assert bs[0].name == Some(name) && bs[..0] == [];
    NoBlocks(lib, ids, pc);
    OneBlock(lib, ids, pc, b);
    AgreeSplit(ids, pc, [b], below.blocks);
  }

  datatype Sizes = Sizes(pc: nat, rc: nat, vc: nat)

  /** The image so far, when i relocations of b have been handled and added `done`. */
  ghost predicate Grown(lib: Lib, ids: map<nat, nat>, b: Block, start: nat, i: nat, was: Sizes, code0: seq<Ins>,
      rel0: seq<Reloc>, done: seq<Block>, now: Sizes, code: seq<Ins>, rel: seq<Reloc>)
    requires i <= |b.difo.relocs|
  {
    && now == Sizes(was.pc + Len(done), was.rc + RelLen(done), was.vc + VarLen(done))
    && code == code0 + Code(done)
    && rel == rel0 + Mixed(lib, ids, start, b, i) + RelTab(lib, ids, was.pc, done)
  }

  lemma GrownStart(lib: Lib, ids: map<nat, nat>, b: Block, start: nat, was: Sizes, rel: seq<Reloc>, slot: nat,
      code: seq<Ins>)
    requires slot <= |rel| && rel[slot..] == CopiedAll(lib, ids, start, b.difo.relocs)
    ensures Grown(lib, ids, b, start, 0, was, code, rel[..slot], [], was, code, rel)
  {
    hide Len, RelLen, VarLen, Code, RelTab, Mixed, CopiedAll;
    NoBlocks(lib, ids, was.pc);
    MixedStart(lib, ids, start, b);
  }

  lemma GrownStep(lib: Lib, ids: map<nat, nat>, b: Block, start: nat, i: nat, was: Sizes, code0: seq<Ins>,
      rel0: seq<Reloc>,
      done: seq<Block>, now: Sizes, code: seq<Ins>, rel: seq<Reloc>, here: seq<Block>)
    requires i < |b.difo.relocs| && Grown(lib, ids, b, start, i, was, code0, rel0, done, now, code, rel)
    ensures |rel0| + i < |rel| && rel[|rel0| + i] == Copied(lib, ids, start, b.difo.relocs[i])
    ensures var e := Entry(lib, ids, start, b.inlined, b.difo.relocs[i]);
      Grown(lib, ids, b, start, i + 1, was, code0, rel0, done + here,
        Sizes(now.pc + Len(here), now.rc + RelLen(here), now.vc + VarLen(here)),
        code + Code(here), rel[|rel0| + i := e] + RelTab(lib, ids, now.pc, here))
  {
    hide Len, RelLen, VarLen, Code, RelTab, Mixed, Entry, Copied;
    SizesConcat(done, here);
    CodeConcat(done, here);
    RelTabConcat(lib, ids, was.pc, done, here);
    MixedStep(lib, ids, start, b, i, rel0, RelTab(lib, ids, was.pc, done));
  }

  lemma GrownEnd(lib: Lib, ids: map<nat, nat>, b: Block, start: nat, was: Sizes, code0: seq<Ins>, rel0: seq<Reloc>,
      done: seq<Block>, now: Sizes, code: seq<Ins>, rel: seq<Reloc>)
    requires Grown(lib, ids, b, start, |b.difo.relocs|, was, code0, rel0, done, now, code, rel)
    ensures now == Sizes(was.pc + Len(done), was.rc + RelLen(done), was.vc + VarLen(done))
    ensures code == code0 + Code(done) && rel == rel0 + Entries(lib, ids, start, b) + RelTab(lib, ids, was.pc, done)
  {
    MixedEnd(lib, ids, start, b);
  }

  /** What is still to come fits, and identifiers already say where it will be. */
  ghost predicate Ahead(lib: Lib, ids: map<nat, nat>, ref0: set<nat>, ref: set<nat>, b: Block, i: nat, done: seq<Block>,
      now: Sizes, codeLen: nat, relLen: nat)
    requires i <= |b.difo.relocs|
  {
    && Below(lib, ref0, b, 0).Some? && Below(lib, ref, b, i).Some?
    && var all := Below(lib, ref0, b, 0).value; var rest := Below(lib, ref, b, i).value;
    && all == Trace(rest.ref, done + rest.blocks)
    && now.pc + Len(rest.blocks) <= codeLen && now.rc + RelLen(rest.blocks) <= relLen && Agree(ids, now.pc, rest.blocks)
  }

  lemma AheadStart(lib: Lib, ids: map<nat, nat>, ref: set<nat>, b: Block, now: Sizes, codeLen: nat, relLen: nat)
    requires Below(lib, ref, b, 0).Some?
    requires var all := Below(lib, ref, b, 0).value;
      now.pc + Len(all.blocks) <= codeLen && now.rc + RelLen(all.blocks) <= relLen && Agree(ids, now.pc, all.blocks)
    ensures Ahead(lib, ids, ref, ref, b, 0, [], now, codeLen, relLen)
  {
    hide Below;
    assert [] + Below(lib, ref, b, 0).value.blocks == Below(lib, ref, b, 0).value.blocks;
  }

  lemma AheadStep(lib: Lib, ids: map<nat, nat>, ref0: set<nat>, ref: set<nat>, b: Block, i: nat, done: seq<Block>,
      now: Sizes, codeLen: nat, relLen: nat) returns (here: Trace)
    requires i < |b.difo.relocs| && Ahead(lib, ids, ref0, ref, b, i, done, now, codeLen, relLen)
    ensures Here(lib, ref, b, b.difo.relocs[i]) == Some(here) && ref <= here.ref
    ensures now.pc + Len(here.blocks) <= codeLen && now.rc + RelLen(here.blocks) <= relLen
    ensures Agree(ids, now.pc, here.blocks)
    ensures Ahead(lib, ids, ref0, here.ref, b, i + 1, done + here.blocks,
              Sizes(now.pc + Len(here.blocks), now.rc + RelLen(here.blocks), now.vc + VarLen(here.blocks)),
              codeLen, relLen)
  {
    hide Below, Len, RelLen, VarLen, Agree, Place;
    BelowStep(lib, ref, b, i);
    here := Here(lib, ref, b, b.difo.relocs[i]).value;
    var rest := Below(lib, here.ref, b, i + 1).value;
    SizesConcat(here.blocks, rest.blocks);
    AgreeSplit(ids, now.pc, here.blocks, rest.blocks);
    assert (done + here.blocks) + rest.blocks == done + (here.blocks + rest.blocks);
  }

  lemma AheadEnd(lib: Lib, ids: map<nat, nat>, ref0: set<nat>, ref: set<nat>, b: Block, done: seq<Block>, now: Sizes,
    codeLen: nat, relLen: nat)
    requires Ahead(lib, ids, ref0, ref, b, |b.difo.relocs|, done, now, codeLen, relLen)
    ensures Below(lib, ref0, b, 0) == Some(Trace(ref, done))
  {
    hide Below;
    BelowEnd(lib, ref, b);
    assert done + [] == done;
  }

  /** Every function of the library has well-formed relocations. */
  ghost predicate GoodLib(lib: Lib) {
    forall x :: x in lib && lib[x].Func? && lib[x].difo.Some? ==>
      Spaced(lib[x].difo.value.relocs, 0, |lib[x].difo.value.code|)
  }

  lemma InRange(lib: Lib, ids: map<nat, nat>, bs: seq<Block>)
    requires |bs| > 0 && GoodBlocks(bs)
    ensures var tab := FinalTab(lib, ids, bs);
      && |tab| == RelLen(bs) && forall i :: 0 <= i < |tab| ==> tab[i].off + Width(tab[i]) <= Len(bs)
  {
    hide RelTab, Len, RelLen, Code, FinalIds;
    FinalTabSpaced(lib, ids, bs);
  }

  lemma NothingAgrees(ids: map<nat, nat>, pc: nat)
    ensures Agree(ids, pc, [])
  {
  }

  lemma ReadyToConstruct(lib: Lib, root: Block, ids: map<nat, nat>)
    requires Image(lib, root).Some?
    requires GoodLib(lib) && Spaced(root.difo.relocs, 0, |root.difo.code|)
    ensures var bs := Image(lib, root).value.blocks; var below := Below(lib, RootRef(root), root, 0);
      && GoodBlocks(bs) && below.Some? && bs == [root] + below.value.blocks
      && Agree(FinalIds(ids, bs), |root.difo.code|, below.value.blocks)
  {
    hide Len, Places, Spaced, Agree;
    if root.inlined {
      assert [root] + [] == [root];
      NothingAgrees(FinalIds(ids, [root]), |root.difo.code|);
      return;
    }
    assert root.difo.relocs[0..] == root.difo.relocs;
    ReachedFresh(lib, RootRef(root), root.difo.relocs);
    LayoutAgrees(lib, RootRef(root), root.difo.relocs, ids, |root.difo.code|);
    var below := Reached(lib, RootRef(root), root.difo.relocs).value.blocks;
    assert ([root] + below)[1..] == below;
  }
}
