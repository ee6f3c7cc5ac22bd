/** Deduplication of the BTF string section.

    The section is a run of NUL-terminated strings, the first of them empty; records
    refer to strings by offset. */
module BtfStrings {
  import opened Wrappers

  /** One string of the section: where it starts, whether it is referred to, and where
      its text is in the new section. */
  datatype StrPtr = StrPtr(str: nat, used: bool, newOff: nat)

  // ----- the section -----

  function Text(data: seq<nat>, off: nat): (s: seq<nat>)
    ensures 0 !in s && (off <= |data| ==> off + |s| <= |data|)
    decreases |data| - off
  {
    if off < |data| && data[off] != 0 then [data[off]] + Text(data, off + 1) else []
  }

  predicate IsStart(data: seq<nat>, off: nat) {
    off < |data| && (off == 0 || data[off - 1] == 0)
  }

  /** Ends with a NUL, if it is not empty. */
  predicate Closed(data: seq<nat>) {
    data == [] || data[|data| - 1] == 0
  }

  /** A section as the loader accepts it. */
  predicate Section(data: seq<nat>) {
    data != [] && data[0] == 0 && Closed(data)
  }

  lemma {:induction false} TextShape(data: seq<nat>, off: nat)
    requires Closed(data) && off < |data|
    ensures var s := Text(data, off);
      && off + |s| < |data| && data[off + |s|] == 0
      && forall k :: off <= k < off + |s| ==> data[k] != 0
    decreases |data| - off
  {
    if data[off] != 0 {
      TextShape(data, off + 1);
      var s := Text(data, off);
      assert |s| == 1 + |Text(data, off + 1)|;
      forall k | off <= k < off + |s| ensures data[k] != 0 {
      }
    }
  }

  /** Appending does not change the text of the strings already there. */
  lemma {:induction false} TextKept(data: seq<nat>, more: seq<nat>, off: nat)
    requires Closed(data) && off < |data|
    ensures Text(data + more, off) == Text(data, off)
    decreases |data| - off
  {
    if data[off] != 0 {
      TextKept(data, more, off + 1);
    }
  }

  lemma {:induction false} TextWhole(before: seq<nat>, s: seq<nat>, k: nat)
    requires 0 !in s && k <= |s|
    ensures Text(before + s + [0], |before| + k) == s[k..]
    decreases |s| - k
  {
    if k < |s| {
      TextWhole(before, s, k + 1);
      assert s[k] in s;
    }
  }

  /** Appending a string adds exactly one start. */
  lemma AppendString(data: seq<nat>, s: seq<nat>)
    requires Closed(data) && 0 !in s
    ensures var d := data + s + [0];
      && Closed(d) && IsStart(d, |data|) && Text(d, |data|) == s
      && (forall o: nat :: IsStart(d, o) <==> IsStart(data, o) || o == |data|)
      && (forall o: nat :: IsStart(data, o) ==> Text(d, o) == Text(data, o))
  {
    hide Text, IsStart;
    var d := data + s + [0];
    TextWhole(data, s, 0);
    forall o: nat ensures IsStart(d, o) <==> IsStart(data, o) || o == |data| {
      StartsOf(data, s, o);
    }
    StartsOf(data, s, |data|);
    forall o: nat | IsStart(data, o) ensures Text(d, o) == Text(data, o) {
      StartInside(data, o);
      TextKept(data, s + [0], o);
      assert data + (s + [0]) == d;
    }
  }

  lemma StartInside(data: seq<nat>, o: nat)
    requires IsStart(data, o)
    ensures o < |data|
  {
  }

  lemma StartsOf(data: seq<nat>, s: seq<nat>, o: nat)
    requires Closed(data) && 0 !in s
    ensures IsStart(data + s + [0], o) <==> IsStart(data, o) || o == |data|
  {
    var d := data + s + [0];
    if |data| < o < |d| {
      assert d[o - 1] == s[o - 1 - |data|];
    }
  }

  // ----- the order of strings -----

  /** strcmp(s, t) <= 0. */
  predicate Leq(s: seq<nat>, t: seq<nat>) {
    s == [] || (t != [] && (s[0] < t[0] || (s[0] == t[0] && Leq(s[1..], t[1..]))))
  }

  predicate Less(s: seq<nat>, t: seq<nat>) {
    s != t && Leq(s, t)
  }

  lemma {:induction false} LeqTotal(s: seq<nat>, t: seq<nat>)
    ensures Leq(s, t) || Leq(t, s)
    ensures Leq(s, t) && Leq(t, s) ==> s == t
  {
    if s != [] && t != [] {
      LeqTotal(s[1..], t[1..]);
      if s[0] == t[0] && s[1..] == t[1..] {
        assert s == [s[0]] + s[1..] && t == [t[0]] + t[1..];
      }
    }
  }

  lemma {:induction false} LeqTrans(s: seq<nat>, t: seq<nat>, u: seq<nat>)
    requires Leq(s, t) && Leq(t, u)
    ensures Leq(s, u)
  {
    if s != [] && t != [] && u != [] && s[0] == t[0] == u[0] {
      LeqTrans(s[1..], t[1..], u[1..]);
    }
  }

  lemma LessTrans(s: seq<nat>, t: seq<nat>, u: seq<nat>)
    requires Leq(s, t) && Leq(t, u) && (s != t || t != u)
    ensures Less(s, u)
  {
    LeqTrans(s, t, u);
    LeqTotal(s, t);
    LeqTotal(t, u);
  }

  /** The strings of a section stand in strictly ascending order; so no two are equal. */
  ghost predicate Ascending(data: seq<nat>) {
    forall o1: nat, o2: nat :: IsStart(data, o1) && IsStart(data, o2) && o1 < o2 ==>
      Less(Text(data, o1), Text(data, o2))
  }

  ghost predicate AllBelow(data: seq<nat>, s: seq<nat>) {
    forall o: nat :: IsStart(data, o) ==> Less(Text(data, o), s)
  }

  lemma AppendAscending(data: seq<nat>, s: seq<nat>)
    requires Closed(data) && 0 !in s && Ascending(data) && AllBelow(data, s)
    ensures Ascending(data + s + [0])
  {
    hide Leq, Text;
    AppendString(data, s);
  }

  // ----- sorting -----

  predicate ByContent(data: seq<nat>, ps: seq<StrPtr>) {
    forall i, j :: 0 <= i < j < |ps| ==> Leq(Text(data, ps[i].str), Text(data, ps[j].str))
  }

  predicate ByOffset(ps: seq<StrPtr>) {
    forall i, j :: 0 <= i < j < |ps| ==> ps[i].str <= ps[j].str
  }

  method SortByContent(data: seq<nat>, ps: seq<StrPtr>) returns (s: seq<StrPtr>)
    ensures ByContent(data, s) && multiset(s) == multiset(ps)
  {
    hide Leq, Text;
    s := [];
    for i := 0 to |ps|
      invariant ByContent(data, s) && multiset(s) == multiset(ps[..i])
    {
      var k := |s|;
      LeqTotal(Text(data, ps[i].str), Text(data, ps[i].str));
      while k > 0 && !Leq(Text(data, s[k - 1].str), Text(data, ps[i].str))
        invariant 0 <= k <= |s|
        invariant forall j :: k <= j < |s| ==> Leq(Text(data, ps[i].str), Text(data, s[j].str))
      {
        LeqTotal(Text(data, s[k - 1].str), Text(data, ps[i].str));
        k := k - 1;
      }
      forall j | 0 <= j < k ensures Leq(Text(data, s[j].str), Text(data, ps[i].str)) {
        if j < k - 1 {
          LeqTrans(Text(data, s[j].str), Text(data, s[k - 1].str), Text(data, ps[i].str));
        }
      }
      Inserted(s, k, ps, i);
      s := s[..k] + [ps[i]] + s[k..];
    }
    assert ps[..|ps|] == ps;
  }

  method SortByOffset(ps: seq<StrPtr>) returns (s: seq<StrPtr>)
    ensures ByOffset(s) && multiset(s) == multiset(ps)
  {
    assert ByOffset([]);
    hide ByOffset;
    s := [];
    for i := 0 to |ps|
      invariant ByOffset(s) && multiset(s) == multiset(ps[..i])
    {
      var k := SlotFor(s, ps[i].str);
      InsertedByOffset(s, k, ps[i]);
      Inserted(s, k, ps, i);
      s := s[..k] + [ps[i]] + s[k..];
    }
    assert ps[..|ps|] == ps;
  }

  method SlotFor(s: seq<StrPtr>, str: nat) returns (k: nat)
    ensures k <= |s| && (k > 0 ==> s[k - 1].str <= str) && forall j :: k <= j < |s| ==> str <= s[j].str
  {
    k := |s|;
    while k > 0 && s[k - 1].str > str
      invariant 0 <= k <= |s|
      invariant forall j :: k <= j < |s| ==> str <= s[j].str
    {
      k := k - 1;
    }
  }

  lemma InsertedByOffset(s: seq<StrPtr>, k: nat, x: StrPtr)
    requires ByOffset(s) && k <= |s| && (k > 0 ==> s[k - 1].str <= x.str)
    requires forall j :: k <= j < |s| ==> x.str <= s[j].str
    ensures ByOffset(s[..k] + [x] + s[k..])
  {
    var t := s[..k] + [x] + s[k..];
    forall i, j | 0 <= i < j < |t| ensures t[i].str <= t[j].str {
      assert t[i] == if i < k then s[i] else if i == k then x else s[i - 1];
      assert t[j] == if j < k then s[j] else if j == k then x else s[j - 1];
    }
  }

  lemma Inserted(s: seq<StrPtr>, k: nat, ps: seq<StrPtr>, i: nat)
    requires k <= |s| && i < |ps| && multiset(s) == multiset(ps[..i])
    ensures multiset(s[..k] + [ps[i]] + s[k..]) == multiset(ps[..i + 1])
  {
    assert s == s[..k] + s[k..];
    assert ps[..i + 1] == ps[..i] + [ps[i]];
  }

  lemma SameMembers(a: seq<StrPtr>, b: seq<StrPtr>)
    requires multiset(a) == multiset(b)
    ensures |a| == |b| && forall x :: x in a <==> x in b
  {
    assert |multiset(a)| == |multiset(b)|;
    assert forall x :: x in a <==> x in multiset(a);
    assert forall x :: x in b <==> x in multiset(b);
  }

  // ----- the passes -----

  /** Exactly the strings of the section, in order. */
  ghost predicate Indexed(data: seq<nat>, ps: seq<StrPtr>) {
    && (forall x :: x in ps ==> IsStart(data, x.str))
    && (forall o: nat :: IsStart(data, o) ==> Listed(ps, o))
  }

  ghost predicate Listed(ps: seq<StrPtr>, o: nat) {
    exists x :: x in ps && x.str == o
  }

  /** Room the strings take, with their terminators. */
  function Weight(data: seq<nat>, ps: seq<StrPtr>): nat {
    if ps == [] then 0 else Weight(data, ps[..|ps| - 1]) + |Text(data, ps[|ps| - 1].str)| + 1
  }

  lemma {:induction false} WeightConcat(data: seq<nat>, a: seq<StrPtr>, b: seq<StrPtr>)
    ensures Weight(data, a + b) == Weight(data, a) + Weight(data, b)
    decreases |b|
  {
    hide Text;
    if b == [] {
      assert a + b == a;
    } else {
      assert (a + b)[..|a + b| - 1] == a + b[..|b| - 1];
      WeightConcat(data, a, b[..|b| - 1]);
    }
  }

  lemma Without(b: seq<StrPtr>, k: nat)
    requires k < |b|
    ensures multiset(b[..k] + b[k + 1..]) == multiset(b) - multiset{b[k]}
  {
    assert b == b[..k] + [b[k]] + b[k + 1..];
  }

  lemma WeightWithout(data: seq<nat>, b: seq<StrPtr>, k: nat)
    requires k < |b|
    ensures Weight(data, b) == Weight(data, b[..k] + b[k + 1..]) + |Text(data, b[k].str)| + 1
  {
    hide Text, Weight;
    WeightMore(data, b[..k], b[k]);
    WeightConcat(data, b[..k] + [b[k]], b[k + 1..]);
    WeightConcat(data, b[..k], b[k + 1..]);
    assert b == b[..k] + [b[k]] + b[k + 1..];
  }

  lemma {:induction false} WeightOfPermutation(data: seq<nat>, a: seq<StrPtr>, b: seq<StrPtr>)
    requires multiset(a) == multiset(b)
    ensures Weight(data, a) == Weight(data, b)
    decreases |a|
  {
    hide Text, Weight;
    SameMembers(a, b);
    if a == [] {
      assert a == b;
    } else {
      assert a[0] in b;
      var k :| 0 <= k < |b| && b[k] == a[0];
      Without(a, 0);
      Without(b, k);
      WeightWithout(data, a, 0);
      WeightWithout(data, b, k);
      WeightOfPermutation(data, a[..0] + a[1..], b[..k] + b[k + 1..]);
    }
  }

  /** x's text is in the new section, at the offset recorded for it. */
  predicate Moved(data: seq<nat>, out: seq<nat>, x: StrPtr) {
    IsStart(out, x.newOff) && Text(out, x.newOff) == Text(data, x.str)
  }

  predicate Known(data: seq<nat>, ref: nat) {
    ref == 0 || IsStart(data, ref)
  }

  class StringDedup {
    const data: seq<nat>
    var ptrs: seq<StrPtr>
    var out: seq<nat>

    constructor (data: seq<nat>)
      ensures this.data == data
    {
      this.data, ptrs, out := data, [], [];
    }

    /** Lists the strings of the section. */
    method Index()
      requires Section(data)
      modifies `ptrs
      ensures Indexed(data, ptrs) && InOrder(ptrs) && ptrs != [] && ptrs[0].str == 0
      ensures (forall x :: x in ptrs ==> !x.used) && Weight(data, ptrs) == |data|
    {
      hide Text, IndexedTo;
      ptrs := [];
      var p := 0;
      IndexStart(data);
      while p < |data|
        invariant p == |data| || IsStart(data, p)
        invariant IndexedTo(data, ptrs, p)
        decreases |data| - p
      {
        TextShape(data, p);
        IndexStep(data, ptrs, p);
        ptrs := ptrs + [StrPtr(p, false, 0)];
        p := p + |Text(data, p)| + 1;
      }
      IndexEnd(data, ptrs);
    }

    /** Finds the string that starts at an offset. */
    method Find(off: nat) returns (k: Option<nat>)
      requires ByOffset(ptrs)
      ensures k.None? ==> !Listed(ptrs, off)
      ensures k.Some? ==> k.value < |ptrs| && ptrs[k.value].str == off
    {
      var lo, hi := 0, |ptrs|;
      while lo < hi
        invariant 0 <= lo <= hi <= |ptrs|
        invariant forall j :: 0 <= j < |ptrs| && !(lo <= j < hi) ==> ptrs[j].str != off
      {
        var mid := (lo + hi) / 2;
        if ptrs[mid].str == off {
          return Some(mid);
        } else if off < ptrs[mid].str {
          hi := mid;
        } else {
          lo := mid + 1;
        }
      }
      return None;
    }

    /** Marks the strings referred to; fails on an offset that is not the start of one. */
    method MarkUsed(refs: array<nat>) returns (ok: bool)
      requires Indexed(data, ptrs) && InOrder(ptrs) && ptrs != [] && ptrs[0].str == 0
      requires forall x :: x in ptrs ==> !x.used
      modifies `ptrs
      ensures ok <==> forall i :: 0 <= i < refs.Length ==> Known(data, refs[i])
      ensures Indexed(data, ptrs) && ptrs != [] && Weight(data, ptrs) == old(Weight(data, ptrs))
      ensures ok ==> Marked(ptrs, refs[..])
    {
      hide Text, Indexed, InOrder, MarkedBy, Marked, Weight;
      ghost var was := ptrs;
      MarkStart(ptrs);
      ptrs := ptrs[0 := StrPtr(0, true, 0)];
      var i := 0;
      assert refs[..0] == [];
      while i < refs.Length
        invariant 0 <= i <= refs.Length && SameStrings(was, ptrs) && MarkedBy(ptrs, refs[..i])
        invariant forall j :: 0 <= j < i ==> Known(data, refs[j])
      {
        assert refs[..i + 1] == refs[..i] + [refs[i]];
        SameStringsKeep(data, was, ptrs);
        if refs[i] == 0 {
          MarkZero(ptrs, refs[..i]);
        } else {
          ListedIsStart(data, ptrs, refs[i]);
          var k := Find(refs[i]);
          if k.None? {
            return false;
          }
          assert ptrs[k.value] in ptrs;
          MarkStep(ptrs, refs[..i], k.value);
          ptrs := ptrs[k.value := ptrs[k.value].(used := true)];
        }
        i := i + 1;
      }
      SameStringsKeep(data, was, ptrs);
      assert refs[..refs.Length] == refs[..];
      MarkEnd(ptrs, refs[..]);
      ok := true;
    }

    method SetOffsets(g: nat, end: nat, off: nat)
      requires g <= end <= |ptrs|
      modifies `ptrs
      ensures Assigned(old(ptrs), ptrs, g, end, off)
    {
      ghost var was := ptrs;
      for j := g to end
        invariant Assigned(was, ptrs, g, j, off)
      {
        ptrs := ptrs[j := ptrs[j].(newOff := off)];
      }
    }

    /** Writes each used string once and records where it went. */
    method Emit()
      requires ptrs != [] && ByContent(data, ptrs)
      modifies `ptrs, `out
      ensures SameStrings(old(ptrs), ptrs) && SameMarks(old(ptrs), ptrs)
      ensures Emitted(data, out, ptrs, |ptrs|)
    {
      hide Text, Emitted, ByContent, Assigned;
      ghost var was := ptrs;
      out := [];
      var g, used := 0, ptrs[0].used;
      EmitStart(data, ptrs);
      var i := 1;
      while i <= |ptrs|
        invariant 0 <= g < |ptrs| == |was| && 1 <= i <= |ptrs| + 1 && (i <= |ptrs| ==> g < i)
        invariant SameStrings(was, ptrs) && SameMarks(was, ptrs) && ByContent(data, ptrs)
        invariant Emitted(data, out, ptrs, if i <= |ptrs| then g else |ptrs|)
        invariant i <= |ptrs| ==> Group(data, ptrs, g, i) && used == SomeUsed(ptrs, g, i)
      {
        if i < |ptrs| && Text(data, ptrs[i].str) == Text(data, ptrs[g].str) {
          GroupGrows(data, ptrs, g, i);
          used := used || ptrs[i].used;
        } else {
          if used {
            var s := Text(data, ptrs[g].str);
            ghost var before := ptrs;
            SetOffsets(g, i, |out|);
            EmitGroup(data, out, before, ptrs, g, i);
            out := out + s + [0];
          } else {
            SkipGroup(data, out, ptrs, g, i);
          }
          if i < |ptrs| {
            NextGroup(data, ptrs, g, i);
            g, used := i, ptrs[i].used;
          }
        }
        i := i + 1;
      }
    }

    /** Replaces each reference by the offset of its string in the new section. */
    method Remap(refs: array<nat>) returns (ok: bool)
      requires ByOffset(ptrs) && forall i :: 0 <= i < refs.Length && refs[i] != 0 ==> Listed(ptrs, refs[i])
      modifies refs
      ensures ok && forall i :: 0 <= i < refs.Length ==> Remapped(ptrs, old(refs[i]), refs[i])
    {
      hide ByOffset;
      var i := 0;
      while i < refs.Length
        invariant 0 <= i <= refs.Length
        invariant forall j :: 0 <= j < i ==> Remapped(ptrs, old(refs[j]), refs[j])
        invariant forall j :: i <= j < refs.Length ==> refs[j] == old(refs[j])
      {
        if refs[i] != 0 {
          var k := Find(refs[i]);
          if k.None? {
            return false;
          }
          assert ptrs[k.value] in ptrs;
          refs[i] := ptrs[k.value].newOff;
        }
        i := i + 1;
      }
      ok := true;
    }

    /** The whole pass. Offsets must all be starts of strings; then each reference keeps
        its text, equal texts get equal offsets, and each text is there once. */
    method Dedup(refs: array<nat>) returns (ok: bool)
      requires Section(data)
      modifies this, refs
      ensures ok <==> forall i :: 0 <= i < refs.Length ==> Known(data, old(refs[i]))
      ensures !ok ==> refs[..] == old(refs[..])
      ensures ok ==> Deduped(data, old(refs[..]), out, refs[..])
    {
      hide Text, Marked, Emitted, Weight, ByOffset, ByContent, Indexed, InOrder, Deduped;
      ghost var refs0 := refs[..];
      Index();
      ok := MarkUsed(refs);
      if !ok {
        return;
      }
      ghost var marked := ptrs;
      ptrs := SortByContent(data, ptrs);
      ghost var sorted := ptrs;
      SameMembers(marked, sorted);
      WeightOfPermutation(data, marked, sorted);
      Emit();
      ghost var emitted := ptrs;
      ptrs := SortByOffset(ptrs);
      SameMembers(emitted, ptrs);
      AllListed(data, refs0, marked, sorted, emitted, ptrs);
      ok := Remap(refs);
      Finish(data, out, refs0, marked, sorted, emitted, ptrs, refs[..]);
    }
  }

  predicate InOrder(ps: seq<StrPtr>) {
    forall i, j :: 0 <= i < j < |ps| ==> ps[i].str < ps[j].str
  }

  /** The strings that start before p. */
  ghost predicate IndexedTo(data: seq<nat>, ps: seq<StrPtr>, p: nat) {
    && (forall x :: x in ps ==> IsStart(data, x.str) && x.str < p && !x.used)
    && (forall o: nat :: IsStart(data, o) && o < p ==> Listed(ps, o))
    && InOrder(ps) && Weight(data, ps) == p
    && (if ps == [] then p == 0 else ps[0].str == 0)
  }

  lemma IndexStart(data: seq<nat>)
    ensures IndexedTo(data, [], 0)
  {
  }

  lemma IndexStep(data: seq<nat>, ps: seq<StrPtr>, p: nat)
    requires Closed(data) && IsStart(data, p) && IndexedTo(data, ps, p)
    ensures IndexedTo(data, ps + [StrPtr(p, false, 0)], p + |Text(data, p)| + 1)
  {
    hide Text, IsStart, Listed, InOrder, Weight;
    var x := StrPtr(p, false, 0);
    var now := ps + [x];
    WeightMore(data, ps, x);
    OrderMore(ps, x);
    forall y | y in now ensures IsStart(data, y.str) && y.str < p + |Text(data, p)| + 1 && !y.used {
      assert y in ps || y == x;
    }
    forall o: nat | IsStart(data, o) && o < p + |Text(data, p)| + 1 ensures Listed(now, o) {
      NextStart(data, p, o);
      ListedMore(ps, x, o);
    }
  }

  lemma WeightMore(data: seq<nat>, ps: seq<StrPtr>, x: StrPtr)
    ensures Weight(data, ps + [x]) == Weight(data, ps) + |Text(data, x.str)| + 1
  {
    hide Text;
    assert (ps + [x])[..|ps|] == ps;
  }

  lemma OrderMore(ps: seq<StrPtr>, x: StrPtr)
    requires InOrder(ps) && forall y :: y in ps ==> y.str < x.str
    ensures InOrder(ps + [x])
  {
    assert forall i :: 0 <= i < |ps| ==> ps[i] in ps;
  }

  lemma NextStart(data: seq<nat>, p: nat, o: nat)
    requires Closed(data) && IsStart(data, p) && IsStart(data, o) && o < p + |Text(data, p)| + 1
    ensures o <= p
  {
    hide Text;
    TextShape(data, p);
  }

  lemma ListedMore(ps: seq<StrPtr>, x: StrPtr, o: nat)
    ensures Listed(ps, o) || x.str == o ==> Listed(ps + [x], o)
  {
    if Listed(ps, o) {
      var y :| y in ps && y.str == o;
      assert y in ps + [x];
    }
    assert x in ps + [x];
  }

  lemma IndexEnd(data: seq<nat>, ps: seq<StrPtr>)
    requires data != [] && IndexedTo(data, ps, |data|)
    ensures Indexed(data, ps) && InOrder(ps) && ps != [] && ps[0].str == 0
    ensures (forall x :: x in ps ==> !x.used) && Weight(data, ps) == |data|
  {
  }

  /** Marks after the references `seen`: the empty string, and the strings referred to. */
  predicate MarkedBy(ps: seq<StrPtr>, seen: seq<nat>) {
    forall j :: 0 <= j < |ps| ==> (ps[j].used <==> j == 0 || (ps[j].str != 0 && ps[j].str in seen))
  }

  predicate Marked(ps: seq<StrPtr>, refs: seq<nat>) {
    && (forall x :: x in ps ==> (x.used <==> x.str == 0 || x.str in refs))
    && exists x :: x in ps && x.str == 0
  }

  lemma MarkStart(ps: seq<StrPtr>)
    requires ps != [] && forall x :: x in ps ==> !x.used
    ensures MarkedBy(ps[0 := StrPtr(0, true, 0)], [])
  {
    assert forall j :: 0 <= j < |ps| ==> ps[j] in ps;
  }

  lemma MarkZero(ps: seq<StrPtr>, seen: seq<nat>)
    requires MarkedBy(ps, seen)
    ensures MarkedBy(ps, seen + [0])
  {
  }

  lemma MarkStep(ps: seq<StrPtr>, seen: seq<nat>, k: nat)
    requires MarkedBy(ps, seen) && InOrder(ps) && k < |ps| && ps[k].str != 0
    ensures MarkedBy(ps[k := ps[k].(used := true)], seen + [ps[k].str])
  {
  }

  lemma MarkEnd(ps: seq<StrPtr>, refs: seq<nat>)
    requires ps != [] && ps[0].str == 0 && InOrder(ps) && MarkedBy(ps, refs)
    ensures Marked(ps, refs)
  {
    assert ps[0] in ps;
  }

  lemma ListedIsStart(data: seq<nat>, ps: seq<StrPtr>, o: nat)
    requires Indexed(data, ps)
    ensures Listed(ps, o) <==> IsStart(data, o)
    ensures InOrder(ps) ==> ByOffset(ps)
  {
  }

  /** The same strings; only marks and new offsets may differ. */
  predicate SameStrings(a: seq<StrPtr>, b: seq<StrPtr>) {
    |a| == |b| && forall j :: 0 <= j < |a| ==> a[j].str == b[j].str
  }

  lemma SameStringsKeep(data: seq<nat>, a: seq<StrPtr>, b: seq<StrPtr>)
    requires SameStrings(a, b)
    ensures Indexed(data, a) ==> Indexed(data, b)
    ensures InOrder(a) ==> InOrder(b)
    ensures Weight(data, a) == Weight(data, b)
  {
    hide Weight;
    forall o: nat | Listed(a, o) ensures Listed(b, o) {
      var j :| 0 <= j < |a| && a[j].str == o;
      assert b[j] in b;
    }
    forall x | x in b ensures exists y :: y in a && y.str == x.str {
      var j :| 0 <= j < |b| && b[j] == x;
      assert a[j] in a;
    }
    SameWeight(data, a, b);
  }

  lemma {:induction false} SameWeight(data: seq<nat>, a: seq<StrPtr>, b: seq<StrPtr>)
    requires SameStrings(a, b)
    ensures Weight(data, a) == Weight(data, b)
    decreases |a|
  {
    hide Text;
    if a != [] {
      SameWeight(data, a[..|a| - 1], b[..|b| - 1]);
    }
  }

  predicate SameMarks(a: seq<StrPtr>, b: seq<StrPtr>) {
    |a| == |b| && forall j :: 0 <= j < |a| ==> a[j].used == b[j].used
  }

  /** Only the new offsets of entries g..end changed, to off. */
  predicate Assigned(a: seq<StrPtr>, b: seq<StrPtr>, g: nat, end: nat, off: nat) {
    && |a| == |b|
    && forall j :: 0 <= j < |a| ==> b[j] == if g <= j < end then StrPtr(a[j].str, a[j].used, off) else a[j]
  }

  ghost predicate FromUsed(data: seq<nat>, ps: seq<StrPtr>, end: nat, t: seq<nat>)
    requires end <= |ps|
  {
    exists j :: 0 <= j < end && ps[j].used && Text(data, ps[j].str) == t
  }

  /** The new section after the first `end` entries: ascending, holding every used one
      of them, nothing else, and no longer than they are. */
  ghost predicate Emitted(data: seq<nat>, out: seq<nat>, ps: seq<StrPtr>, end: nat)
    requires end <= |ps|
  {
    && Closed(out) && Ascending(out)
    && (forall j :: 0 <= j < end && ps[j].used ==> Moved(data, out, ps[j]))
    && (forall o: nat :: IsStart(out, o) ==> FromUsed(data, ps, end, Text(out, o)))
    && |out| <= Weight(data, ps[..end])
  }

  /** Entries g..i are equal, and differ from the one before. */
  predicate Group(data: seq<nat>, ps: seq<StrPtr>, g: nat, i: nat) {
    && g < i <= |ps|
    && (forall j :: g <= j < i ==> Text(data, ps[j].str) == Text(data, ps[g].str))
    && (g > 0 ==> Text(data, ps[g - 1].str) != Text(data, ps[g].str))
  }

  predicate SomeUsed(ps: seq<StrPtr>, g: nat, i: nat)
    requires i <= |ps|
  {
    exists j :: g <= j < i && ps[j].used
  }

  lemma EmitStart(data: seq<nat>, ps: seq<StrPtr>)
    requires ps != []
    ensures Emitted(data, [], ps, 0) && Group(data, ps, 0, 1) && SomeUsed(ps, 0, 1) == ps[0].used
  {
    hide Text;
  }

  lemma GroupGrows(data: seq<nat>, ps: seq<StrPtr>, g: nat, i: nat)
    requires Group(data, ps, g, i) && i < |ps| && Text(data, ps[i].str) == Text(data, ps[g].str)
    ensures Group(data, ps, g, i + 1) && SomeUsed(ps, g, i + 1) == (SomeUsed(ps, g, i) || ps[i].used)
  {
    hide Text;
  }

  lemma NextGroup(data: seq<nat>, ps: seq<StrPtr>, g: nat, i: nat)
    requires Group(data, ps, g, i) && i < |ps| && Text(data, ps[i].str) != Text(data, ps[g].str)
    ensures Group(data, ps, i, i + 1) && SomeUsed(ps, i, i + 1) == ps[i].used
  {
    hide Text;
  }

  lemma WeightGrows(data: seq<nat>, ps: seq<StrPtr>, g: nat, i: nat)
    requires g < i <= |ps|
    ensures Weight(data, ps[..g]) + |Text(data, ps[g].str)| + 1 <= Weight(data, ps[..i])
  {
    hide Text;
    assert ps[..i] == ps[..g + 1] + ps[g + 1..i];
    assert ps[..g + 1][..g] == ps[..g];
    WeightConcat(data, ps[..g + 1], ps[g + 1..i]);
  }

  lemma SkipGroup(data: seq<nat>, out: seq<nat>, ps: seq<StrPtr>, g: nat, i: nat)
    requires Group(data, ps, g, i) && Emitted(data, out, ps, g) && !SomeUsed(ps, g, i)
    ensures Emitted(data, out, ps, i)
  {
    hide Text, Weight, IsStart, Ascending;
    WeightGrows(data, ps, g, i);
    forall o: nat | IsStart(out, o) ensures FromUsed(data, ps, i, Text(out, o)) {
      var j :| 0 <= j < g && ps[j].used && Text(data, ps[j].str) == Text(out, o);
    }
  }

  lemma EarlierBelow(data: seq<nat>, ps: seq<StrPtr>, g: nat, i: nat, out: seq<nat>)
    requires Group(data, ps, g, i) && ByContent(data, ps) && Emitted(data, out, ps, g)
    ensures AllBelow(out, Text(data, ps[g].str))
  {
    hide Text, Weight, IsStart, Ascending, Leq;
    forall o: nat | IsStart(out, o) ensures Less(Text(out, o), Text(data, ps[g].str)) {
      var j :| 0 <= j < g && ps[j].used && Text(data, ps[j].str) == Text(out, o);
      LeqTotal(Text(data, ps[j].str), Text(data, ps[j].str));
      LessTrans(Text(data, ps[j].str), Text(data, ps[g - 1].str), Text(data, ps[g].str));
    }
  }

  lemma EmitGroup(data: seq<nat>, out: seq<nat>, was: seq<StrPtr>, ps: seq<StrPtr>, g: nat, i: nat)
    requires Group(data, was, g, i) && ByContent(data, was) && Emitted(data, out, was, g) && SomeUsed(was, g, i)
    requires Assigned(was, ps, g, i, |out|)
    ensures Emitted(data, out + Text(data, was[g].str) + [0], ps, i) && ByContent(data, ps)
    ensures SameStrings(was, ps) && SameMarks(was, ps) && Group(data, ps, g, i)
  {
    hide Text, Weight, IsStart, Ascending, Leq;
    var s := Text(data, was[g].str);
    var now := out + s + [0];
    EarlierBelow(data, was, g, i, out);
    AppendString(out, s);
    AppendAscending(out, s);
    WeightGrows(data, was, g, i);
    SameWeight(data, was[..i], ps[..i]);
    forall o: nat | IsStart(now, o) ensures FromUsed(data, ps, i, Text(now, o)) {
      if o == |out| {
        var j :| g <= j < i && was[j].used;
        assert ps[j].used && Text(data, ps[j].str) == s;
      } else {
        var j :| 0 <= j < g && was[j].used && Text(data, was[j].str) == Text(out, o);
        assert ps[j].used;
      }
    }
  }

  /** A reference of the same string. */
  ghost predicate Remapped(ps: seq<StrPtr>, before: nat, after: nat) {
    if before == 0 then after == 0 else exists x :: x in ps && x.str == before && x.newOff == after
  }

  /** What the pass promises of the new section and references. */
  ghost predicate Deduped(data: seq<nat>, refs0: seq<nat>, out: seq<nat>, refs: seq<nat>) {
    && |refs| == |refs0| && Section(out) && |out| <= |data|
    && (forall i :: 0 <= i < |refs| ==> IsStart(out, refs[i]) && Text(out, refs[i]) == Text(data, refs0[i]))
    && (forall i, j :: 0 <= i < |refs| && 0 <= j < |refs| ==>
          (refs[i] == refs[j] <==> Text(data, refs0[i]) == Text(data, refs0[j])))
    && (forall o1: nat, o2: nat :: IsStart(out, o1) && IsStart(out, o2) && Text(out, o1) == Text(out, o2) ==> o1 == o2)
    && (forall o: nat :: IsStart(out, o) ==> o == 0 || o in refs)
  }

  /** The entries keep their strings and marks through both sorts. */
  ghost predicate Passed(marked: seq<StrPtr>, sorted: seq<StrPtr>, emitted: seq<StrPtr>, final: seq<StrPtr>) {
    && (forall x :: x in sorted <==> x in marked)
    && SameStrings(sorted, emitted) && SameMarks(sorted, emitted)
    && (forall x :: x in final <==> x in emitted)
  }

  lemma AllListed(data: seq<nat>, refs: seq<nat>, marked: seq<StrPtr>, sorted: seq<StrPtr>, emitted: seq<StrPtr>,
      final: seq<StrPtr>)
    requires Indexed(data, marked) && Passed(marked, sorted, emitted, final)
    requires forall i :: 0 <= i < |refs| ==> Known(data, refs[i])
    ensures forall i :: 0 <= i < |refs| && refs[i] != 0 ==> Listed(final, refs[i])
  {
    hide IsStart;
    forall i | 0 <= i < |refs| && refs[i] != 0 ensures Listed(final, refs[i]) {
      assert Listed(marked, refs[i]);
      var x :| x in marked && x.str == refs[i];
      var j :| 0 <= j < |sorted| && sorted[j] == x;
      assert emitted[j] in emitted;
    }
  }

  /** What holds of the entries when references are remapped. */
  ghost predicate Ready(data: seq<nat>, refs: seq<nat>, out: seq<nat>, ps: seq<StrPtr>) {
    && (forall x :: x in ps ==> (x.used <==> x.str == 0 || x.str in refs))
    && (forall x :: x in ps && x.used ==> Moved(data, out, x))
    && (exists x :: x in ps && x.str == 0)
    && (forall o: nat :: IsStart(out, o) ==> HasUsed(data, ps, Text(out, o)))
  }

  ghost predicate HasUsed(data: seq<nat>, ps: seq<StrPtr>, t: seq<nat>) {
    exists x :: x in ps && x.used && Text(data, x.str) == t
  }

  lemma GetReady(data: seq<nat>, refs: seq<nat>, out: seq<nat>, marked: seq<StrPtr>, sorted: seq<StrPtr>,
      emitted: seq<StrPtr>, final: seq<StrPtr>)
    requires Marked(marked, refs) && Passed(marked, sorted, emitted, final) && Emitted(data, out, emitted, |emitted|)
    ensures Ready(data, refs, out, final)
  {
    hide Text, Weight, IsStart, Ascending, Moved;
    forall x | x in final
      ensures (x.used <==> x.str == 0 || x.str in refs) && (x.used ==> Moved(data, out, x))
    {
      var j :| 0 <= j < |emitted| && emitted[j] == x;
      assert sorted[j] in sorted;
    }
    var z :| z in marked && z.str == 0;
    var k :| 0 <= k < |sorted| && sorted[k] == z;
    assert emitted[k] in final;
    forall o: nat | IsStart(out, o) ensures HasUsed(data, final, Text(out, o)) {
      var j :| 0 <= j < |emitted| && emitted[j].used && Text(data, emitted[j].str) == Text(out, o);
      assert emitted[j] in final;
    }
  }

  lemma DistinctTexts(out: seq<nat>, o1: nat, o2: nat)
    requires Ascending(out) && IsStart(out, o1) && IsStart(out, o2) && Text(out, o1) == Text(out, o2)
    ensures o1 == o2
  {
    hide Text, IsStart, Leq;
  }

  /** The empty string comes first. */
  lemma EmptyFirst(out: seq<nat>, o: nat)
    requires Closed(out) && Ascending(out) && IsStart(out, o) && Text(out, o) == []
    ensures o == 0 && Section(out)
  {
    hide Ascending;
    assert IsStart(out, 0);
    assert o != 0 ==> Less(Text(out, 0), Text(out, o)) by {
      NotFirst(out, o);
    }
  }

  lemma NotFirst(out: seq<nat>, o: nat)
    requires Ascending(out) && IsStart(out, o) && IsStart(out, 0)
    ensures o != 0 ==> Less(Text(out, 0), Text(out, o))
  {
  }

  lemma RefMoved(data: seq<nat>, refs: seq<nat>, out: seq<nat>, ps: seq<StrPtr>, before: nat, after: nat)
    requires Section(data) && Closed(out) && Ascending(out) && Ready(data, refs, out, ps)
    requires before in refs && Remapped(ps, before, after)
    ensures IsStart(out, after) && Text(out, after) == Text(data, before) && Section(out)
  {
    hide Ascending, IsStart, Leq;
    var z :| z in ps && z.str == 0;
    EmptyFirst(out, z.newOff);
  }

  lemma StartReferred(data: seq<nat>, refs0: seq<nat>, out: seq<nat>, ps: seq<StrPtr>, refs: seq<nat>, o: nat)
    requires Section(data) && Closed(out) && Ascending(out) && Ready(data, refs0, out, ps)
    requires |refs| == |refs0| && forall i :: 0 <= i < |refs| ==> Remapped(ps, refs0[i], refs[i])
    requires IsStart(out, o)
    ensures o == 0 || o in refs
  {
    hide Ascending, IsStart, Leq, Remapped;
    var x :| x in ps && x.used && Text(data, x.str) == Text(out, o);
    if x.str == 0 {
      EmptyFirst(out, o);
    } else {
      var i :| 0 <= i < |refs0| && refs0[i] == x.str;
      RefMoved(data, refs0, out, ps, refs0[i], refs[i]);
      DistinctTexts(out, o, refs[i]);
    }
  }

  lemma Finish(data: seq<nat>, out: seq<nat>, refs0: seq<nat>, marked: seq<StrPtr>, sorted: seq<StrPtr>,
      emitted: seq<StrPtr>, final: seq<StrPtr>, refs: seq<nat>)
    requires Section(data) && Weight(data, sorted) == |data|
    requires Marked(marked, refs0) && Passed(marked, sorted, emitted, final) && Emitted(data, out, emitted, |emitted|)
    requires |refs| == |refs0| && forall i :: 0 <= i < |refs| ==> Remapped(final, refs0[i], refs[i])
    ensures Deduped(data, refs0, out, refs)
  {
    hide Text, IsStart, Ascending, Remapped, Weight, Ready, Marked;
    GetReady(data, refs0, out, marked, sorted, emitted, final);
    assert emitted[..|emitted|] == emitted;
    SameWeight(data, sorted, emitted);
    SectionStays(data, refs0, out, final);
    forall i | 0 <= i < |refs| ensures IsStart(out, refs[i]) && Text(out, refs[i]) == Text(data, refs0[i]) {
      RefMoved(data, refs0, out, final, refs0[i], refs[i]);
    }
    forall o1: nat, o2: nat | IsStart(out, o1) && IsStart(out, o2) && Text(out, o1) == Text(out, o2) ensures o1 == o2 {
      DistinctTexts(out, o1, o2);
    }
    forall o: nat | IsStart(out, o) ensures o == 0 || o in refs {
      StartReferred(data, refs0, out, final, refs, o);
    }
  }

  lemma SectionStays(data: seq<nat>, refs: seq<nat>, out: seq<nat>, ps: seq<StrPtr>)
    requires Section(data) && Closed(out) && Ascending(out) && Ready(data, refs, out, ps)
    ensures Section(out)
  {
    hide Ascending, IsStart, Leq;
    var z :| z in ps && z.str == 0;
    EmptyFirst(out, z.newOff);
  }
}
