/** Numbering of the representatives and the graph that is left after compaction
    and remapping. */
module DedupCompact {
  import opened BtfGraph
  import opened CanonMap
  import opened HashMaps
  import opened DedupTheory

  /** How many of the ids 1..i are their own representative. */
  function Count(m: Links, i: nat): nat
    requires i < |m|
  {
    if i == 0 then 0 else Count(m, i - 1) + if m[i] == i then 1 else 0
  }

  lemma {:induction false} CountBounds(m: Links, i: nat, j: nat)
    requires i <= j < |m|
    ensures Count(m, i) <= Count(m, j) <= j
    ensures i < j && m[j] == j ==> Count(m, i) < Count(m, j)
    decreases j
  {
    if j > 0 {
      CountBounds(m, if i < j then i else i - 1, j - 1);
    }
  }

  /** Every new id is the number of exactly one representative. */
  lemma {:induction false} CountOnto(m: Links, n: nat, k: nat) returns (i: nat)
    requires n < |m| && 0 < k <= Count(m, n)
    ensures 0 < i <= n && m[i] == i && Count(m, i) == k
    ensures forall j :: 0 < j < |m| && m[j] == j && Count(m, j) == k ==> j == i
  {
    if Count(m, n - 1) >= k {
      i := CountOnto(m, n - 1, k);
    } else {
      i := n;
    }
    forall j | 0 < j < |m| && m[j] == j && Count(m, j) == k ensures j == i {
      if j < i { CountBounds(m, j, i); } else { CountBounds(m, i, j); }
    }
  }

  /** The final id of an original type. */
  ghost function NewId(m: Links, i: nat): (r: nat)
    requires Acyclic(m) && i < |m|
    ensures r <= Count(m, |m| - 1)
  {
    CountBounds(m, Root(m, i), |m| - 1);
    Count(m, Root(m, i))
  }

  ghost predicate AllMapped(m: Links) {
    forall i :: 0 <= i < |m| ==> Mapped(m, i)
  }

  /** f holds the representatives of ts in order, their references renumbered. */
  ghost predicate Renumbered(ts: Graph, m: Links, f: Graph)
    requires Acyclic(m) && |m| > 0 && |ts| == |m| && Closed(ts)
  {
    && |f| == Count(m, |m| - 1) + 1 && f[0] == Void
    && forall i :: 0 < i < |m| && m[i] == i ==> Count(m, i) < |f| && RenumberedRecord(ts[i], m, f[Count(m, i)])
  }

  ghost predicate RefsBelow(t: BtfType, n: nat) {
    forall c :: 0 <= c < |Refs(t)| ==> Refs(t)[c] < n
  }

  ghost predicate RenumberedRecord(t: BtfType, m: Links, t': BtfType)
    requires Acyclic(m) && RefsBelow(t, |m|)
  {
    && Shape(t') == Shape(t) && |Refs(t')| == |Refs(t)|
    && forall c :: 0 <= c < |Refs(t)| ==> Refs(t')[c] == NewId(m, Refs(t)[c])
  }

  lemma RenumberedClosed(ts: Graph, m: Links, f: Graph)
    requires Acyclic(m) && |m| > 0 && |ts| == |m| && Closed(ts) && Renumbered(ts, m, f)
    ensures Closed(f)
  {
    hide Shape, Refs;
    forall k, c | 0 <= k < |f| && 0 <= c < |Refs(f[k])| ensures Refs(f[k])[c] < |f| {
      if k == 0 {
        VoidHasNoRefs(f[0]);
      } else {
        var i := CountOnto(m, |m| - 1, k);
        assert RenumberedRecord(ts[i], m, f[k]);
      }
    }
  }

  /** The record that ends up under the new id of i. */
  lemma RecordOf(g: Graph, ts: Graph, m: Links, noFwd: bool, f: Graph, i: nat)
    requires LinksOk(g, m, noFwd) && AllMapped(m) && Resolving(g, ts, noFwd) && Renumbered(ts, m, f) && i < |g|
    ensures NewId(m, i) < |f| && RenumberedRecord(ts[Root(m, i)], m, f[NewId(m, i)])
  {
    hide Shape, Refs, LinkFits, RecordKept, RenumberedRecord, Acyclic;
    var r := Root(m, i);
    if r == 0 {
      VoidRecord(ts[0], m, f[0]);
    }
  }

  lemma VoidRecord(t: BtfType, m: Links, t': BtfType)
    requires t.Void? && t'.Void? && Acyclic(m)
    ensures RenumberedRecord(t, m, t')
  {
  }

  /** Whatever is the same type as y agrees with what y becomes. */
  lemma {:induction false} QuotientAgrees(g: Graph, ts: Graph, m: Links, noFwd: bool, f: Graph, x: nat, y: nat, k: nat)
    requires LinksOk(g, m, noFwd) && Coherent(!noFwd, g) && AllMapped(m) && Resolving(g, ts, noFwd)
    requires Renumbered(ts, m, f) && Closed(f) && x < |g| && y < |g| && Same(!noFwd, g, x, g, y)
    ensures NewId(m, y) < |f| && AgreeTo(!noFwd, g, x, f, NewId(m, y), k)
    decreases k
  {
    hide Shape, Refs, Acyclic, Closed, Renumbered, AllMapped, LinksOk, Resolving, Label, Coherent, Same, OutlineOf;
    hide NewId, Root, IsForward;
    assert Closed(g) && Acyclic(m) && |m| == |g| by { LinksOkParts(g, m, noFwd); }
    RecordOf(g, ts, m, noFwd, f, y);
    if k > 0 {
      var r, j := Root(m, y), NewId(m, y);
      RootFits(g, m, noFwd, y);
      SameTrans(!noFwd, g, x, y, r);
      SameUnfolds(!noFwd, g, x, g, r);
      RecordAt(g, ts, noFwd, r);
      ShapeGivesOutline(f[j], g[r]);
      if !Loose(!noFwd, g[x], f[j]) {
        RefsInRange(g, x);
        RefsInRange(g, r);
        RefsInRange(f, j);
        forall c | 0 <= c < |Refs(g[x])| ensures AgreeTo(!noFwd, g, Refs(g[x])[c], f, Refs(f[j])[c], k - 1) {
          SameTrans(!noFwd, g, Refs(g[x])[c], Refs(g[r])[c], Refs(ts[r])[c]);
          QuotientAgrees(g, ts, m, noFwd, f, Refs(g[x])[c], Refs(ts[r])[c], k - 1);
        }
      }
    }
  }

  lemma RecordAt(g: Graph, ts: Graph, noFwd: bool, i: nat)
    requires Resolving(g, ts, noFwd) && i < |g|
    ensures |ts| == |g| && RecordKept(g, ts[i], noFwd, i)
  {
  }

  /** Deduplication preserves meaning: every original id describes the same type as its new
      id does in the result; up to forward declarations where these are resolved. */
  lemma QuotientSame(g: Graph, ts: Graph, m: Links, noFwd: bool, f: Graph)
    requires LinksOk(g, m, noFwd) && Coherent(!noFwd, g) && AllMapped(m) && Resolving(g, ts, noFwd)
    requires Renumbered(ts, m, f) && Closed(f)
    ensures forall i :: 0 <= i < |g| ==> NewId(m, i) < |f| && Same(!noFwd, g, i, f, NewId(m, i))
  {
    hide LinksOk, Resolving, Renumbered, Closed, AgreeTo, AllMapped, Acyclic, Coherent;
    LinksOkParts(g, m, noFwd);
    var up := !noFwd;
    forall i | 0 <= i < |g| ensures NewId(m, i) < |f| && Same(up, g, i, f, NewId(m, i)) {
      SameRefl(up, g, i);
      QuotientAgrees(g, ts, m, noFwd, f, i, i, 0);
      forall k: nat ensures AgreeTo(up, g, i, f, NewId(m, i), k) {
        QuotientAgrees(g, ts, m, noFwd, f, i, i, k);
      }
    }
  }

  /** Without forward declarations there are none in the result, and it makes no difference
      whether they are resolved. */
  lemma QuotientForwardFree(g: Graph, ts: Graph, m: Links, f: Graph)
    requires LinksOk(g, m, false) && ForwardFree(g) && AllMapped(m) && Resolving(g, ts, false)
    requires Renumbered(ts, m, f) && Closed(f)
    ensures forall i :: 0 <= i < |g| ==> NewId(m, i) < |f| && Same(false, g, i, f, NewId(m, i))
  {
    hide LinksOk, Resolving, Closed, AllMapped, Acyclic, Same, Shape, Refs, LinkFits, OutlineOf, NewId;
    LinksOkParts(g, m, false);
    ForwardFreeCoherent(g);
    ResolvingRange(g, ts, false, 0);
    forall k | 0 <= k < |f| ensures !IsForward(f[k]) {
      if k > 0 {
        var i := CountOnto(m, |m| - 1, k);
        RecordAt(g, ts, false, i);
        ShapeGivesOutline(f[k], g[i]);
      }
    }
    QuotientSame(g, ts, m, false, f);
    forall i | 0 <= i < |g| ensures NewId(m, i) < |f| && Same(false, g, i, f, NewId(m, i)) {
      ForwardFreeSame(g, i, f, NewId(m, i));
    }
  }

  lemma ForwardFreeCoherent(g: Graph)
    requires Closed(g) && ForwardFree(g)
    ensures Unambiguous(g)
  {
  }

  /** Kinds whose duplicates are always recognised. */
  predicate Exact(t: BtfType) {
    IsPrim(t) || IsRefType(t)
  }

  lemma NewIdInjective(m: Links, x: nat, y: nat)
    requires Acyclic(m) && |m| > 0 && SelfMapped(m, x) && SelfMapped(m, y) && NewId(m, x) == NewId(m, y)
    ensures x == y
  {
    if x < y { CountBounds(m, x, y); } else { CountBounds(m, y, x); }
  }

  /** Renumbering keeps different settled records different. */
  lemma RecordInjective(m: Links, t: BtfType, u: BtfType, r: BtfType)
    requires Acyclic(m) && |m| > 0 && RefsBelow(t, |m|) && RefsBelow(u, |m|)
    requires forall c :: 0 <= c < |Refs(t)| ==> SelfMapped(m, Refs(t)[c])
    requires forall c :: 0 <= c < |Refs(u)| ==> SelfMapped(m, Refs(u)[c])
    requires RenumberedRecord(t, m, r) && RenumberedRecord(u, m, r)
    ensures t == u
  {
    hide Shape, Refs, Acyclic, NewId;
    forall c | 0 <= c < |Refs(t)| ensures Refs(t)[c] == Refs(u)[c] {
      NewIdInjective(m, Refs(t)[c], Refs(u)[c]);
    }
    SameShapeSameArity(t, u);
    assert Refs(t) == Refs(u);
  }

  /** Section 2.2.7 of the BTF format: a forward declaration's type word is zero. */
  ghost predicate FwdWordsZero(g: Graph) {
    forall i :: 0 <= i < |g| && g[i].Fwd? ==> g[i].typ == 0
  }

  lemma ExactRefsSettled(ts: Graph, m: Links, i: nat)
    requires RefsSettled(ts, m) && 0 < i < |m| && m[0] == 0 && m[i] == i && Exact(ts[i])
    requires ts[i].Fwd? ==> FwdWordsZero(ts)
    ensures forall c :: 0 <= c < |Refs(ts[i])| ==> SelfMapped(m, Refs(ts[i])[c])
  {
  }

  /** No duplicates: among primitive and reference types the result holds no record twice; for
      forward declarations their type words must be zero, since these are renumbered too. */
  lemma NoDuplicates(g: Graph, ts: Graph, m: Links, noFwd: bool, items: Candidates, f: Graph, a: nat, b: nat)
    requires LinksOk(g, m, noFwd) && Resolving(g, ts, noFwd) && TableFits(g, ts, m, noFwd, items) && RefsSettled(ts, m)
    requires Renumbered(ts, m, f) && 0 < a < |f| && 0 < b < |f| && Exact(f[a]) && f[a] == f[b]
    requires f[a].Fwd? ==> FwdWordsZero(ts)
    ensures a == b
  {
    hide Shape, Refs, LinkFits, RecordKept, Acyclic, HashOf, Closed, Canonical, Count, RefsSettled;
    hide RenumberedRecord, Resolving, FwdWordsZero, SelfMapped;
    assert |m| > 0 && m[0] == 0 && |ts| == |g| by { LinksOkParts(g, m, noFwd); ResolvingRange(g, ts, noFwd, 0); }
    var i := CountOnto(m, |m| - 1, a);
    var j := CountOnto(m, |m| - 1, b);
    ResolvingRange(g, ts, noFwd, i);
    ResolvingRange(g, ts, noFwd, j);
    KindKept(m, ts[i], f[a]);
    KindKept(m, ts[j], f[b]);
    ExactRefsSettled(ts, m, i);
    ExactRefsSettled(ts, m, j);
    RecordInjective(m, ts[i], ts[j], f[a]);
    assert Entry(HashOf(ts[i]), i) in items && Entry(HashOf(ts[j]), j) in items;
  }

  lemma KindKept(m: Links, t: BtfType, t': BtfType)
    requires Acyclic(m) && RefsBelow(t, |m|) && RenumberedRecord(t, m, t')
    ensures (Exact(t) <==> Exact(t')) && (t.Fwd? <==> t'.Fwd?)
    ensures Exact(t) ==> IsDeduped(t) && !t.Struct?
  {
  }

  // ----- the compaction and remapping loops -----

  /** The table of new ids that compaction leaves behind. */
  ghost predicate Numbered(m: Links, hyp: seq<nat>, n: nat) {
    && |hyp| == |m| && n < |m| && hyp[0] == 0
    && forall i :: 0 < i < |m| ==> hyp[i] == if i <= n && m[i] == i then Count(m, i) else UNPROCESSED
  }

  /** The records of the representatives among 1..n have moved to their new places;
      what lies behind n has not been overwritten. */
  ghost predicate MovedUpTo(ts: Graph, m: Links, ts': Graph, n: nat) {
    && |ts| == |m| == |ts'| && n < |m| && ts'[0] == ts[0]
    && (forall i :: 0 < i <= n && m[i] == i ==> Count(m, i) < |m| && ts'[Count(m, i)] == ts[i])
    && (forall i :: n < i < |m| ==> ts'[i] == ts[i])
  }

  lemma MoveNext(ts: Graph, m: Links, ts': Graph, n: nat)
    requires MovedUpTo(ts, m, ts', n) && n + 1 < |m|
    ensures Count(m, n + 1) <= n + 1
    ensures m[n + 1] != n + 1 ==> MovedUpTo(ts, m, ts', n + 1)
    ensures m[n + 1] == n + 1 ==> MovedUpTo(ts, m, ts'[Count(m, n + 1) := ts[n + 1]], n + 1)
  {
    CountBounds(m, n, n + 1);
    forall i | 0 < i <= n && m[i] == i ensures 0 < Count(m, i) < Count(m, n) + 1 {
      CountBounds(m, i, n);
    }
  }

  lemma NothingMoved(ts: Graph, m: Links, hyp: seq<nat>)
    requires |ts| == |m| == |hyp| > 0 && hyp[0] == 0 && forall i :: 0 < i < |m| ==> hyp[i] == UNPROCESSED
    ensures Numbered(m, hyp, 0) && MovedUpTo(ts, m, ts, 0) && Count(m, 0) == 0
  {
  }

  lemma NumberNext(m: Links, hyp: seq<nat>, n: nat)
    requires Numbered(m, hyp, n) && n + 1 < |m|
    ensures m[n + 1] != n + 1 ==> Numbered(m, hyp, n + 1) && Count(m, n + 1) == Count(m, n)
    ensures m[n + 1] == n + 1 ==>
      Numbered(m, hyp[n + 1 := Count(m, n) + 1], n + 1) && Count(m, n + 1) == Count(m, n) + 1
  {
  }

  lemma MovedRest(ts: Graph, m: Links, ts': Graph, n: nat)
    requires MovedUpTo(ts, m, ts', n)
    ensures |ts| == |m| == |ts'| && forall i :: n < i < |m| ==> ts'[i] == ts[i]
  {
  }

  /** Looking an id up: its root, then the root's new number. */
  ghost predicate RemappedRecord(t: BtfType, m: Links, hyp: seq<nat>, t': BtfType)
    requires Acyclic(m) && |hyp| == |m| && RefsBelow(t, |m|)
  {
    && Shape(t') == Shape(t) && |Refs(t')| == |Refs(t)|
    && forall c :: 0 <= c < |Refs(t)| ==> Refs(t')[c] == hyp[Root(m, Refs(t)[c])] <= MAX_NR_TYPES
  }

  ghost predicate Unmappable(t: BtfType, m: Links, hyp: seq<nat>)
    requires Acyclic(m) && |hyp| == |m| && RefsBelow(t, |m|)
  {
    t.Void? || exists c :: 0 <= c < |Refs(t)| && hyp[Root(m, Refs(t)[c])] > MAX_NR_TYPES
  }

  /** While the references of one record are being rewritten. */
  ghost predicate PartlyRemapped(t: BtfType, m: Links, hyp: seq<nat>, t': BtfType, isArray: bool, j: nat)
    requires Acyclic(m) && |hyp| == |m| && RefsBelow(t, |m|)
  {
    && Shape(t') == Shape(t) && |Refs(t')| == |Refs(t)| && (isArray ==> |Refs(t)| == 2)
    && forall c :: 0 <= c < |Refs(t)| ==>
         if Visit(isArray, c) < j then Refs(t')[c] == hyp[Root(m, Refs(t)[c])] <= MAX_NR_TYPES
         else Refs(t')[c] == Refs(t)[c]
  }

  lemma RemapNext(t: BtfType, m: Links, hyp: seq<nat>, t': BtfType, isArray: bool, j: nat, r: nat)
    requires Acyclic(m) && |hyp| == |m| && RefsBelow(t, |m|)
    requires PartlyRemapped(t, m, hyp, t', isArray, j) && j < |Refs(t)|
    requires r == hyp[Root(m, Refs(t)[Visit(isArray, j)])] <= MAX_NR_TYPES
    ensures PartlyRemapped(t, m, hyp, SetRef(t', Visit(isArray, j), r), isArray, j + 1)
  {
    hide Shape, Refs, SetRef, Acyclic;
    SetRefKeepsShape(t', Visit(isArray, j), r);
  }

  /** After both passes every record is renumbered, and no lookup can have failed. */
  lemma HypIsNewId(m: Links, hyp: seq<nat>, x: nat)
    requires Acyclic(m) && TargetsMapped(m) && AllMapped(m) && 0 < |m| <= MAX_NR_TYPES + 1 && m[0] == 0
    requires Numbered(m, hyp, |m| - 1) && x < |m|
    ensures hyp[Root(m, x)] == NewId(m, x) <= MAX_NR_TYPES
  {
    hide Acyclic, Count;
    RootIsSettled(m, x);
    CountBounds(m, 0, 0);
    CountBounds(m, Root(m, x), |m| - 1);
  }

  lemma RemappedIsRenumbered(t: BtfType, m: Links, hyp: seq<nat>, t': BtfType)
    requires Acyclic(m) && TargetsMapped(m) && AllMapped(m) && 0 < |m| <= MAX_NR_TYPES + 1 && m[0] == 0
    requires Numbered(m, hyp, |m| - 1) && RefsBelow(t, |m|)
    ensures RemappedRecord(t, m, hyp, t') ==> RenumberedRecord(t, m, t')
    ensures Unmappable(t, m, hyp) ==> t.Void?
  {
    hide Acyclic, TargetsMapped, AllMapped, Numbered, Shape, Refs, NewId;
    assert |hyp| == |m| by { NumberedLength(m, hyp, |m| - 1); }
    forall c | 0 <= c < |Refs(t)| ensures hyp[Root(m, Refs(t)[c])] == NewId(m, Refs(t)[c]) <= MAX_NR_TYPES {
      HypIsNewId(m, hyp, Refs(t)[c]);
    }
  }

  lemma NumberedLength(m: Links, hyp: seq<nat>, n: nat)
    requires Numbered(m, hyp, n)
    ensures |hyp| == |m|
  {
  }

  /** The compacted, remapped records form the renumbered graph. */
  lemma RemapResult(ts: Graph, m: Links, hyp: seq<nat>, ts1: Graph, f: Graph)
    requires Acyclic(m) && TargetsMapped(m) && AllMapped(m) && 0 < |m| <= MAX_NR_TYPES + 1 && m[0] == 0
    requires Closed(ts) && |ts| == |m| && MovedUpTo(ts, m, ts1, |m| - 1) && Numbered(m, hyp, |m| - 1)
    requires |f| == Count(m, |m| - 1) + 1 && f[0] == Void
    requires forall k :: 0 < k < |f| ==> k < |ts1| && RefsBelow(ts1[k], |m|) && RemappedRecord(ts1[k], m, hyp, f[k])
    ensures Renumbered(ts, m, f) && Closed(f)
  {
    hide Acyclic, TargetsMapped, AllMapped, Numbered, Shape, Refs, RemappedRecord, RenumberedRecord, Count;
    assert |hyp| == |m| by { NumberedLength(m, hyp, |m| - 1); }
    forall i | 0 < i < |m| && m[i] == i ensures Count(m, i) < |f| && RenumberedRecord(ts[i], m, f[Count(m, i)]) {
      CountBounds(m, i, |m| - 1);
      CountBounds(m, 0, i);
      var k := Count(m, i);
      assert k > 0 && ts1[k] == ts[i];
      RemappedIsRenumbered(ts[i], m, hyp, f[k]);
    }
    RenumberedClosed(ts, m, f);
  }

  /** Records left in front after compaction are records of representatives. */
  lemma MovedRange(ts: Graph, m: Links, ts': Graph, k: nat)
    requires |m| > 0 && Closed(ts) && MovedUpTo(ts, m, ts', |m| - 1) && k <= Count(m, |m| - 1)
    ensures k < |m| && RefsBelow(ts'[k], |m|) && (k > 0 ==> exists i :: 0 < i < |m| && ts'[k] == ts[i])
  {
    CountBounds(m, 0, |m| - 1);
    if k > 0 {
      var i := CountOnto(m, |m| - 1, k);
    }
  }

  /** Once primitives and structs are done, only reference types are unmapped,
      and no link leads to one. */
  lemma ReadyForRefs(g: Graph, m: Links, noFwd: bool)
    requires LinksOk(g, m, noFwd)
    requires forall i :: 0 < i < |g| ==> g[i] != Void && (IsPrim(g[i]) || g[i].Struct? ==> Mapped(m, i))
    requires forall i :: 0 < i < |g| && (g[i].Var? || g[i].DataSec?) ==> m[i] == i
    requires forall i :: 0 < i < |g| && IsRefType(g[i]) ==> !Mapped(m, i)
    ensures TargetsMapped(m) && RefsSettled(g, m) && Resolving(g, g, noFwd)
  {
    hide Acyclic, Same, Refs;
    ResolvingStart(g, noFwd);
    assert InRange(m) by { AcyclicInRange(m); }
    forall x | 0 <= x < |m| && Link(m, x) ensures Mapped(m, m[x]) {
      assert LinkFits(g, noFwd, x, m[x]);
    }
  }

  lemma AcyclicInRange(m: Links)
    requires Acyclic(m)
    ensures InRange(m)
  {
  }

  /** What a successful deduplication of g into f, via the canonical map m, means. */
  ghost predicate DedupResult(g: Graph, m: Links, noFwd: bool, f: Graph) {
    && LinksOk(g, m, noFwd) && AllMapped(m) && Closed(f)
    && |f| == Count(m, |m| - 1) + 1
    && (forall i :: 0 <= i < |g| ==> m[Root(m, i)] == Root(m, i))
    && (forall i :: 0 <= i < |g| ==> NewId(m, i) < |f| && Label(f[NewId(m, i)]) == Label(g[i]))
    && (Coherent(!noFwd, g) ==> forall i :: 0 <= i < |g| ==> Same(!noFwd, g, i, f, NewId(m, i)))
    && (noFwd || ForwardFree(g) ==> forall i :: 0 <= i < |g| ==> Same(false, g, i, f, NewId(m, i)))
    && (forall a, b :: 0 < a < |f| && 0 < b < |f| && f[a] == f[b] && Exact(f[a]) && (f[a].Fwd? ==> FwdWordsZero(g)) ==>
          a == b)
  }

  lemma DedupCorrect(g: Graph, ts: Graph, m: Links, noFwd: bool, items: Candidates, f: Graph)
    requires LinksOk(g, m, noFwd) && AllMapped(m) && TargetsMapped(m) && Resolving(g, ts, noFwd)
    requires TableFits(g, ts, m, noFwd, items) && RefsSettled(ts, m)
    requires FwdWordsZero(g) ==> FwdWordsZero(ts)
    requires Renumbered(ts, m, f) && Closed(f)
    ensures DedupResult(g, m, noFwd, f)
  {
    hide LinksOk, Resolving, TableFits, RefsSettled, TargetsMapped, Renumbered, Closed, Acyclic, AllMapped, Same;
    hide FwdWordsZero, Exact;
    hide Label, Count;
    LinksOkParts(g, m, noFwd);
    assert |f| == Count(m, |m| - 1) + 1 by { ResolvingParts(g, ts, noFwd); RenumberedSize(ts, m, f); }
    forall i | 0 <= i < |g|
      ensures m[Root(m, i)] == Root(m, i) && NewId(m, i) < |f| && Label(f[NewId(m, i)]) == Label(g[i])
    {
      RootSelfMapped(m, i);
      RecordOf(g, ts, m, noFwd, f, i);
      NewLabel(g, ts, m, noFwd, f, i);
    }
    if Coherent(!noFwd, g) {
      QuotientSame(g, ts, m, noFwd, f);
    }
    if !noFwd && ForwardFree(g) {
      QuotientForwardFree(g, ts, m, f);
    }
    forall a, b | 0 < a < |f| && 0 < b < |f| && f[a] == f[b] && Exact(f[a]) && (f[a].Fwd? ==> FwdWordsZero(g))
      ensures a == b
    {
      NoDuplicates(g, ts, m, noFwd, items, f, a, b);
    }
  }

  lemma ResolvingParts(g: Graph, ts: Graph, noFwd: bool)
    requires Resolving(g, ts, noFwd)
    ensures |ts| == |g| && Closed(ts)
  {
  }

  /** The reference pass does not touch records of types that were mapped before it. */
  lemma FwdWordsKept(g: Graph, m0: Links, ts: Graph, m: Links, noFwd: bool)
    requires Resolving(g, ts, noFwd) && Preserved(g, m0, ts, m) && FwdWordsZero(g)
    requires forall i :: 0 < i < |g| ==> IsPrim(g[i]) ==> Mapped(m0, i)
    ensures FwdWordsZero(ts)
  {
    hide LinkFits;
    forall i | 0 <= i < |ts| && ts[i].Fwd? ensures ts[i].typ == 0 {
      assert RecordKept(g, ts[i], noFwd, i);
    }
  }

  lemma RenumberedSize(ts: Graph, m: Links, f: Graph)
    requires Acyclic(m) && |m| > 0 && |ts| == |m| && Closed(ts) && Renumbered(ts, m, f)
    ensures |f| == Count(m, |m| - 1) + 1
  {
  }

  lemma RootSelfMapped(m: Links, i: nat)
    requires Acyclic(m) && TargetsMapped(m) && AllMapped(m) && i < |m|
    ensures m[Root(m, i)] == Root(m, i)
  {
    RootIsSettled(m, i);
  }

  lemma NewLabel(g: Graph, ts: Graph, m: Links, noFwd: bool, f: Graph, i: nat)
    requires LinksOk(g, m, noFwd) && AllMapped(m) && Resolving(g, ts, noFwd) && Renumbered(ts, m, f) && i < |g|
    requires NewId(m, i) < |f| && RenumberedRecord(ts[Root(m, i)], m, f[NewId(m, i)])
    ensures Label(f[NewId(m, i)]) == Label(g[i])
  {
    hide AllMapped, Renumbered, Acyclic, Closed, Refs, Shape, Label, Same;
    RootFits(g, m, noFwd, i);
    RecordAt(g, ts, noFwd, Root(m, i));
    ShapeGivesLabel(f[NewId(m, i)], ts[Root(m, i)]);
    ShapeGivesLabel(ts[Root(m, i)], g[Root(m, i)]);
  }
}
