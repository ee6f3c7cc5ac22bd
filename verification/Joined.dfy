/** The joined walk: several aggregation variables side by side, one row per key. */
module Joined {
  import opened Wrappers
  import opened KeyOrder

  /** An entry of the aggregation table: variable, key, data. */
  datatype Ent = Ent(id: nat, key: Key, data: seq<nat>)

  /** A column of a row: an entry, or zero-filled data. */
  datatype Cell = Present(e: Ent) | Zero

  datatype Bundle = Bundle(cells: seq<Cell>, rep: Ent)

  /** The sorted array, whose front is reused for the bundles. */
  datatype Overlay = Unread(e: Ent) | Made(b: Bundle)

  /** At most one entry per key and variable. */
  predicate Unique(es: seq<Ent>) {
    forall i, j :: 0 <= i < j < |es| ==> es[i].key != es[j].key || es[i].id != es[j].id
  }

  // ----- positions -----

  /** Positions start at the variable sorted by and wrap around. */
  function Names(vars: seq<nat>, sp: nat): (names: seq<nat>)
    requires sp < |vars|
    ensures |names| == |vars|
  {
    vars[sp..] + vars[..sp]
  }

  predicate First(names: seq<nat>, p: nat)
    requires p < |names|
  {
    forall i :: 0 <= i < p ==> names[i] != names[p]
  }

  /** The first n positions are recorded: a variable has its first position plus one, and a
      later position of the same variable has that number. */
  ghost predicate IsMap(names: seq<nat>, mp: seq<nat>, rm: seq<nat>, n: nat)
    requires n <= |names|
  {
    && |rm| == |names| && (forall i :: 0 <= i < |names| ==> names[i] < |mp|)
    && (forall v :: 0 <= v < |mp| ==> MapsVar(names, n, v, mp[v]))
    && (forall i :: 0 <= i < n ==> rm[i] == if First(names, i) then 0 else mp[names[i]])
    && (forall i :: n <= i < |rm| ==> rm[i] == 0)
  }

  predicate MapsVar(names: seq<nat>, n: nat, v: nat, m: nat)
    requires n <= |names|
  {
    if m == 0 then forall i :: 0 <= i < n ==> names[i] != v
    else m <= n && names[m - 1] == v && First(names, m - 1)
  }

  method BuildMap(vars: seq<nat>, sp: nat, max: nat) returns (mp: array<nat>, remap: array<nat>)
    requires sp < |vars| && forall i :: 0 <= i < |vars| ==> vars[i] <= max
    ensures fresh(mp) && fresh(remap) && mp.Length == max + 1 && remap.Length == |vars|
    ensures IsMap(Names(vars, sp), mp[..], remap[..], |vars|)
  {
    hide IsMap, MapsVar;
    ghost var names := Names(vars, sp);
    mp := new nat[max + 1](_ => 0);
    remap := new nat[|vars|](_ => 0);
    NoPositions(names, mp[..], remap[..]);
    var i := 0;
    while i < |vars|
      invariant 0 <= i <= |vars| && IsMap(names, mp[..], remap[..], i)
    {
      var ndx := i + sp;
      if ndx >= |vars| {
        ndx := ndx - |vars|;
      }
      var v := vars[ndx];
      NextPosition(names, mp[..], remap[..], i);
      if mp[v] != 0 {
        remap[i] := mp[v];
      } else {
        mp[v] := i + 1;
      }
      i := i + 1;
    }
  }

  lemma NoPositions(names: seq<nat>, mp: seq<nat>, rm: seq<nat>)
    requires |names| == |rm| && (forall i :: 0 <= i < |names| ==> names[i] < |mp|)
    requires (forall v :: 0 <= v < |mp| ==> mp[v] == 0) && forall i :: 0 <= i < |rm| ==> rm[i] == 0
    ensures IsMap(names, mp, rm, 0)
  {
  }

  lemma NextPosition(names: seq<nat>, mp: seq<nat>, rm: seq<nat>, i: nat)
    requires i < |names| && IsMap(names, mp, rm, i)
    ensures var v := names[i];
      && v < |mp| && |rm| == |names|
      && (if mp[v] != 0 then IsMap(names, mp, rm[i := mp[v]], i + 1) else IsMap(names, mp[v := i + 1], rm, i + 1))
  {
    var v := names[i];
    assert MapsVar(names, i, v, mp[v]);
    FirstHere(names, i, mp[v]);
    var mp2 := if mp[v] != 0 then mp else mp[v := i + 1];
    forall w | 0 <= w < |mp| ensures MapsVar(names, i + 1, w, mp2[w]) {
      assert MapsVar(names, i, w, mp[w]);
    }
  }

  lemma FirstHere(names: seq<nat>, i: nat, m: nat)
    requires i < |names| && MapsVar(names, i, names[i], m)
    ensures First(names, i) <==> m == 0
  {
  }

  /** The position a variable's entries go to. */
  lemma PositionOf(names: seq<nat>, mp: seq<nat>, rm: seq<nat>, v: nat)
    requires IsMap(names, mp, rm, |names|) && v < |mp|
    ensures mp[v] == 0 <==> v !in names
    ensures mp[v] != 0 ==> mp[v] <= |names| && names[mp[v] - 1] == v && First(names, mp[v] - 1)
    ensures mp[v] != 0 ==> forall p :: 0 <= p < |names| && p != mp[v] - 1 && First(names, p) ==> names[p] != v
  {
    assert MapsVar(names, |names|, v, mp[v]);
  }

  /** A repeated variable is taken from its first position. */
  lemma RemapOf(names: seq<nat>, mp: seq<nat>, rm: seq<nat>, j: nat)
    requires IsMap(names, mp, rm, |names|) && j < |names|
    ensures |rm| == |names| && (First(names, j) <==> rm[j] == 0)
    ensures rm[j] != 0 ==> rm[j] - 1 < j && names[rm[j] - 1] == names[j]
  {
    assert MapsVar(names, |names|, names[j], mp[names[j]]);
  }

  // ----- one bundle -----

  /** c is the column of variable v for the entries a..b of s. */
  ghost predicate GroupCell(s: seq<Ent>, a: nat, b: nat, v: nat, c: Cell)
    requires a <= b <= |s|
  {
    match c
    case Present(e) => e.id == v && exists k :: a <= k < b && s[k] == e
    case Zero => forall k :: a <= k < b ==> s[k].id != v
  }

  /** Position p when the entries a..j have been put in. */
  ghost predicate FilledCell(s: seq<Ent>, a: nat, j: nat, names: seq<nat>, p: nat, c: Option<Cell>)
    requires a <= j <= |s| && p < |names|
  {
    if !First(names, p) then c == None
    else if c.None? then GroupCell(s, a, j, names[p], Zero)
    else c.value.Present? && GroupCell(s, a, j, names[p], c.value)
  }

  lemma FillStart(s: seq<Ent>, a: nat, names: seq<nat>, p: nat)
    requires a <= |s| && p < |names|
    ensures FilledCell(s, a, a, names, p, None)
  {
  }

  lemma FillOne(s: seq<Ent>, a: nat, j: nat, names: seq<nat>, p: nat, c: Option<Cell>)
    requires a <= j < |s| && p < |names| && FilledCell(s, a, j, names, p, c)
    ensures names[p] != s[j].id || !First(names, p) ==> FilledCell(s, a, j + 1, names, p, c)
    ensures names[p] == s[j].id && First(names, p) ==> FilledCell(s, a, j + 1, names, p, Some(Present(s[j])))
    ensures names[p] == s[j].id && (forall k :: a <= k < j ==> s[k].id != s[j].id) ==> c == None
  {
    hide First;
    if c.Some? && c.value.Present? && First(names, p) {
      var k :| a <= k < j && s[k] == c.value.e;
      assert a <= k < j + 1;
    }
  }

  /** Collects the entries a..b of the array, all with one key, into a bundle. */
  method MakeBundle(cells: array<Overlay>, a: nat, b: nat, mp: array<nat>, remap: array<nat>, ghost s: seq<Ent>,
      ghost names: seq<nat>)
    returns (bundle: Bundle)
    requires a < b <= cells.Length == |s| && forall k :: a <= k < b ==> cells[k] == Unread(s[k])
    requires IsMap(names, mp[..], remap[..], |names|) && remap.Length == |names|
    requires forall k :: a <= k < b ==> s[k].id in names
    requires forall k, l :: a <= k < l < b ==> s[k].id != s[l].id
    ensures |bundle.cells| == |names| && bundle.rep == s[a]
    ensures forall p :: 0 <= p < |names| ==> GroupCell(s, a, b, names[p], bundle.cells[p])
  {
    hide IsMap, FilledCell, GroupCell, First;
    var n := remap.Length;
    var nb := new Option<Cell>[n](_ => None);
    forall p | 0 <= p < n ensures FilledCell(s, a, a, names, p, nb[p]) {
      FillStart(s, a, names, p);
    }
    var rep := cells[a].e;
    var j := a;
    while j < b
      invariant a <= j <= b
      invariant forall p :: 0 <= p < n ==> FilledCell(s, a, j, names, p, nb[p])
    {
      var e := cells[j].e;
      InMap(names, mp[..], remap[..], e.id);
      PositionOf(names, mp[..], remap[..], e.id);
      var q := mp[e.id] - 1;
      ghost var before := nb[..];
      nb[q] := Some(Present(e));
      forall p | 0 <= p < n ensures FilledCell(s, a, j + 1, names, p, nb[p]) {
        FillOne(s, a, j, names, p, before[p]);
      }
      j := j + 1;
    }
    var cs := Complete(nb, remap, a, b, s, names, mp[..]);
    bundle := Bundle(cs, rep);
  }

  lemma InMap(names: seq<nat>, mp: seq<nat>, rm: seq<nat>, v: nat)
    requires IsMap(names, mp, rm, |names|) && v in names
    ensures v < |mp|
  {
  }

  /** Fills the empty positions: with the first position of the same variable, or zeroes. */
  method Complete(nb: array<Option<Cell>>, remap: array<nat>, ghost a: nat, ghost b: nat, ghost s: seq<Ent>,
      ghost names: seq<nat>, ghost mp: seq<nat>)
    returns (cs: seq<Cell>)
    requires a <= b <= |s| && nb.Length == remap.Length == |names|
    requires IsMap(names, mp, remap[..], |names|)
    requires forall p :: 0 <= p < |names| ==> FilledCell(s, a, b, names, p, nb[p])
    ensures |cs| == |names| && forall p :: 0 <= p < |names| ==> GroupCell(s, a, b, names[p], cs[p])
  {
    hide IsMap, FilledCell, GroupCell, First;
    cs := [];
    var j := 0;
    while j < nb.Length
      invariant 0 <= j <= nb.Length && |cs| == j
      invariant forall p :: 0 <= p < j ==> GroupCell(s, a, b, names[p], cs[p])
    {
      RemapOf(names, mp, remap[..], j);
      CellAt(s, a, b, names, j, nb[j]);
      if nb[j].Some? {
        cs := cs + [nb[j].value];
      } else if remap[j] != 0 {
        cs := cs + [cs[remap[j] - 1]];
      } else {
        cs := cs + [Zero];
      }
      j := j + 1;
    }
  }

  lemma CellAt(s: seq<Ent>, a: nat, b: nat, names: seq<nat>, p: nat, c: Option<Cell>)
    requires a <= b <= |s| && p < |names| && FilledCell(s, a, b, names, p, c)
    ensures c.Some? ==> GroupCell(s, a, b, names[p], c.value)
    ensures c.None? && First(names, p) ==> GroupCell(s, a, b, names[p], Zero)
  {
  }

  // ----- all bundles, in place -----

  /** All keys have one signature. */
  ghost predicate AllAlike(s: seq<Ent>) {
    forall e, f :: e in s && f in s ==> Alike(e.key, f.key)
  }

  predicate SortedByKey(keypos: nat, s: seq<Ent>) {
    forall i, j :: 0 <= i < j < |s| ==> KeyCmp(keypos, s[i].key, s[j].key) <= 0
  }

  /** c is the column of variable v for a key. */
  ghost predicate IsCell(s: seq<Ent>, key: Key, v: nat, c: Cell) {
    match c
    case Present(e) => e.id == v && e.key == key && e in s
    case Zero => forall e :: e in s && e.key == key ==> e.id != v
  }

  ghost predicate IsBundle(s: seq<Ent>, names: seq<nat>, b: Bundle) {
    && |b.cells| == |names| && b.rep in s
    && forall p :: 0 <= p < |names| ==> IsCell(s, b.rep.key, names[p], b.cells[p])
  }

  /** Entries a..b are exactly those with their key. */
  ghost predicate IsGroup(s: seq<Ent>, a: nat, b: nat) {
    && a < b <= |s|
    && (forall k :: a <= k < b ==> s[k].key == s[a].key)
    && (forall k :: 0 <= k < |s| && !(a <= k < b) ==> s[k].key != s[a].key)
  }

  lemma GroupIsBundle(s: seq<Ent>, a: nat, b: nat, names: seq<nat>, bundle: Bundle)
    requires IsGroup(s, a, b) && |bundle.cells| == |names| && bundle.rep == s[a]
    requires forall p :: 0 <= p < |names| ==> GroupCell(s, a, b, names[p], bundle.cells[p])
    ensures IsBundle(s, names, bundle)
  {
    forall p | 0 <= p < |names| ensures IsCell(s, s[a].key, names[p], bundle.cells[p]) {
      assert GroupCell(s, a, b, names[p], bundle.cells[p]);
    }
  }

  /** In sorted order a run of equal keys between different neighbours is a whole group. */
  lemma RunIsGroup(keypos: nat, s: seq<Ent>, a: nat, b: nat)
    requires SortedByKey(keypos, s) && AllAlike(s) && a < b <= |s| && forall k :: a <= k < b ==> s[k].key == s[a].key
    requires (a > 0 ==> s[a - 1].key != s[a].key) && (b < |s| ==> s[b].key != s[a].key)
    ensures IsGroup(s, a, b)
  {
    hide KeyCmp;
    forall k | 0 <= k < |s| && !(a <= k < b) ensures s[k].key != s[a].key {
      if k < a {
        Between(keypos, s[k].key, s[a - 1].key, s[a].key);
      } else {
        Between(keypos, s[a].key, s[b].key, s[k].key);
      }
    }
  }

  lemma Between(keypos: nat, x: Key, y: Key, z: Key)
    requires Alike(x, y) && Alike(y, z)
    requires KeyCmp(keypos, x, y) <= 0 || x == y
    requires KeyCmp(keypos, y, z) <= 0 || y == z
    ensures (x == y || x != z) || y == z
  {
    hide KeyCmp;
    KeyEqual(keypos, x, y);
    KeyEqual(keypos, y, z);
  }

  /** The front of the array holds one bundle for each key met so far. */
  ghost predicate BundlesMade(keypos: nat, s: seq<Ent>, names: seq<nat>, cells: seq<Overlay>, nb: nat, start: nat) {
    && nb <= start <= |s| == |cells|
    && (forall k :: 0 <= k < nb ==>
          cells[k].Made? && IsBundle(s, names, cells[k].b) && KeySeen(s, start, cells[k].b.rep.key))
    && (forall k, l :: 0 <= k < l < nb ==> cells[k].b.rep.key != cells[l].b.rep.key)
    && (forall j :: 0 <= j < start ==> HasBundle(cells, nb, s[j].key))
    && (forall k :: start <= k < |s| ==> cells[k] == Unread(s[k]))
  }

  ghost predicate KeySeen(s: seq<Ent>, start: nat, key: Key)
    requires start <= |s|
  {
    exists j :: 0 <= j < start && s[j].key == key
  }

  ghost predicate HasBundle(cells: seq<Overlay>, nb: nat, key: Key)
    requires nb <= |cells|
  {
    exists k :: 0 <= k < nb && cells[k].Made? && cells[k].b.rep.key == key
  }

  /** Writing the next bundle over the array destroys no entry still to be read. */
  lemma AddBundle(keypos: nat, s: seq<Ent>, names: seq<nat>, cells: seq<Overlay>, nb: nat, start: nat, i: nat,
      b: Bundle)
    requires BundlesMade(keypos, s, names, cells, nb, start) && IsGroup(s, start, i) && IsBundle(s, names, b)
    requires b.rep == s[start]
    ensures nb < |cells| && BundlesMade(keypos, s, names, cells[nb := Made(b)], nb + 1, i)
  {
    hide IsBundle;
    var now := cells[nb := Made(b)];
    forall k | 0 <= k < nb ensures KeySeen(s, i, cells[k].b.rep.key) && cells[k].b.rep.key != b.rep.key {
      var j :| 0 <= j < start && s[j].key == cells[k].b.rep.key;
      assert 0 <= j < i;
    }
    assert KeySeen(s, i, b.rep.key);
    forall j | 0 <= j < i ensures HasBundle(now, nb + 1, s[j].key) {
      if j < start {
        var k :| 0 <= k < nb && cells[k].Made? && cells[k].b.rep.key == s[j].key;
        assert now[k] == cells[k];
      } else {
        assert now[nb].b.rep.key == s[j].key;
      }
    }
  }

  lemma NoBundles(keypos: nat, s: seq<Ent>, names: seq<nat>, cells: seq<Overlay>)
    requires |s| == |cells| && forall k :: 0 <= k < |s| ==> cells[k] == Unread(s[k])
    ensures BundlesMade(keypos, s, names, cells, 0, 0)
  {
  }

  method MakeBundles(keypos: nat, cells: array<Overlay>, mp: array<nat>, remap: array<nat>, ghost s: seq<Ent>,
      ghost names: seq<nat>)
    returns (nb: nat)
    requires cells.Length == |s| > 0 && forall k :: 0 <= k < |s| ==> cells[k] == Unread(s[k])
    requires IsMap(names, mp[..], remap[..], |names|) && remap.Length == |names|
    requires SortedByKey(keypos, s) && AllAlike(s) && Unique(s) && forall k :: 0 <= k < |s| ==> s[k].id in names
    modifies cells
    ensures BundlesMade(keypos, s, names, cells[..], nb, |s|)
  {
    hide IsMap, BundlesMade, SortedByKey, KeyCmp, IsGroup, GroupCell, IsBundle, Unique, AllAlike, Alike;
    var n := cells.Length;
    nb := 0;
    var i, start := 1, 0;
    NoBundles(keypos, s, names, cells[..]);
    while i <= n
      invariant 1 <= i <= n + 1 && nb <= start && (if i <= n then start < i else start == n)
      invariant forall k :: start <= k < n ==> cells[k] == Unread(s[k])
      invariant BundlesMade(keypos, s, names, cells[..], nb, start)
      invariant forall k :: start <= k < i && k < n ==> s[k].key == s[start].key
      invariant 0 < start < n ==> s[start - 1].key != s[start].key
    {
      var same := false;
      if i < n {
        AlikeAt(s, i, i - 1);
        KeyEqual(keypos, s[i].key, s[i - 1].key);
        var c := KeyCompare(keypos, cells[i].e.key, cells[i - 1].e.key);
        same := c == 0;
      }
      if !same {
        RunIsGroup(keypos, s, start, i);
        DistinctInGroup(s, start, i);
        var bundle := MakeBundle(cells, start, i, mp, remap, s, names);
        GroupIsBundle(s, start, i, names, bundle);
        AddBundle(keypos, s, names, cells[..], nb, start, i, bundle);
        cells[nb] := Made(bundle);
        nb := nb + 1;
        start := i;
      }
      i := i + 1;
    }
  }

  lemma AlikeAt(s: seq<Ent>, i: nat, j: nat)
    requires AllAlike(s) && i < |s| && j < |s|
    ensures Alike(s[i].key, s[j].key)
  {
    assert s[i] in s && s[j] in s;
  }

  lemma DistinctInGroup(s: seq<Ent>, a: nat, b: nat)
    requires IsGroup(s, a, b) && Unique(s)
    ensures forall k, l :: a <= k < l < b ==> s[k].id != s[l].id
  {
  }

  // ----- the walk -----

  /** Orders entries by key and then by variable. */
  method SortEntries(keypos: nat, es: seq<Ent>) returns (s: seq<Ent>)
    requires AllAlike(es)
    ensures SortedByKey(keypos, s) && multiset(s) == multiset(es)
  {
    hide KeyCmp, AllAlike, Alike;
    s := [];
    for i := 0 to |es|
      invariant SortedByKey(keypos, s) && multiset(s) == multiset(es[..i])
    {
      var x, k := es[i], |s|;
      assert forall j, l :: 0 <= j < |s| && 0 <= l < |s| ==>
        Alike(s[j].key, x.key) && Alike(x.key, s[j].key) && Alike(s[j].key, s[l].key) by { AlikeBefore(es, s, i); }
      var after := true;
      while k > 0 && after
        invariant 0 <= k <= |s|
        invariant forall j :: k <= j < |s| ==> KeyCmp(keypos, x.key, s[j].key) <= 0
        invariant !after ==> k > 0 && KeyCmp(keypos, s[k - 1].key, x.key) <= 0
        decreases k, after
      {
        var c := KeyCompare(keypos, s[k - 1].key, x.key);
        KeyEqual(keypos, s[k - 1].key, x.key);
        after := c > 0 || (c == 0 && s[k - 1].id > x.id);
        if after {
          k := k - 1;
        }
      }
      forall j | 0 <= j < k ensures KeyCmp(keypos, s[j].key, x.key) <= 0 {
        if j < k - 1 {
          KeyTrans(keypos, s[j].key, s[k - 1].key, x.key);
        }
      }
      Inserted(s, k, es, i);
      s := s[..k] + [x] + s[k..];
    }
    assert es[..|es|] == es;
  }

  lemma AlikeBefore(es: seq<Ent>, s: seq<Ent>, i: nat)
    requires AllAlike(es) && i < |es| && multiset(s) == multiset(es[..i])
    ensures forall j, l :: 0 <= j < |s| && 0 <= l < |s| ==>
      Alike(s[j].key, es[i].key) && Alike(es[i].key, s[j].key) && Alike(s[j].key, s[l].key)
  {
    hide Alike;
    forall j | 0 <= j < |s| ensures s[j] in es {
      assert s[j] in multiset(s);
    }
    assert es[i] in es;
  }

  lemma AlikePermutation(es: seq<Ent>, s: seq<Ent>)
    requires AllAlike(es) && forall e :: e in s ==> e in es
    ensures AllAlike(s)
  {
  }

  lemma Inserted(s: seq<Ent>, k: nat, es: seq<Ent>, i: nat)
    requires k <= |s| && i < |es| && multiset(s) == multiset(es[..i])
    ensures multiset(s[..k] + [es[i]] + s[k..]) == multiset(es[..i + 1])
  {
    assert s == s[..k] + s[k..];
    assert es[..i + 1] == es[..i] + [es[i]];
  }

  lemma {:induction false} UniquePermutation(a: seq<Ent>, b: seq<Ent>)
    requires multiset(a) == multiset(b) && Unique(a)
    ensures Unique(b) && |a| == |b| && forall e :: e in a <==> e in b
    decreases |a|
  {
    assert forall e :: e in a <==> e in multiset(a);
    assert forall e :: e in b <==> e in multiset(b);
    assert |multiset(a)| == |multiset(b)|;
    forall i, j | 0 <= i < j < |b| ensures b[i].key != b[j].key || b[i].id != b[j].id {
      if b[i] == b[j] {
        TwiceIn(b, i, j);
        AtMostOnce(a, b[i]);
      } else {
        assert b[i] in a && b[j] in a;
        var k :| 0 <= k < |a| && a[k] == b[i];
        var l :| 0 <= l < |a| && a[l] == b[j];
      }
    }
  }

  lemma TwiceIn(b: seq<Ent>, i: nat, j: nat)
    requires i < j < |b| && b[i] == b[j]
    ensures multiset(b)[b[i]] >= 2
  {
    assert b == b[..i] + [b[i]] + b[i + 1..j] + [b[j]] + b[j + 1..];
  }

  lemma {:induction false} AtMostOnce(a: seq<Ent>, x: Ent)
    requires Unique(a)
    ensures multiset(a)[x] <= 1
    decreases |a|
  {
    if a != [] {
      var n := |a| - 1;
      AtMostOnce(a[..n], x);
      assert a == a[..n] + [a[n]];
      if a[n] == x {
        assert x !in a[..n];
        assert multiset(a[..n])[x] == 0;
      }
    }
  }

  /** One row: the representative entry of the key, and a column per requested variable. */
  datatype Row = Row(rep: Ent, columns: seq<Cell>)

  ghost predicate IsRow(es: seq<Ent>, vars: seq<nat>, r: Row) {
    && |r.columns| == |vars| && r.rep in es && r.rep.id in vars
    && forall j :: 0 <= j < |vars| ==> IsCell(es, r.rep.key, vars[j], r.columns[j])
  }

  /** One row per key: complete, without repetition. */
  ghost predicate IsJoin(es: seq<Ent>, vars: seq<nat>, rows: seq<Row>) {
    && (forall i :: 0 <= i < |rows| ==> IsRow(es, vars, rows[i]))
    && (forall i, j :: 0 <= i < j < |rows| ==> rows[i].rep.key != rows[j].rep.key)
    && (forall e :: e in es && e.id in vars ==> HasRow(rows, e.key))
  }

  ghost predicate HasRow(rows: seq<Row>, key: Key) {
    exists i :: 0 <= i < |rows| && rows[i].rep.key == key
  }

  /** The entries of the requested variables. */
  function Matching(es: seq<Ent>, vars: seq<nat>): (m: seq<Ent>)
    ensures forall e :: e in m <==> e in es && e.id in vars
  {
    if es == [] then []
    else
      var n := |es| - 1;
      assert es == es[..n] + [es[n]];
      Matching(es[..n], vars) + if es[n].id in vars then [es[n]] else []
  }

  lemma {:induction false} MatchingUnique(es: seq<Ent>, vars: seq<nat>)
    requires Unique(es)
    ensures Unique(Matching(es, vars))
    decreases |es|
  {
    if es != [] {
      var n := |es| - 1;
      MatchingUnique(es[..n], vars);
      var m := Matching(es[..n], vars);
      forall k | 0 <= k < |m| ensures m[k].key != es[n].key || m[k].id != es[n].id {
        assert m[k] in es[..n];
        var i :| 0 <= i < n && es[i] == m[k];
      }
    }
  }

  method Collect(es: seq<Ent>, mp: array<nat>, ghost names: seq<nat>, ghost rm: seq<nat>) returns (m: seq<Ent>)
    requires IsMap(names, mp[..], rm, |names|)
    ensures m == Matching(es, names)
  {
    hide IsMap;
    m := [];
    for i := 0 to |es|
      invariant m == Matching(es[..i], names)
    {
      assert es[..i + 1][..i] == es[..i];
      if es[i].id < mp.Length {
        PositionOf(names, mp[..], rm, es[i].id);
        if mp[es[i].id] != 0 {
          m := m + [es[i]];
        }
      } else {
        NotRequested(names, mp[..], rm, es[i].id);
      }
    }
    assert es[..|es|] == es;
  }

  lemma NotRequested(names: seq<nat>, mp: seq<nat>, rm: seq<nat>, v: nat)
    requires IsMap(names, mp, rm, |names|) && v >= |mp|
    ensures v !in names
  {
  }

  /** Where the column of the j-th requested variable is in a bundle. */
  function BundleIndex(n: nat, sp: nat, j: nat): (p: nat)
    requires sp < n && j < n
    ensures p < n
  {
    if j < sp then j - sp + n else j - sp
  }

  lemma NamesAt(vars: seq<nat>, sp: nat, j: nat)
    requires sp < |vars| && j < |vars|
    ensures Names(vars, sp)[BundleIndex(|vars|, sp, j)] == vars[j]
  {
  }

  lemma SameNames(vars: seq<nat>, sp: nat)
    requires sp < |vars|
    ensures forall v :: v in vars <==> v in Names(vars, sp)
  {
    assert vars == vars[..sp] + vars[sp..];
  }

  method MakeRow(b: Bundle, n: nat, sp: nat) returns (r: Row)
    requires sp < n == |b.cells|
    ensures r.rep == b.rep && |r.columns| == n
    ensures forall j :: 0 <= j < n ==> r.columns[j] == b.cells[BundleIndex(n, sp, j)]
  {
    var cols := [];
    for j := 0 to n
      invariant |cols| == j && forall k :: 0 <= k < j ==> cols[k] == b.cells[BundleIndex(n, sp, k)]
    {
      var ndx := j - sp;
      if ndx < 0 {
        ndx := ndx + n;
      }
      cols := cols + [b.cells[ndx]];
    }
    r := Row(b.rep, cols);
  }

  lemma RowOf(es: seq<Ent>, s: seq<Ent>, vars: seq<nat>, sp: nat, b: Bundle, r: Row)
    requires sp < |vars| && IsBundle(s, Names(vars, sp), b) && (forall e :: e in s <==> e in es && e.id in vars)
    requires r.rep == b.rep && |r.columns| == |vars|
    requires forall j :: 0 <= j < |vars| ==> r.columns[j] == b.cells[BundleIndex(|vars|, sp, j)]
    ensures IsRow(es, vars, r)
  {
    hide Names, BundleIndex;
    forall j | 0 <= j < |vars| ensures IsCell(es, r.rep.key, vars[j], r.columns[j]) {
      NamesAt(vars, sp, j);
      var p := BundleIndex(|vars|, sp, j);
      assert IsCell(s, b.rep.key, Names(vars, sp)[p], b.cells[p]);
      CellAgrees(es, s, vars, r.rep.key, vars[j], r.columns[j]);
    }
  }

  lemma CellAgrees(es: seq<Ent>, s: seq<Ent>, vars: seq<nat>, key: Key, v: nat, c: Cell)
    requires (forall e :: e in s <==> e in es && e.id in vars) && v in vars && IsCell(s, key, v, c)
    ensures IsCell(es, key, v, c)
  {
  }

  /** Walks the table: None for a bad variable id, else one row per key. */
  method Walk(es: seq<Ent>, aggvars: seq<int>, sortpos: Option<nat>, keypos: nat) returns (rows: Option<seq<Row>>)
    requires Unique(es) && AllAlike(es)
    ensures rows.None? <==> exists i :: 0 <= i < |aggvars| && aggvars[i] <= 0
    ensures rows.Some? ==>
      var vars := seq(|aggvars|, i requires 0 <= i < |aggvars| => (if aggvars[i] > 0 then aggvars[i] else 0) as nat);
      IsJoin(es, vars, rows.value)
  {
    hide IsMap, BundlesMade, IsJoin, Matching, Unique, SortedByKey, Names, AllAlike;
    var sp := if sortpos.None? || sortpos.value >= |aggvars| then 0 else sortpos.value;
    var max := 0;
    for i := 0 to |aggvars|
      invariant max >= 0 && forall k :: 0 <= k < i ==> 0 < aggvars[k] <= max
    {
      if aggvars[i] <= 0 {
        return None;
      }
      if aggvars[i] > max {
        max := aggvars[i];
      }
    }
    var vars := seq(|aggvars|, i requires 0 <= i < |aggvars| => (if aggvars[i] > 0 then aggvars[i] else 0) as nat);
    if |aggvars| == 0 {
      EmptyJoin(es, vars, []);
      return Some([]);
    }
    var mp, remap := BuildMap(vars, sp, max);
    ghost var names := Names(vars, sp);
    SameNames(vars, sp);
    var m := Collect(es, mp, names, remap[..]);
    MatchingUnique(es, names);
    if |m| == 0 {
      EmptyJoin(es, vars, names);
      return Some([]);
    }
    AlikePermutation(es, m);
    var s := SortEntries(keypos, m);
    UniquePermutation(m, s);
    AlikePermutation(m, s);
    var cells := new Overlay[|s|](i requires 0 <= i < |s| => Unread(s[i]));
    var nb := MakeBundles(keypos, cells, mp, remap, s, names);
    var out := Rows(keypos, es, s, vars, sp, cells, nb);
    return Some(out);
  }

  lemma EmptyJoin(es: seq<Ent>, vars: seq<nat>, names: seq<nat>)
    requires (Matching(es, names) == [] || names == []) && forall v :: v in vars <==> v in names
    ensures IsJoin(es, vars, [])
  {
  }

  method Rows(keypos: nat, ghost es: seq<Ent>, ghost s: seq<Ent>, vars: seq<nat>, sp: nat, cells: array<Overlay>,
      nb: nat)
    returns (rows: seq<Row>)
    requires sp < |vars| && BundlesMade(keypos, s, Names(vars, sp), cells[..], nb, |s|)
    requires forall e :: e in s <==> e in es && e.id in vars
    ensures IsJoin(es, vars, rows)
  {
    hide Names, IsRow, IsBundle, BundleIndex;
    rows := [];
    for i := 0 to nb
      invariant |rows| == i && forall k :: 0 <= k < i ==> IsRow(es, vars, rows[k]) && rows[k].rep == cells[k].b.rep
    {
      BundleSize(s, Names(vars, sp), cells[i].b);
      var r := MakeRow(cells[i].b, |vars|, sp);
      RowOf(es, s, vars, sp, cells[i].b, r);
      rows := rows + [r];
    }
    forall e | e in es && e.id in vars ensures HasRow(rows, e.key) {
      assert e in s;
      var j :| 0 <= j < |s| && s[j] == e;
      assert HasBundle(cells[..], nb, s[j].key);
      var k :| 0 <= k < nb && cells[k].Made? && cells[k].b.rep.key == e.key;
      assert rows[k].rep.key == e.key;
    }
  }

  lemma BundleSize(s: seq<Ent>, names: seq<nat>, b: Bundle)
    requires IsBundle(s, names, b)
    ensures |b.cells| == |names|
  {
  }
}
