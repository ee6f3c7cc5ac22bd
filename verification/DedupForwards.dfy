/** What resolving forward declarations can go wrong on: a graph on which one of them is
    paired with two different structs of its name. */
module DedupForwards {
  import opened BtfGraph
  import opened CanonMap
  import opened DedupTheory
  import opened Dedup
  import opened DedupErrors

  function Named(name: nat): Header {
    Header(name, false, 0)
  }

  const SHORT := 2
  const LONG := 7
  const DECL := 11

  /** Structs SHORT and LONG have one name and different members; DECL announces that name.
      One struct of each other name points to one of the two, its twin points to DECL. */
  function Ambiguous(): Graph {
    [ Void,
      Int(Named(1), 4, 0),
      Struct(false, Named(2), 4, [Member(3, 1, 0)]),
      Struct(false, Named(4), 8, [Member(5, 8, 0)]),
      Struct(false, Named(6), 8, [Member(5, 9, 0)]),
      Struct(false, Named(4), 8, [Member(5, 10, 0)]),
      Struct(false, Named(6), 8, [Member(5, 10, 0)]),
      Struct(false, Named(2), 8, [Member(3, 1, 0), Member(7, 1, 32)]),
      Ref(Ptr, Named(0), LONG),
      Ref(Ptr, Named(0), SHORT),
      Ref(Ptr, Named(0), DECL),
      Fwd(Named(2), 0) ]
  }

  const N: nat := UNPROCESSED

  /** The canonical map when the struct pass reaches id 5, ... */
  function Before(): Links {
    [0, 1, 2, 3, 4, N, N, N, N, N, N, 11]
  }

  /** ... and when it reaches id 6. */
  function Between(): Links {
    [0, 1, 2, 3, 4, 3, N, N, N, N, N, LONG]
  }

  /** The pairs the traversal records for id 5 against 3, ... */
  function FirstPairs(): seq<nat> {
    [N, N, N, 5, N, N, N, DECL, 10, N, N, N]
  }

  /** ... and for id 6 against 4. */
  function SecondPairs(): seq<nat> {
    [N, N, DECL, N, 6, N, N, N, N, 10, N, N]
  }

  lemma AmbiguousGraph()
    ensures Closed(Ambiguous()) && |Ambiguous()| == 12
    ensures !Same(true, Ambiguous(), LONG, Ambiguous(), SHORT) && !Unambiguous(Ambiguous())
  {
    var g := Ambiguous();
    assert Closed(g);
    assert !AgreeTo(true, g, LONG, g, SHORT, 1);
    assert Announced(g, DECL, LONG, SHORT);
  }

  /** Labels are all that links need on this graph. */
  lemma LabelsFit(m: Links, rank: seq<nat>)
    requires |m| == 12 && m[0] == 0 && InRange(m) && RankedBy(m, rank)
    requires forall i :: 0 <= i < |m| && Link(m, i) ==> Label(Ambiguous()[i]) == Label(Ambiguous()[m[i]])
    ensures LinksOk(Ambiguous(), m, false)
  {
    hide Label, Unambiguous;
    AmbiguousGraph();
    hide Ambiguous;
  }

  lemma MapsFit()
    ensures LinksOk(Ambiguous(), Before(), false) && LinksOk(Ambiguous(), Between(), false)
  {
    LabelsFit(Before(), seq(12, _ => 0));
    LabelsFit(Between(), seq(12, i => if i == 5 || i == 11 then 1 else 0));
  }

  lemma FirstTraversal()
    ensures LinksOk(Ambiguous(), Before(), false) && AllPairsOk(Ambiguous(), Before(), false, FirstPairs())
  {
    hide LinksOk, Root, Closed;
    var g, m, h := Ambiguous(), Before(), FirstPairs();
    MapsFit();
    LinksOkParts(g, m, false);
    assert PairOk(g, m, false, h, 3);
    assert PairOk(g, m, false, h, 8);
    assert PairOk(g, m, false, h, 7);
  }

  lemma SecondTraversal()
    ensures LinksOk(Ambiguous(), Between(), false) && AllPairsOk(Ambiguous(), Between(), false, SecondPairs())
  {
    hide LinksOk, Root, Closed;
    var g, m, h := Ambiguous(), Between(), SecondPairs();
    MapsFit();
    LinksOkParts(g, m, false);
    assert PairOk(g, m, false, h, 4);
    assert PairOk(g, m, false, h, 9);
    assert PairOk(g, m, false, h, 2);
  }

  /** Both traversals succeed, and what they tell the pass to join puts two different
      structs together. */
  lemma DifferentStructsJoined()
    ensures var g := Ambiguous();
      && LinksOk(g, Before(), false) && AllPairsOk(g, Before(), false, FirstPairs())
      && FirstPairs()[3] == 5 && FirstPairs()[LONG] == DECL
      && MergedRoots(g, Before()[5 := 3], DECL, LONG) == Between()
      && LinksOk(g, Between(), false) && AllPairsOk(g, Between(), false, SecondPairs())
      && SecondPairs()[4] == 6 && SecondPairs()[SHORT] == DECL
      && Root(Between(), DECL) == LONG && MergedRoots(g, Between(), LONG, SHORT)[LONG] == SHORT
      && !Same(true, g, LONG, g, SHORT)
  {
    hide LinksOk, AllPairsOk, Same, Closed;
    FirstTraversal();
    SecondTraversal();
    LinksOkParts(Ambiguous(), Between(), false);
    AmbiguousGraph();
  }

  /** The same, as the merging code runs. */
  method JoinDifferentStructs(d: BtfDedup)
    requires d.Linked() && d.g == d.types[..] == Ambiguous() && !d.noFwd && d.map_[..] == Before()
    modifies d.map_
    ensures d.Linked() && d.map_[LONG] == SHORT
    ensures !Same(true, d.g, LONG, d.g, SHORT)
  {
    hide LinksOk, Same, Unambiguous, Closed;
    AmbiguousGraph();
    LinksOkParts(d.g, Before(), false);
    d.MergeOne(DECL, LONG);
    LinksOkParts(d.g, d.map_[..], false);
    d.MergeOne(DECL, SHORT);
  }

  // ----- how the passes get there -----

  lemma AmbiguousTame()
    ensures Closed(Ambiguous()) && Tame(Ambiguous())
  {
    hide Refs, Unambiguous, Same, Ambiguous;
    AmbiguousGraph();
    AmbiguousKinds();
  }

  lemma AmbiguousKinds()
    ensures OneVoid(Ambiguous()) && forall i :: 0 <= i < |Ambiguous()| ==> Traversable(Ambiguous()[i])
  {
  }

  /** The map when the struct pass reaches id i. */
  function Until(i: nat): Links {
    [0, 1, if i > 2 then 2 else N, if i > 3 then 3 else N, if i > 4 then 4 else N, N, N, N, N, N, N, DECL]
  }

  /** After the primitive pass the int and the declaration stand for themselves: nothing else
      that was mapped has their name and kind. */
  lemma AfterPrims(m: Links)
    requires LinksOk(Ambiguous(), m, false) && TargetsMapped(m)
    requires forall x :: 0 < x < 12 ==> if x in {1, DECL} then Mapped(m, x) else m[x] == UNPROCESSED
    ensures m == Until(2)
  {
    hide Acyclic, Same, Coherent, Closed;
    var g := Ambiguous();
    LinksOkParts(g, m, false);
    forall x | x in {1, DECL} ensures m[x] == x {
      if Link(m, x) {
        assert LinkFits(g, false, x, m[x]) && Mapped(m, m[x]);
      }
    }
  }

  /** Until id 5 there is no struct of the same outline for a struct to join. */
  lemma NoTwinYet(i: nat, c: nat)
    requires 2 <= i <= 4 && Canonical(Ambiguous(), Until(i), false, c)
    requires ShallowEqualStruct(Ambiguous()[i], Ambiguous()[c])
    ensures c == i
  {
  }

  /** On this graph the passes come to the state above, and merging goes wrong from there. */
  method RunAmbiguous() returns (d: BtfDedup)
    ensures d.g == Ambiguous() && !d.noFwd && d.Linked()
    ensures d.map_[LONG] == SHORT && !Same(true, d.g, LONG, d.g, SHORT)
  {
    hide LinksOk, Same, Unambiguous, Closed, TableFits, HypOk, HashMaps.HashMap.Items, HashMaps.HashMap.Valid, Tame;
    hide TargetsMapped, Acyclic, Stable, Canonical, ShallowEqualStruct, Pairable, NoMatch;
    AmbiguousGraph();
    AmbiguousTame();
    d := new BtfDedup(Ambiguous(), false);
    StartTargets(d.g, d.map_[..]);
    var r := d.PrimTypes();
    assert r.Ok? by { TameOneVoid(d.g); }
    AfterPrims(d.map_[..]);
    Structs(d);
    JoinDifferentStructs(d);
  }

  /** Ids 1 to 4 of the struct pass. */
  method Structs(d: BtfDedup)
    requires d.Ready() && HypOk(d.g, d.hypotMap[..], d.hypotList) && d.g == Ambiguous() && !d.noFwd
    requires d.map_[..] == Until(2)
    modifies d.map_, d.hypotMap, d`hypotList, d.table
    ensures d.Ready() && d.map_[..] == Before()
  {
    hide LinksOk, Closed, TableFits, HypOk, HashMaps.HashMap.Items, HashMaps.HashMap.Valid, Tame, Ambiguous;
    assert !Ambiguous()[1].Struct? by { StructIds(); }
    var r := d.StructType(1);
    for i := 2 to 5
      invariant d.Ready() && HypOk(d.g, d.hypotMap[..], d.hypotList) && d.map_[..] == Until(i)
    {
      OneStruct(d, i);
    }
  }

  lemma StructIds()
    ensures |Ambiguous()| == 12 && forall i :: 0 <= i < 12 ==> (Ambiguous()[i].Struct? <==> 2 <= i <= 7)
  {
  }

  method OneStruct(d: BtfDedup, i: nat)
    requires d.Ready() && HypOk(d.g, d.hypotMap[..], d.hypotList) && d.g == Ambiguous() && !d.noFwd
    requires 2 <= i <= 4 && d.map_[..] == Until(i)
    modifies d.map_, d.hypotMap, d`hypotList, d.table
    ensures d.Ready() && HypOk(d.g, d.hypotMap[..], d.hypotList) && d.map_[..] == Until(i + 1)
  {
    hide LinksOk, Closed, TableFits, HypOk, HashMaps.HashMap.Items, HashMaps.HashMap.Valid, Tame, Ambiguous;
    hide Acyclic, Stable, Canonical, ShallowEqualStruct, Pairable, NoMatch;
    StructIds();
    AmbiguousTame();
    var r := d.StructType(i);
    if d.map_[i] != i {
      NoTwinYet(i, d.map_[i]);
    }
    assert Until(i)[i := i] == Until(i + 1);
  }
}
