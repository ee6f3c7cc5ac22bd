/** When deduplication fails, and when it cannot. */
module DedupErrors {
  import opened BtfGraph
  import opened CanonMap
  import opened DedupTheory

  predicate Traversable(t: BtfType) {
    !t.Var? && !t.DataSec?
  }

  /** Only id 0 is void. */
  predicate OneVoid(g: Graph) {
    forall i :: 0 < i < |g| ==> !g[i].Void?
  }

  /** Moreover, only sections refer to variables or sections. */
  ghost predicate Tame(g: Graph) {
    && OneVoid(g)
    && forall i, c :: 0 <= i < |g| && Traversable(g[i]) && 0 <= c < |Refs(g[i])| ==>
         Refs(g[i])[c] < |g| && Traversable(g[Refs(g[i])[c]])
  }

  lemma InvalidMeaning(noFwd: bool, a: BtfType, b: BtfType)
    requires Compare(noFwd, a, b) == Stop(Invalid) && Traversable(a)
    ensures a.Void? && b.Void?
  {
  }

  /** In a tame graph the traversal meets no pair of kinds it cannot compare. */
  lemma NotInvalid(g: Graph, m: Links, noFwd: bool, cand: nat, canon: nat)
    requires LinksOk(g, m, noFwd) && Tame(g) && cand < |g| && canon < |g| && Traversable(g[cand])
    requires Root(m, cand) != Root(m, canon)
    ensures FwdId(g, m, canon) < |g| && Compare(noFwd, g[cand], g[FwdId(g, m, canon)]) != Stop(Invalid)
  {
    hide Compare, LinkFits;
    var c := FwdId(g, m, canon);
    if Compare(noFwd, g[cand], g[c]) == Stop(Invalid) {
      InvalidMeaning(noFwd, g[cand], g[c]);
    }
  }

  lemma TameRefs(g: Graph, i: nat)
    requires Tame(g) && i < |g| && Traversable(g[i])
    ensures forall c :: 0 <= c < |Refs(g[i])| ==> Refs(g[i])[c] < |g| && Traversable(g[Refs(g[i])[c]])
  {
  }

  lemma TameStep(g: Graph, m: Links, noFwd: bool, cand: nat, canon: nat)
    requires LinksOk(g, m, noFwd) && cand < |g| && canon < |g| && Root(m, cand) != Root(m, canon)
    ensures Tame(g) && Traversable(g[cand]) ==>
      && Compare(noFwd, g[cand], g[FwdId(g, m, canon)]) != Stop(Invalid)
      && forall c :: 0 <= c < |Refs(g[cand])| ==> Refs(g[cand])[c] < |g| && Traversable(g[Refs(g[cand])[c]])
  {
    hide Tame, Compare, LinkFits, Refs;
    if Tame(g) && Traversable(g[cand]) {
      NotInvalid(g, m, noFwd, cand, canon);
      TameRefs(g, cand);
    }
  }

  // ----- the reference pass -----

  /** Chains of references end: each reference type ranks above what it refers to. */
  ghost predicate Ranking(g: Graph, rank: seq<nat>) {
    && |rank| == |g|
    && forall i, c :: 0 <= i < |g| && IsRefType(g[i]) && 0 <= c < |Refs(g[i])| ==>
         Refs(g[i])[c] < |g| && rank[Refs(g[i])[c]] < rank[i]
  }

  ghost predicate RefersInto(t: BtfType, loop: set<nat>) {
    exists c :: 0 <= c < |Refs(t)| && Refs(t)[c] in loop
  }

  /** Reference types that lead to one another for ever. */
  ghost predicate IsLoop(g: Graph, loop: set<nat>) {
    forall x :: x in loop ==> x < |g| && IsRefType(g[x]) && RefersInto(g[x], loop)
  }

  ghost predicate HasLoop(g: Graph) {
    exists loop :: loop != {} && IsLoop(g, loop)
  }

  ghost function SomeRanking(g: Graph): seq<nat> {
    if rank :| Ranking(g, rank) then rank else []
  }

  ghost function SomeLoop(g: Graph): set<nat> {
    if loop :| loop != {} && IsLoop(g, loop) then loop else {}
  }

  /** Either chains of references end, or some reference types lead to one another for ever. */
  lemma RankingOrLoop(g: Graph)
    requires Closed(g)
    ensures Ranking(g, SomeRanking(g)) <==> !HasLoop(g)
    ensures HasLoop(g) ==> SomeLoop(g) != {} && IsLoop(g, SomeLoop(g))
  {
    hide Ranking, IsLoop;
    if Ranking(g, SomeRanking(g)) {
      forall loop: set<nat> | loop != {} ensures !IsLoop(g, loop) {
        RankingNoLoop(g, SomeRanking(g), loop);
      }
    } else {
      var left := set x | 0 <= x < |g| && IsRefType(g[x]);
      assert RankedBut(g, seq(|g|, _ => 0), 0, left);
      Peel(g, left, seq(|g|, _ => 0), 0);
    }
  }

  lemma RankingNoLoop(g: Graph, rank: seq<nat>, loop: set<nat>)
    requires Ranking(g, rank) && loop != {}
    ensures !IsLoop(g, loop)
  {
    if IsLoop(g, loop) {
      var x :| x in loop;
      Descent(g, rank, loop, x);
    }
  }

  lemma {:induction false} Descent(g: Graph, rank: seq<nat>, loop: set<nat>, x: nat)
    requires Ranking(g, rank) && x in loop && IsLoop(g, loop)
    ensures false
    decreases if x < |rank| then rank[x] else 0
  {
    hide Refs;
    var c :| 0 <= c < |Refs(g[x])| && Refs(g[x])[c] in loop;
    Descent(g, rank, loop, Refs(g[x])[c]);
  }

  /** Every reference type outside `left` ranks above what it refers to, which is outside too. */
  ghost predicate RankedBut(g: Graph, rank: seq<nat>, top: nat, left: set<nat>) {
    && |rank| == |g|
    && (forall x :: x in left ==> x < |g| && IsRefType(g[x]))
    && (forall x :: 0 <= x < |g| ==> rank[x] <= top)
    && (forall x, c :: 0 <= x < |g| && x !in left && IsRefType(g[x]) && 0 <= c < |Refs(g[x])| ==>
          Refs(g[x])[c] < |g| && Refs(g[x])[c] !in left && rank[Refs(g[x])[c]] < rank[x])
  }

  lemma {:induction false} Peel(g: Graph, left: set<nat>, rank: seq<nat>, top: nat)
    requires Closed(g) && RankedBut(g, rank, top, left)
    ensures (exists rank :: Ranking(g, rank)) || (exists loop :: loop != {} && IsLoop(g, loop))
    decreases left
  {
    hide RefersInto, Refs;
    if left == {} {
      assert Ranking(g, rank);
    } else if x :| x in left && !RefersInto(g[x], left) {
      PeelOne(g, left, rank, top, x);
      Peel(g, left - {x}, rank[x := top + 1], top + 1);
    } else {
      assert IsLoop(g, left);
    }
  }

  lemma PeelOne(g: Graph, left: set<nat>, rank: seq<nat>, top: nat, x: nat)
    requires Closed(g) && RankedBut(g, rank, top, left) && x in left && !RefersInto(g[x], left)
    ensures RankedBut(g, rank[x := top + 1], top + 1, left - {x})
  {
    hide Refs;
  }

  predicate Waiting(m: Links, i: nat)
    requires i < |m|
  {
    !Mapped(m, i) && m[i] != IN_PROGRESS
  }

  /** Records not yet visited are as they were; only reference types are without a map entry. */
  ghost predicate Pending(g: Graph, ts: Graph, m: Links) {
    && |ts| == |m| == |g|
    && forall i :: 0 <= i < |g| ==> (IsRefType(g[i]) || Mapped(m, i)) && (Waiting(m, i) ==> ts[i] == g[i])
  }

  /** Types in progress rank at least r; none of the loop has been mapped. */
  ghost predicate Chart(g: Graph, m: Links, rank: seq<nat>, loop: set<nat>, r: nat)
    requires |m| == |g|
  {
    && (Ranking(g, rank) ==> forall j :: 0 <= j < |m| && m[j] == IN_PROGRESS ==> rank[j] >= r)
    && (IsLoop(g, loop) ==> forall x :: x in loop ==> x < |m| && !Mapped(m, x))
  }

  function RankOf(rank: seq<nat>, i: nat): nat {
    if i < |rank| then rank[i] else 0
  }

  lemma NotInProgress(g: Graph, m: Links, rank: seq<nat>, loop: set<nat>, id: nat)
    requires |m| == |g| && id < |g| && Chart(g, m, rank, loop, RankOf(rank, id) + 1)
    ensures m[id] == IN_PROGRESS ==> !Ranking(g, rank)
    ensures IsLoop(g, loop) && Mapped(m, id) ==> id !in loop
  {
  }

  /** Starting on id. */
  lemma ChartStart(g: Graph, ts: Graph, m: Links, rank: seq<nat>, loop: set<nat>, id: nat)
    requires Pending(g, ts, m) && id < |g| && Chart(g, m, rank, loop, RankOf(rank, id) + 1) && !Mapped(m, id)
    ensures var m' := m[id := IN_PROGRESS]; Pending(g, ts, m') && Chart(g, m', rank, loop, RankOf(rank, id))
    ensures IsRefType(g[id]) && (m[id] != IN_PROGRESS ==> ts[id] == g[id])
  {
  }

  /** Going on to something id refers to. */
  lemma ChartDown(g: Graph, m: Links, rank: seq<nat>, loop: set<nat>, id: nat, c: nat)
    requires |m| == |g| && id < |g| && IsRefType(g[id]) && c < |Refs(g[id])|
    requires Chart(g, m, rank, loop, RankOf(rank, id))
    ensures Chart(g, m, rank, loop, RankOf(rank, Refs(g[id])[c]) + 1)
  {
  }

  /** When nothing is in progress, anything may be next. */
  lemma ChartIdle(g: Graph, m: Links, rank: seq<nat>, loop: set<nat>, r: nat)
    requires |m| == |g| && (forall j :: 0 <= j < |m| ==> m[j] != IN_PROGRESS)
    requires IsLoop(g, loop) ==> NoneMapped(m, loop)
    ensures Chart(g, m, rank, loop, r)
  {
  }

  ghost predicate NoneMapped(m: Links, loop: set<nat>) {
    forall x :: x in loop ==> x < |m| && !Mapped(m, x)
  }

  /** What a success on ids leaves behind. */
  ghost predicate Finished(g: Graph, ts: Graph, m: Links, m': Links, loop: set<nat>, ids: set<nat>) {
    && Pending(g, ts, m') && |m| == |m'|
    && (forall j :: 0 <= j < |m'| && m'[j] == IN_PROGRESS ==> m[j] == IN_PROGRESS)
    && (IsLoop(g, loop) ==> ids !! loop && NoneMapped(m', loop))
  }

  lemma ChartAfter(g: Graph, ts: Graph, m: Links, m': Links, rank: seq<nat>, loop: set<nat>, ids: set<nat>, r: nat)
    requires |m| == |g| && Chart(g, m, rank, loop, r) && Finished(g, ts, m, m', loop, ids)
    ensures Chart(g, m', rank, loop, r)
  {
  }

  lemma DoneTrans(g: Graph, ts': Graph, ts: Graph, m: Links, m': Links, m'': Links, loop: set<nat>, a: set<nat>,
      b: set<nat>)
    requires Finished(g, ts', m, m', loop, a) && Finished(g, ts, m', m'', loop, b)
    ensures Finished(g, ts, m, m'', loop, a + b)
  {
  }

  /** References not yet visited are those of the original record. */
  ghost predicate Unvisited(was: BtfType, t: BtfType, isArray: bool, j: nat)
    requires |Refs(was)| == |Refs(t)| && j <= |Refs(t)| && (isArray ==> |Refs(t)| == 2)
  {
    forall i :: j <= i < |Refs(t)| ==> Refs(t)[Visit(isArray, i)] == Refs(was)[Visit(isArray, i)]
  }

  lemma VisitNext(was: BtfType, t: BtfType, isArray: bool, j: nat, r: nat)
    requires |Refs(was)| == |Refs(t)| && j < |Refs(t)| && (isArray ==> |Refs(t)| == 2) && Unvisited(was, t, isArray, j)
    ensures var k := Visit(isArray, j);
      && 0 <= k < |Refs(t)| && Refs(t)[k] == Refs(was)[k]
      && |Refs(SetRef(t, k, r))| == |Refs(t)| && Unvisited(was, SetRef(t, k, r), isArray, j + 1)
  {
    hide Refs, SetRef;
  }

  /** Positions visited in the first j steps. */
  ghost function VisitedIds(was: BtfType, isArray: bool, j: nat): set<nat>
    requires j <= |Refs(was)| && (isArray ==> |Refs(was)| == 2)
  {
    set i | 0 <= i < j :: Refs(was)[Visit(isArray, i)]
  }

  lemma VisitedNext(was: BtfType, isArray: bool, j: nat)
    requires j < |Refs(was)| && (isArray ==> |Refs(was)| == 2)
    ensures VisitedIds(was, isArray, j + 1) == VisitedIds(was, isArray, j) + {Refs(was)[Visit(isArray, j)]}
  {
  }

  lemma InVisited(was: BtfType, isArray: bool, j: nat, i: nat)
    requires i < j <= |Refs(was)| && (isArray ==> |Refs(was)| == 2)
    ensures Refs(was)[Visit(isArray, i)] in VisitedIds(was, isArray, j)
  {
    hide Refs;
  }

  /** A type all of whose references are off the loop is off it too. */
  lemma OffLoop(g: Graph, ts: Graph, m: Links, m': Links, loop: set<nat>, id: nat, isArray: bool)
    requires id < |g| && (isArray ==> |Refs(g[id])| == 2)
    requires Finished(g, ts, m, m', loop, VisitedIds(g[id], isArray, |Refs(g[id])|))
    ensures IsLoop(g, loop) ==> id !in loop
  {
    hide Refs, Pending;
    forall c | 0 <= c < |Refs(g[id])| ensures Refs(g[id])[c] in VisitedIds(g[id], isArray, |Refs(g[id])|) {
      InVisited(g[id], isArray, |Refs(g[id])|, Visit(isArray, c));
    }
  }

  /** Nothing has happened yet. */
  lemma DoneNothing(g: Graph, ts: Graph, m: Links, rank: seq<nat>, loop: set<nat>, r: nat)
    requires Pending(g, ts, m) && Chart(g, m, rank, loop, r)
    ensures Finished(g, ts, m, m, loop, {})
  {
  }

  /** A finished type: it is mapped, everything else is as its references left it. */
  lemma DoneType(g: Graph, ts: Graph, m: Links, m': Links, loop: set<nat>, id: nat, newId: nat, ids: set<nat>)
    requires id < |g| == |m| && m[id] != IN_PROGRESS && newId <= MAX_NR_TYPES && |m'| == |m|
    requires Finished(g, ts, m[id := IN_PROGRESS], m', loop, ids) && (IsLoop(g, loop) ==> id !in loop)
    ensures Finished(g, ts, m, m'[id := newId], loop, {id})
  {
  }

  lemma DoneWritten(g: Graph, ts: Graph, m: Links, m': Links, loop: set<nat>, ids: set<nat>, id: nat, t: BtfType)
    requires Finished(g, ts, m, m', loop, ids) && id < |g| == |m'| && m'[id] == IN_PROGRESS
    ensures |ts| == |g| && Finished(g, ts[id := t], m, m', loop, ids)
  {
  }

  lemma DoneParts(g: Graph, ts: Graph, m: Links, m': Links, loop: set<nat>, ids: set<nat>)
    requires Finished(g, ts, m, m', loop, ids)
    ensures Pending(g, ts, m')
  {
  }

  lemma DoneLess(g: Graph, ts: Graph, m: Links, m': Links, loop: set<nat>, ids: set<nat>)
    requires Finished(g, ts, m, m', loop, ids)
    ensures Finished(g, ts, m, m', loop, {})
  {
  }

  lemma DoneAlready(g: Graph, ts: Graph, m: Links, rank: seq<nat>, loop: set<nat>, id: nat, r: nat)
    requires Pending(g, ts, m) && Chart(g, m, rank, loop, r) && id < |g| && Mapped(m, id)
    ensures Finished(g, ts, m, m, loop, {id})
  {
  }

  lemma VisitStart(t: BtfType, isArray: bool)
    requires isArray ==> |Refs(t)| == 2
    ensures Unvisited(t, t, isArray, 0) && VisitedIds(t, isArray, 0) == {}
  {
  }

  lemma StartRefs(g: Graph, m: Links, loop: set<nat>)
    requires |m| == |g| && forall i :: 0 <= i < |g| ==> if IsRefType(g[i]) then m[i] == UNPROCESSED else Mapped(m, i)
    ensures Pending(g, g, m) && (forall j :: 0 <= j < |g| ==> m[j] != IN_PROGRESS)
    ensures IsLoop(g, loop) ==> NoneMapped(m, loop)
  {
  }
}
