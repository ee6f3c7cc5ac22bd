/** The canonical-type map of the deduplicator, seen as a forest: an entry that
    holds another valid id is a link, everything else is a root. */
module CanonMap {

  const MAX_NR_TYPES: nat := 0x7fff_ffff
  const UNPROCESSED: nat := 0xffff_ffff
  const IN_PROGRESS: nat := 0xffff_fffe

  type Links = seq<nat>

  predicate Mapped(m: Links, i: nat)
    requires i < |m|
  {
    m[i] <= MAX_NR_TYPES
  }

  predicate Link(m: Links, i: nat)
    requires i < |m|
  {
    Mapped(m, i) && m[i] != i
  }

  predicate InRange(m: Links) {
    forall i :: 0 <= i < |m| && Mapped(m, i) ==> m[i] < |m|
  }

  ghost predicate RankedBy(m: Links, rank: seq<nat>)
    requires InRange(m)
  {
    |rank| == |m| && forall i :: 0 <= i < |m| && Link(m, i) ==> rank[m[i]] < rank[i]
  }

  /** No chain of links comes back to where it started. */
  ghost predicate Acyclic(m: Links) {
    InRange(m) && exists rank :: RankedBy(m, rank)
  }

  ghost function Rank(m: Links): (rank: seq<nat>)
    requires Acyclic(m)
    ensures RankedBy(m, rank)
  {
    var rank :| RankedBy(m, rank); rank
  }

  /** Where following links from i ends. */
  ghost function Root(m: Links, i: nat): (r: nat)
    requires Acyclic(m) && i < |m|
    ensures r < |m| && !Link(m, r)
    decreases Rank(m)[i]
  {
    if Link(m, i) then Root(m, m[i]) else i
  }

  ghost predicate Passes(m: Links, x: nat, i: nat)
    requires Acyclic(m) && x < |m|
    decreases Rank(m)[x]
  {
    x == i || (Link(m, x) && Passes(m, m[x], i))
  }

  /** Re-pointing i at t keeps the map acyclic as long as t does not lead to i. */
  lemma Relink(m: Links, i: nat, t: nat)
    requires Acyclic(m) && i < |m| && t < |m| && t <= MAX_NR_TYPES && !Passes(m, t, i)
    ensures Acyclic(m[i := t])
  {
    var m' := m[i := t];
    var rank := Rank(m);
    var rank' := seq(|m|, x requires 0 <= x < |m| => rank[x] + if Passes(m, x, i) then rank[t] + 1 else 0);
    forall x | 0 <= x < |m| && Link(m', x) ensures rank'[m'[x]] < rank'[x] {
      if x != i {
        assert Passes(m, m[x], i) ==> Passes(m, x, i);
      }
    }
    assert RankedBy(m', rank');
  }

  /** Entries that are no links may be overwritten by other non-links. */
  lemma Unlink(m: Links, i: nat, v: nat)
    requires Acyclic(m) && i < |m| && (v == i || v > MAX_NR_TYPES)
    ensures Acyclic(m[i := v])
  {
    assert RankedBy(m[i := v], Rank(m));
  }

  lemma {:induction false} OffTarget(m: Links, x: nat, i: nat)
    requires Acyclic(m) && x < |m| && x != i
    requires forall y :: 0 <= y < |m| && Link(m, y) ==> m[y] != i
    ensures !Passes(m, x, i)
    decreases Rank(m)[x]
  {
    if Link(m, x) {
      OffTarget(m, m[x], i);
    }
  }

  /** Joining root x to root y moves exactly the ids that led to x. */
  lemma {:induction false} JoinedRoot(m: Links, x: nat, y: nat, i: nat)
    requires Acyclic(m) && x < |m| && y < |m| && y <= MAX_NR_TYPES && x != y && i < |m|
    requires !Link(m, x) && !Link(m, y) && Acyclic(m[x := y])
    ensures Root(m[x := y], i) == if Root(m, i) == x then y else Root(m, i)
    decreases Rank(m)[i]
  {
    var m' := m[x := y];
    assert Root(m', y) == y;
    if Link(m, i) {
      JoinedRoot(m, x, y, m[i]);
      assert Root(m', i) == Root(m', m[i]);
    }
  }
}
