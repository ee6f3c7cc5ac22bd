/** Comparison of aggregation keys. */
module KeyOrder {

  type Byte = x: nat | x < 256

  /** One component of a key. `wide` tells that it was made by an action that records a
      process and an address: umod(), uaddr() or usym(). */
  datatype RawRec = Rec(wide: bool, bytes: seq<Byte>)

  /** Such components have two words. */
  type Rec = r: RawRec | r.wide ==> |r.bytes| == 16 witness Rec(false, [])

  type Key = seq<Rec>

  /** The number that bytes stand for, the least significant one first. */
  function Number(bytes: seq<Byte>): nat {
    if bytes == [] then 0 else bytes[0] + 256 * Number(bytes[1..])
  }

  /** The units that are compared: one number for scalars, two words for wide components, the
      bytes otherwise. */
  function Units(wide: bool, bytes: seq<Byte>): seq<nat>
    requires wide ==> |bytes| == 16
  {
    if |bytes| in {1, 2, 4, 8} then [Number(bytes)]
    else if wide then [Number(bytes[..8]), Number(bytes[8..])]
    else seq(|bytes|, i requires 0 <= i < |bytes| => bytes[i] as nat)
  }

  function Cmp(a: nat, b: nat): int {
    if a < b then -1 else if a > b then 1 else 0
  }

  function UnitsCmp(a: seq<nat>, b: seq<nat>): int {
    if a == [] then (if b == [] then 0 else -1)
    else if b == [] then 1
    else if a[0] != b[0] then Cmp(a[0], b[0])
    else UnitsCmp(a[1..], b[1..])
  }

  /** The left component decides how the two are compared. */
  function RecCmp(l: Rec, r: Rec): int {
    if |l.bytes| != |r.bytes| then Cmp(|l.bytes|, |r.bytes|)
    else UnitsCmp(Units(l.wide, l.bytes), Units(l.wide, r.bytes))
  }

  /** Comparison starts at the component chosen for sorting and wraps around. */
  function Rotated(keypos: nat, i: nat, m: nat): (k: nat)
    requires i < m
    ensures k < m
  {
    var ndx := i + if keypos >= m then 0 else keypos;
    if ndx >= m then ndx - m else ndx
  }

  function CmpFrom(keypos: nat, l: Key, r: Key, i: nat): int
    requires |l| == |r| && i <= |l|
    decreases |l| - i
  {
    if i == |l| then 0
    else
      var k := Rotated(keypos, i, |l|);
      var c := RecCmp(l[k], r[k]);
      if c != 0 then c else CmpFrom(keypos, l, r, i + 1)
  }

  function KeyCmp(keypos: nat, l: Key, r: Key): int {
    if |l| != |r| then Cmp(|l|, |r|) else CmpFrom(keypos, l, r, 0)
  }

  method KeyCompare(keypos: nat, l: Key, r: Key) returns (c: int)
    ensures c == KeyCmp(keypos, l, r)
  {
    if |l| < |r| {
      return -1;
    }
    if |l| > |r| {
      return 1;
    }
    var kp := if keypos >= |l| then 0 else keypos;
    var i := 0;
    while i < |l|
      invariant 0 <= i <= |l| && CmpFrom(keypos, l, r, 0) == CmpFrom(keypos, l, r, i)
    {
      var ndx := i + kp;
      if ndx >= |l| {
        ndx := ndx - |l|;
      }
      if |l[ndx].bytes| < |r[ndx].bytes| {
        return -1;
      }
      if |l[ndx].bytes| > |r[ndx].bytes| {
        return 1;
      }
      c := UnitsCompare(Units(l[ndx].wide, l[ndx].bytes), Units(l[ndx].wide, r[ndx].bytes));
      if c != 0 {
        return;
      }
      i := i + 1;
    }
    c := 0;
  }

  method UnitsCompare(a: seq<nat>, b: seq<nat>) returns (c: int)
    ensures c == UnitsCmp(a, b)
  {
    var j := 0;
    assert a[0..] == a && b[0..] == b;
    while j < |a| && j < |b|
      invariant 0 <= j <= |a| && j <= |b| && UnitsCmp(a, b) == UnitsCmp(a[j..], b[j..])
    {
      if a[j] != b[j] {
        return Cmp(a[j], b[j]);
      }
      assert a[j..][1..] == a[j + 1..] && b[j..][1..] == b[j + 1..];
      j := j + 1;
    }
    return Cmp(|a|, |b|);
  }

  // ----- it is a total order -----

  lemma {:induction false} UnitsOrder(a: seq<nat>, b: seq<nat>)
    ensures UnitsCmp(a, b) == 0 <==> a == b
    ensures UnitsCmp(b, a) == -UnitsCmp(a, b) && -1 <= UnitsCmp(a, b) <= 1
  {
    if a != [] && b != [] && a[0] == b[0] {
      UnitsOrder(a[1..], b[1..]);
      assert a == [a[0]] + a[1..] && b == [b[0]] + b[1..];
    }
  }

  lemma {:induction false} UnitsTrans(a: seq<nat>, b: seq<nat>, c: seq<nat>)
    requires UnitsCmp(a, b) <= 0 && UnitsCmp(b, c) <= 0
    ensures UnitsCmp(a, c) <= 0
  {
    if a != [] && b != [] && c != [] && a[0] == b[0] == c[0] {
      UnitsTrans(a[1..], b[1..], c[1..]);
    }
  }

  lemma {:induction false} NumberInjective(a: seq<Byte>, b: seq<Byte>)
    requires |a| == |b| && Number(a) == Number(b)
    ensures a == b
  {
    if a != [] {
      assert a[0] == Number(a) % 256 && b[0] == Number(b) % 256;
      NumberInjective(a[1..], b[1..]);
      assert a == [a[0]] + a[1..] && b == [b[0]] + b[1..];
    }
  }

  /** The units say everything about the bytes. */
  lemma UnitsInjective(wide: bool, a: seq<Byte>, b: seq<Byte>)
    requires |a| == |b| && (wide ==> |a| == 16) && Units(wide, a) == Units(wide, b)
    ensures a == b
  {
    hide Number;
    if |a| in {1, 2, 4, 8} {
      assert Units(wide, a)[0] == Units(wide, b)[0];
      NumberInjective(a, b);
    } else if wide {
      assert Units(wide, a)[0] == Units(wide, b)[0] && Units(wide, a)[1] == Units(wide, b)[1];
      NumberInjective(a[..8], b[..8]);
      NumberInjective(a[8..], b[8..]);
      assert a == a[..8] + a[8..] && b == b[..8] + b[8..];
    } else {
      forall i | 0 <= i < |a| ensures a[i] == b[i] {
        assert Units(wide, a)[i] == Units(wide, b)[i];
      }
    }
  }

  /** Components of one size were made by actions of one kind. */
  predicate SameKind(l: Rec, r: Rec) {
    |l.bytes| == |r.bytes| ==> l.wide == r.wide
  }

  /** So it is for keys of one signature, which is what joined aggregations must have. */
  predicate Alike(l: Key, r: Key) {
    |l| == |r| ==> forall k :: 0 <= k < |l| ==> SameKind(l[k], r[k])
  }

  lemma RecOrder(l: Rec, r: Rec)
    requires SameKind(l, r)
    ensures RecCmp(l, r) == 0 <==> l == r
    ensures RecCmp(r, l) == -RecCmp(l, r) && -1 <= RecCmp(l, r) <= 1
  {
    hide Units;
    if |l.bytes| == |r.bytes| {
      UnitsOrder(Units(l.wide, l.bytes), Units(l.wide, r.bytes));
      if RecCmp(l, r) == 0 {
        UnitsInjective(l.wide, l.bytes, r.bytes);
      }
    }
  }

  lemma RecTrans(a: Rec, b: Rec, c: Rec)
    requires SameKind(a, b) && RecCmp(a, b) <= 0 && RecCmp(b, c) <= 0
    ensures RecCmp(a, c) <= 0
  {
    hide Units;
    if |a.bytes| == |b.bytes| == |c.bytes| {
      UnitsTrans(Units(a.wide, a.bytes), Units(a.wide, b.bytes), Units(a.wide, c.bytes));
    }
  }

  /** Otherwise each of two components may come after the other: 256 and 1 as numbers, but
      0 and 1 as first bytes. */
  lemma NotAntisymmetric(l: Rec, r: Rec)
    requires l.wide && !r.wide && |r.bytes| == 16
    requires l.bytes[0] == 0 && l.bytes[1] == 1 && r.bytes[0] == 1
    requires forall i :: 1 <= i < 8 ==> r.bytes[i] == 0
    ensures RecCmp(l, r) == 1 && RecCmp(r, l) == 1
  {
    assert Number(l.bytes[..8]) == 256 * Number(l.bytes[..8][1..]);
    assert Number(l.bytes[..8][1..]) == 1 + 256 * Number(l.bytes[..8][1..][1..]);
    NumberZero(r.bytes[..8][1..]);
    assert Number(r.bytes[..8]) == 1;
  }

  lemma {:induction false} NumberZero(a: seq<Byte>)
    requires forall i :: 0 <= i < |a| ==> a[i] == 0
    ensures Number(a) == 0
  {
    if a != [] {
      NumberZero(a[1..]);
    }
  }

  lemma {:induction false} FromOrder(keypos: nat, l: Key, r: Key, i: nat)
    requires |l| == |r| && i <= |l| && Alike(l, r)
    ensures CmpFrom(keypos, l, r, i) == 0 <==>
      forall j :: i <= j < |l| ==> l[Rotated(keypos, j, |l|)] == r[Rotated(keypos, j, |l|)]
    ensures CmpFrom(keypos, r, l, i) == -CmpFrom(keypos, l, r, i) && -1 <= CmpFrom(keypos, l, r, i) <= 1
    decreases |l| - i
  {
    hide RecCmp, Rotated, SameKind;
    if i < |l| {
      var k := Rotated(keypos, i, |l|);
      RecOrder(l[k], r[k]);
      FromOrder(keypos, l, r, i + 1);
      if CmpFrom(keypos, l, r, i) == 0 {
        assert CmpFrom(keypos, l, r, i + 1) == 0 && l[k] == r[k];
      }
    }
  }

  lemma {:induction false} FromTrans(keypos: nat, a: Key, b: Key, c: Key, i: nat)
    requires |a| == |b| == |c| && i <= |a| && Alike(a, b) && Alike(b, c) && Alike(a, c)
    requires CmpFrom(keypos, a, b, i) <= 0 && CmpFrom(keypos, b, c, i) <= 0
    ensures CmpFrom(keypos, a, c, i) <= 0
    decreases |a| - i
  {
    hide RecCmp, Rotated, SameKind;
    if i < |a| {
      var k := Rotated(keypos, i, |a|);
      RecOrder(a[k], b[k]);
      RecOrder(b[k], c[k]);
      RecOrder(a[k], c[k]);
      RecTrans(a[k], b[k], c[k]);
      if RecCmp(a[k], c[k]) == 0 {
        FromTrans(keypos, a, b, c, i + 1);
      }
    }
  }

  /** Wherever comparison starts, it covers every component. */
  lemma RotatedOnto(keypos: nat, k: nat, m: nat) returns (i: nat)
    requires k < m
    ensures i < m && Rotated(keypos, i, m) == k
  {
    var kp := if keypos >= m then 0 else keypos;
    i := if k >= kp then k - kp else k + m - kp;
  }

  /** Keys compare as equal just when they are equal, whatever the sort position. */
  lemma KeyEqual(keypos: nat, l: Key, r: Key)
    requires Alike(l, r)
    ensures KeyCmp(keypos, l, r) == 0 <==> l == r
    ensures KeyCmp(keypos, r, l) == -KeyCmp(keypos, l, r)
  {
    hide CmpFrom, Rotated;
    if |l| == |r| {
      FromOrder(keypos, l, r, 0);
      if KeyCmp(keypos, l, r) == 0 {
        forall k | 0 <= k < |l| ensures l[k] == r[k] {
          var i := RotatedOnto(keypos, k, |l|);
          assert l[Rotated(keypos, i, |l|)] == r[Rotated(keypos, i, |l|)];
        }
        assert l == r;
      }
    }
  }

  lemma KeyTrans(keypos: nat, a: Key, b: Key, c: Key)
    requires Alike(a, b) && Alike(b, c) && Alike(a, c)
    requires KeyCmp(keypos, a, b) <= 0 && KeyCmp(keypos, b, c) <= 0
    ensures KeyCmp(keypos, a, c) <= 0
  {
    if |a| == |b| == |c| {
      FromTrans(keypos, a, b, c, 0);
    }
  }
}
