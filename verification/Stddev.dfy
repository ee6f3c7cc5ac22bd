/** Standard deviation: the 128-bit square of a value and its accumulation. */
module Stddev {
  import opened Arith
  import opened Bpf

  const B32: nat := 0x1_0000_0000
  const B31: nat := 0x8000_0000
  const B33: nat := 0x2_0000_0000

  /** The number held in a pair of words. */
  function Pair(hi: nat, low: nat): nat {
    hi * WORD + low
  }

  /** The carry test is strict, so it also fires when the low half of |v| is zero. */
  function Excess(v: int): nat {
    if Abs(v) % B32 == 0 then WORD else 0
  }

  /** The emitted multiplication, in two halves. */
  method Square(v: int) returns (hi: u64, low: u64)
    requires Int64(v)
    ensures Pair(hi, low) == v * v + Excess(v)
    ensures Pair(hi, low) == v * v <==> Abs(v) % B32 != 0
  {
    hide W, S, Pair;
    Magnitude(v);
    low := W(v);
    if S(low) < 0 {
      low := W(-(low as int));
    }
    hi := low;
    Halves(low);
    low := W(low as int * B32);
    low := low / B32;
    hi := hi / B32;
    SquareOfAbs(v, hi, low);
    hi, low := Multiply(hi, low);
  }

  /** High, low and middle products, the middle one counted twice. */
  method Multiply(h: u64, l: u64) returns (hi: u64, low: u64)
    requires h <= B31 && l < B32
    ensures Pair(hi, low) == h * h * WORD + l * h * B33 + l * l + if l == 0 then WORD else 0
  {
    hide W, Pair;
    Products(h, l);
    hi, low := h, l;
    var mid: u64 := W(low * hi);
    low := W(low * low);
    hi := W(hi * hi);
    Sums(hi, mid, low);
    var lmd: u64 := mid;
    lmd := W(lmd as int * B33);
    mid := mid / B31;
    low := W(low as int + lmd);
    if !(lmd < low) {
      hi := W(hi as int + 1);
    }
    hi := W(hi as int + mid);
  }

  lemma Magnitude(v: int)
    requires Int64(v)
    ensures S(W(v)) == v && (if v < 0 then W(-(W(v) as int)) else W(v)) == Abs(v)
  {
    if v < 0 {
      WrapIs(v, -1);
      WrapIs(-(W(v) as int), -1);
    } else {
      WrapIs(v, 0);
    }
  }

  lemma WrapIs(x: int, k: int)
    requires k * WORD <= x < (k + 1) * WORD
    ensures W(x) == x - k * WORD
  {
    RemainderIs(x, k, WORD, x - k * WORD);
  }

  lemma Halves(a: u64)
    ensures W(a as int * B32) / B32 == a % B32 && a / B32 * B32 + a % B32 == a
    ensures a / B32 < B32 && (a <= HALF ==> a / B32 <= B31)
  {
    var h, l := a / B32, a % B32;
    assert a * B32 == h * WORD + l * B32;
    assert (h * WORD + l * B32) % WORD == l * B32;
  }

  lemma Products(h: nat, l: nat)
    requires h <= B31 && l < B32
    ensures 0 <= l * h < HALF && 0 <= l * l < WORD && 0 <= h * h <= B31 * B31 && (l * l == 0 <==> l == 0)
    ensures W(l * h) == l * h && W(l * l) == l * l && W(h * h) == h * h
  {
    MulMonotone(l, B32 - 1, h);
    MulMonotone(h, B31, B32 - 1);
    MulMonotone(l, B32 - 1, l);
    MulMonotone(l, B32 - 1, B32 - 1);
    MulMonotone(h, B31, h);
    MulMonotone(h, B31, B31);
    MulMonotone(0, h, l);
    MulMonotone(if l == 0 then 0 else 1, l, l);
    MulMonotone(0, h, h);
  }

  /** Adding up the products hh, m and ll. */
  lemma Sums(hh: nat, m: nat, ll: nat)
    requires m < HALF && ll < WORD && hh <= B31 * B31
    ensures var mid, lmd := m / B31, W(m * B33); var low := W(ll + lmd);
      var carry := if lmd < low then 0 else 1;
      && W(hh + 1) == hh + 1 && W(hh + carry + mid) == hh + carry + mid
      && Pair(hh + carry + mid, low) == hh * WORD + m * B33 + ll + if ll == 0 then WORD else 0
  {
    var mid, lmd := m / B31, W(m * B33);
    assert m * B33 == mid * WORD + m % B31 * B33;
    assert lmd == m % B31 * B33;
  }

  lemma SquareOfAbs(v: int, h: nat, l: nat)
    requires Abs(v) == h * B32 + l && l < B32
    ensures v * v == h * h * WORD + l * h * B33 + l * l
    ensures l == Abs(v) % B32
  {
    var a := Abs(v);
    assert v * v == a * a;
    assert a * a == (h * B32 + l) * (h * B32 + l);
    assert (h * B32 + l) * (h * B32 + l) == (h * B32) * (h * B32) + 2 * (h * B32 * l) + l * l;
    assert (h * B32) * (h * B32) == h * h * WORD;
    assert h * B32 * l == l * h * B32;
  }

  // ----- accumulation -----

  type Words = seq<u64>

  /** Words 0 to 3: count, sum, and the two words of the sum of squares. */
  function Updated(d: Words, v: u64, hi: u64, low: u64): Words
    requires |d| == 4
  {
    var s := Pair(d[3], d[2]) + Pair(hi, low);
    [W(d[0] as int + 1), W(d[1] as int + v), W(s), W(s / WORD)]
  }

  method Accumulate(d: array<u64>, v: u64, hi: u64, low: u64)
    requires d.Length == 4
    modifies d
    ensures d[..] == Updated(old(d[..]), v, hi, low)
  {
    hide W;
    ghost var w := d[..];
    CarryIn(w[2], w[3], hi, low);
    d[0] := W(d[0] as int + 1);
    d[1] := W(d[1] as int + v);
    var sum := d[2];
    sum := W(sum as int + low);
    if !(low <= sum) {
      d[3] := W(d[3] as int + 1);
    }
    d[2] := sum;
    d[3] := W(d[3] as int + hi);
    assert d[..] == [d[0], d[1], d[2], d[3]];
  }

  lemma CarryIn(d2: u64, d3: u64, hi: u64, low: u64)
    ensures var s := Pair(d3, d2) + Pair(hi, low); var sum := W(d2 as int + low);
      W(s) == sum && W(s / WORD) == if low <= sum then W(d3 as int + hi) else W(W(d3 as int + 1) as int + hi)
  {
    var s := Pair(d3, d2) + Pair(hi, low);
    if d2 + low < WORD {
      assert s == (d3 + hi) * WORD + (d2 + low);
      assert s / WORD == d3 + hi;
    } else {
      assert s == (d3 + hi + 1) * WORD + (d2 + low - WORD);
      assert s / WORD == d3 + hi + 1;
      WAdd(d3 + 1, hi);
    }
  }

  /** Both together: one call of stddev() on one copy. */
  method AddValue(d: array<u64>, v: int)
    requires d.Length == 4 && Int64(v)
    modifies d
    ensures d[..] == AfterRun(old(d[..]), [v])
  {
    hide W, Pair, Excess;
    var hi, low := Square(v);
    PairWords(hi, low);
    assert [v][..0] == [];
    Accumulate(d, W(v), hi, low);
  }

  lemma PairWords(hi: u64, low: u64)
    ensures W(Pair(hi, low) / WORD) == hi && W(Pair(hi, low)) == low
  {
  }

  const WORD2: nat := 0x1_0000_0000_0000_0000_0000_0000_0000_0000

  /** Copies of one word pair, updated by a run of values. */
  function AfterRun(d: Words, vs: seq<int>): (r: Words)
    requires |d| == 4
    ensures |r| == 4
  {
    if vs == [] then d
    else
      var n := |vs| - 1;
      var v := vs[n];
      var q := v * v + Excess(v);
      MulMonotone(0, Abs(v), Abs(v));
      assert v * v == Abs(v) * Abs(v);
      Updated(AfterRun(d, vs[..n]), W(v), W(q / WORD), W(q))
  }

  function SumOfSquares(vs: seq<int>): int {
    if vs == [] then 0 else SumOfSquares(vs[..|vs| - 1]) + vs[|vs| - 1] * vs[|vs| - 1] + Excess(vs[|vs| - 1])
  }

  function Sum(vs: seq<int>): int {
    if vs == [] then 0 else Sum(vs[..|vs| - 1]) + vs[|vs| - 1]
  }

  lemma PairSum(d2: u64, d3: u64, q: nat)
    requires q < WORD2
    ensures var s := Pair(d3, d2) + Pair(W(q / WORD), W(q));
      Pair(W(s / WORD), W(s)) == (Pair(d3, d2) + q) % WORD2
  {
    Whole(q);
    var s := Pair(d3, d2) + q;
    Whole(s);
    var k := s / WORD;
    ModBounds(k, WORD);
    RemainderIs(s, k / WORD, WORD2, k % WORD * WORD + s % WORD);
  }

  lemma Whole(q: nat)
    ensures Pair(q / WORD, W(q)) == q && (q < WORD2 ==> W(q / WORD) == q / WORD)
  {
    ModBounds(q, WORD);
  }

  lemma SquareSmall(v: int)
    requires Int64(v)
    ensures 0 <= v * v + Excess(v) < WORD2
  {
    MulMonotone(Abs(v), HALF, Abs(v));
    MulMonotone(Abs(v), HALF, HALF);
    MulMonotone(0, Abs(v), Abs(v));
    assert v * v == Abs(v) * Abs(v);
  }

  lemma ModAdd(a: int, b: int, m: nat)
    requires m > 0
    ensures (a % m + b) % m == (a + b) % m
  {
    var k := a / m;
    assert a == k * m + a % m;
    var x := a % m + b;
    ModShift(x, k, m);
    assert a + b == x + k * m;
  }

  lemma ModShift(x: int, k: int, m: nat)
    requires m > 0
    ensures (x + k * m) % m == x % m
  {
    var q := x / m;
    assert x == q * m + x % m;
    assert x + k * m == (q + k) * m + x % m;
    RemainderIs(x + k * m, q + k, m, x % m);
  }

  lemma RemainderIs(y: int, q: int, m: nat, r: int)
    requires m > 0 && y == q * m + r && 0 <= r < m
    ensures y % m == r
  {
    var p := y / m;
    assert y == p * m + y % m;
    if p < q {
      MulMonotone(p + 1, q, m);
    } else if p > q {
      MulMonotone(q + 1, p, m);
    }
  }

  /** After any run of values, the words hold the count, the sum modulo 2^64, and the sum
      of the pairs modulo 2^128. */
  lemma {:induction false} RunSums(d: Words, vs: seq<int>)
    requires |d| == 4 && forall i :: 0 <= i < |vs| ==> Int64(vs[i])
    ensures var r := AfterRun(d, vs);
      && r[0] == W(d[0] + |vs|) && r[1] == W(d[1] + Sum(vs))
      && Pair(r[3], r[2]) == (Pair(d[3], d[2]) + SumOfSquares(vs)) % WORD2
    decreases |vs|
  {
    hide W, Excess;
    if vs == [] {
      Start(d);
    } else {
      var n := |vs| - 1;
      var v := vs[n];
      RunSums(d, vs[..n]);
      var r := AfterRun(d, vs[..n]);
      SquareSmall(v);
      PairSum(r[2], r[3], v * v + Excess(v));
      ModAdd(Pair(d[3], d[2]) + SumOfSquares(vs[..n]), v * v + Excess(v), WORD2);
      WAdd(d[0] + n, 1);
      WAddBoth(d[1] + Sum(vs[..n]), v);
    }
  }

  lemma Start(d: Words)
    requires |d| == 4
    ensures W(d[0] + 0) == d[0] && W(d[1] + 0) == d[1] && (Pair(d[3], d[2]) + 0) % WORD2 == Pair(d[3], d[2])
  {
    var x := Pair(d[3], d[2]);
    assert 0 <= x < WORD2;
  }

  lemma WAddBoth(a: int, b: int)
    ensures W(W(a) + W(b)) == W(a + b)
  {
  }
}
