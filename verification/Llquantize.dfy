/** Log-linear quantization: the bin computed for a value by the emitted code, and the
    weight the consumer gives each bin. */
module Llquantize {
  import opened Arith
  import opened Bpf
  import Quantize

  datatype Params = Params(factor: nat, lmag: nat, hmag: nat, steps: nat)

  function Pow(f: nat, n: nat): (p: nat)
    ensures f >= 1 ==> p >= 1
  {
    if n == 0 then 1 else f * Pow(f, n - 1)
  }

  /** The parameters the compiler accepts. */
  predicate Accepted(p: Params) {
    && 2 <= p.factor <= 0xffff && p.lmag <= p.hmag <= 0xffff && Pow(p.factor, p.hmag + 1) < WORD
    && 1 <= p.steps <= 0xffff
    && (p.steps < p.factor ==> p.factor % p.steps == 0)
    && (p.steps > p.factor ==>
          && p.steps % p.factor == 0
          && (if p.lmag == 0 then (p.factor * p.factor) % p.steps == 0
              else Pow(p.factor, p.lmag + 1) % p.steps == 0))
  }

  /** Bins of a range that fall below it. */
  function Skip(p: Params): nat
    requires p.factor > 0
  {
    p.steps / p.factor
  }

  /** Bins per range. */
  function PerRange(p: Params): (n: nat)
    requires Accepted(p)
    ensures n >= 1
  {
    SkipBelow(p);
    p.steps - Skip(p)
  }

  /** The middle bin, for values below the lowest range. */
  function Underflow(p: Params): (u: nat)
    requires Accepted(p)
    ensures u >= 1
  {
    MulMonotone(0, p.hmag - p.lmag + 1, PerRange(p));
    1 + (p.hmag - p.lmag + 1) * PerRange(p)
  }

  /** The range of a magnitude: f^m <= x < f^(m+1). */
  predicate InRange(p: Params, m: nat, x: nat) {
    Pow(p.factor, m) <= x < Pow(p.factor, m + 1)
  }

  /** The linear bin of x in the range of m, counted from zero: x * steps / f^(m+1). */
  function Linear(p: Params, m: nat, x: nat): nat
    requires Accepted(p)
  {
    PowPositive(p.factor, m + 1);
    QuotientNat(x, p.steps, Pow(p.factor, m + 1));
    x * p.steps / Pow(p.factor, m + 1)
  }

  /** Distance from the middle bin of a value of magnitude m. */
  function OffsetIn(p: Params, m: nat, x: nat): int
    requires Accepted(p) && p.lmag <= m
  {
    (m - p.lmag) * PerRange(p) + (Linear(p, m, x) - Skip(p)) + 1
  }

  /** The magnitude of x, from m up. */
  function MagFrom(p: Params, m: nat, x: nat): (r: nat)
    requires p.factor >= 2
    ensures m <= r && x < Pow(p.factor, r + 1)
    ensures r > m ==> Pow(p.factor, r) <= x
    decreases if x < Pow(p.factor, m + 1) then 0 else 1 + x - Pow(p.factor, m + 1)
  {
    if x < Pow(p.factor, m + 1) then m
    else
      PowGrows(p.factor, m + 1);
      MagFrom(p, m + 1, x)
  }

  function Offset(p: Params, x: nat): int
    requires Accepted(p)
  {
    if x < Pow(p.factor, p.lmag) then 0
    else if x >= Pow(p.factor, p.hmag + 1) then Underflow(p)
    else OffsetIn(p, MagFrom(p, p.lmag, x), x)
  }

  function BinOf(p: Params, v: int): int
    requires Accepted(p)
  {
    if v < 0 then Underflow(p) - Offset(p, Abs(v)) else Underflow(p) + Offset(p, v)
  }

  // ----- arithmetic -----

  lemma PowPositive(f: nat, n: nat)
    requires f >= 1
    ensures Pow(f, n) >= 1
  {
  }

  lemma PowGrows(f: nat, n: nat)
    requires f >= 2
    ensures Pow(f, n) < Pow(f, n + 1)
  {
    PowPositive(f, n);
    assert Pow(f, n + 1) == f * Pow(f, n);
    MulMonotone(2, f, Pow(f, n));
  }

  lemma {:induction false} PowMonotone(f: nat, a: nat, b: nat)
    requires f >= 2 && a <= b
    ensures Pow(f, a) <= Pow(f, b)
    decreases b - a
  {
    if a < b {
      PowMonotone(f, a, b - 1);
      PowGrows(f, b - 1);
    }
  }

  // ----- the parameters -----

  lemma SkipBelow(p: Params)
    requires 2 <= p.factor && 1 <= p.steps
    ensures Skip(p) < p.steps
    ensures p.steps < p.factor ==> Skip(p) == 0
    ensures p.steps >= p.factor ==> Skip(p) >= 1
    ensures p.steps % p.factor == 0 ==> p.steps == Skip(p) * p.factor
  {
    DivBounds(p.steps, p.factor);
    MulMonotone(2, p.factor, Skip(p));
    if p.steps < p.factor {
      DivIs(p.steps, p.factor, 0);
    }
  }

  lemma Basics(p: Params)
    requires Accepted(p)
    ensures p.factor >= 2 && 1 <= p.steps <= 0xffff && Skip(p) < p.steps
    ensures p.steps < p.factor ==> Skip(p) == 0
    ensures p.steps >= p.factor ==> Skip(p) >= 1 && p.steps == Skip(p) * p.factor
  {
    SkipBelow(p);
    if p.steps == p.factor {
      MultipleMod(1, p.factor);
    }
  }

  /** Above the lowest values of the lowest ranges, a range divides evenly into steps. */
  lemma {:induction false} StepsDivide(p: Params, m: nat)
    requires Accepted(p) && p.lmag <= m && (m > 0 || p.steps <= p.factor)
    ensures Pow(p.factor, m + 1) % p.steps == 0
    decreases m
  {
    var f := p.factor;
    if p.steps <= f {
      if p.steps == f {
        MultipleMod(1, f);
      }
      PowPositive(f, m);
      MultipleTimes(f, p.steps, Pow(f, m));
      assert Pow(f, m + 1) == Pow(f, m) * f;
    } else if p.lmag == m {
    } else if p.lmag == 0 && m == 1 {
      assert Pow(f, 2) == f * Pow(f, 1) && Pow(f, 1) == f * Pow(f, 0);
    } else {
      StepsDivide(p, m - 1);
      MultipleTimes(Pow(f, m), p.steps, f);
    }
  }

  /** The width of the bins of a range, where it is whole. */
  function Width(p: Params, m: nat): nat
    requires Accepted(p)
  {
    Pow(p.factor, m + 1) / p.steps
  }

  lemma WidthWhole(p: Params, m: nat)
    requires Accepted(p) && p.lmag <= m && (m > 0 || p.steps <= p.factor)
    ensures Width(p, m) * p.steps == Pow(p.factor, m + 1) && Width(p, m) >= 1
    ensures p.steps < p.factor ==> Pow(p.factor, m) < Width(p, m)
    ensures p.steps >= p.factor ==> Pow(p.factor, m) == Skip(p) * Width(p, m)
  {
    hide Accepted, Skip;
    Basics(p);
    StepsDivide(p, m);
    ExactQuotient(Pow(p.factor, m + 1), p.steps);
    PowPositive(p.factor, m + 1);
    PowPositive(p.factor, m);
    var u, f, b := Width(p, m), p.factor, Pow(p.factor, m);
    assert u * p.steps == f * b;
    if p.steps < f {
      if u <= b {
        MulMonotone(u, b, p.steps);
        MulLess(p.steps, f, b);
      }
    } else {
      assert u * (Skip(p) * f) == (Skip(p) * u) * f;
      Cancel(Skip(p) * u, b, f);
    }
  }

  // ----- where values go -----

  lemma LinearBounds(p: Params, m: nat, x: nat)
    requires Accepted(p) && InRange(p, m, x)
    ensures Skip(p) <= Linear(p, m, x) < p.steps
  {
    hide Accepted, Skip;
    Basics(p);
    PowPositive(p.factor, m + 1);
    var f, b, e, q := p.factor, Pow(p.factor, m), Pow(p.factor, m + 1), Linear(p, m, x);
    assert e == f * b;
    MulLess(x, e, p.steps);
    DivBelow(x * p.steps, e, p.steps);
    if p.steps >= f {
      MulMonotone(b, x, p.steps);
      assert b * (Skip(p) * f) == Skip(p) * (f * b);
      DivAtLeast(x * p.steps, e, Skip(p));
    }
  }

  lemma MagUnique(p: Params, m: nat, n: nat, x: nat, y: nat)
    requires p.factor >= 2 && InRange(p, m, x) && InRange(p, n, y) && x <= y
    ensures m <= n
  {
    if m > n {
      PowMonotone(p.factor, n + 1, m);
    }
  }

  lemma MagIs(p: Params, m: nat, x: nat)
    requires Accepted(p) && p.lmag <= m <= p.hmag && InRange(p, m, x)
    ensures MagFrom(p, p.lmag, x) == m && Offset(p, x) == OffsetIn(p, m, x)
  {
    PowMonotone(p.factor, p.lmag, m);
    PowMonotone(p.factor, m + 1, p.hmag + 1);
    var r := MagFrom(p, p.lmag, x);
    assert InRange(p, r, x);
    MagUnique(p, m, r, x, x);
    MagUnique(p, r, m, x, x);
  }

  lemma HasMag(p: Params, x: nat) returns (m: nat)
    requires Accepted(p) && Pow(p.factor, p.lmag) <= x < Pow(p.factor, p.hmag + 1)
    ensures p.lmag <= m <= p.hmag && InRange(p, m, x)
  {
    m := MagFrom(p, p.lmag, x);
    if m > p.hmag {
      PowMonotone(p.factor, p.hmag + 1, m);
    }
  }

  /** Values of a range stay within its block of bins. */
  lemma OffsetInBounds(p: Params, m: nat, x: nat)
    requires Accepted(p) && p.lmag <= m <= p.hmag && InRange(p, m, x)
    ensures (m - p.lmag) * PerRange(p) < OffsetIn(p, m, x) <= (m - p.lmag + 1) * PerRange(p) < Underflow(p)
    ensures 0 <= (m - p.lmag) * PerRange(p)
  {
    LinearBounds(p, m, x);
    MulMonotone(m - p.lmag + 1, p.hmag - p.lmag + 1, PerRange(p));
    MulMonotone(0, m - p.lmag, PerRange(p));
    assert (m - p.lmag + 1) * PerRange(p) == (m - p.lmag) * PerRange(p) + PerRange(p);
  }

  lemma OffsetBounds(p: Params, x: nat)
    requires Accepted(p)
    ensures 0 <= Offset(p, x) <= Underflow(p)
    ensures Offset(p, x) == 0 <==> x < Pow(p.factor, p.lmag)
    ensures Offset(p, x) == Underflow(p) <==> x >= Pow(p.factor, p.hmag + 1)
  {
    hide OffsetIn, MagFrom, Accepted, Pow, Underflow, PerRange;
    PowMonotoneIn(p);
    if Pow(p.factor, p.lmag) <= x < Pow(p.factor, p.hmag + 1) {
      var m := HasMag(p, x);
      MagIs(p, m, x);
      OffsetInBounds(p, m, x);
    }
  }

  lemma PowMonotoneIn(p: Params)
    requires Accepted(p)
    ensures Pow(p.factor, p.lmag) <= Pow(p.factor, p.hmag + 1)
  {
    PowMonotone(p.factor, p.lmag, p.hmag + 1);
  }

  lemma OffsetMonotone(p: Params, x: nat, y: nat)
    requires Accepted(p) && x <= y
    ensures Offset(p, x) <= Offset(p, y)
  {
    hide MagFrom, Offset, Accepted, Underflow, Pow, PerRange, Linear;
    OffsetBounds(p, x);
    OffsetBounds(p, y);
    if Pow(p.factor, p.lmag) <= x && y < Pow(p.factor, p.hmag + 1) {
      var m := HasMag(p, x);
      var n := HasMag(p, y);
      MagIs(p, m, x);
      MagIs(p, n, y);
      MagOrder(p, m, n, x, y);
      if m == n {
        LinearMonotone(p, m, x, y);
      } else {
        OffsetInBounds(p, m, x);
        OffsetInBounds(p, n, y);
        MulMonotone(m - p.lmag + 1, n - p.lmag, PerRange(p));
      }
    }
  }

  lemma MagOrder(p: Params, m: nat, n: nat, x: nat, y: nat)
    requires Accepted(p) && InRange(p, m, x) && InRange(p, n, y) && x <= y
    ensures m <= n
  {
    MagUnique(p, m, n, x, y);
  }

  lemma LinearMonotone(p: Params, m: nat, x: nat, y: nat)
    requires Accepted(p) && x <= y
    ensures Linear(p, m, x) <= Linear(p, m, y)
  {
    PowPositive(p.factor, m + 1);
    MulMonotone(x, y, p.steps);
    DivMonotone(x * p.steps, y * p.steps, Pow(p.factor, m + 1));
  }

  // ----- the bins -----

  /** Every value has a bin of the allocated storage. */
  lemma BinBounds(p: Params, v: int)
    requires Accepted(p)
    ensures 0 <= BinOf(p, v) <= 2 * Underflow(p)
  {
    OffsetBounds(p, Abs(v));
  }

  lemma BinMonotone(p: Params, v: int, w: int)
    requires Accepted(p) && v <= w
    ensures BinOf(p, v) <= BinOf(p, w)
  {
    OffsetBounds(p, Abs(v));
    OffsetBounds(p, Abs(w));
    if v < 0 && w < 0 {
      OffsetMonotone(p, Abs(w), Abs(v));
    } else if v >= 0 {
      OffsetMonotone(p, v, w);
    }
  }

  function Samples(p: Params, es: seq<Quantize.Event>): seq<Quantize.Sample>
    requires Accepted(p)
  {
    SmallConstants(p);
    seq(|es|, i requires 0 <= i < |es| =>
      (BinBounds(p, es[i].value); Quantize.Sample(BinOf(p, es[i].value), es[i].incr)))
  }

  /** llquantize() counts every value, in as many buckets as it makes room for. */
  lemma CountsAll(p: Params, d: Quantize.Words, es: seq<Quantize.Event>)
    requires Accepted(p) && |d| == 2 * Underflow(p) + 1
    ensures Quantize.Total(Quantize.AfterRun(d, Samples(p, es), 2 * Underflow(p))) ==
      W(Quantize.Total(d) + Quantize.Given(es))
  {
    hide BinOf, Accepted, Quantize.Total, Quantize.AfterRun, Quantize.Given;
    forall i | 0 <= i < |es| ensures Samples(p, es)[i].bin <= 2 * Underflow(p) {
      BinBounds(p, es[i].value);
    }
    Quantize.CountsAll(d, Samples(p, es), es, 2 * Underflow(p));
  }

  /** Negation in 64 bits; the least value is its own negation. */
  function Neg64(v: int): int
    requires Int64(v)
  {
    S(W(-v))
  }

  /** Bins are symmetric about the middle, except for the least value: it shares its bin
      with its own negation, and the law holds of it only when that is the middle one. */
  lemma BinSymmetric(p: Params, v: int)
    requires Accepted(p) && Int64(v)
    ensures BinOf(p, v) + BinOf(p, Neg64(v)) == 2 * Underflow(p) <==> v != 0 - HALF || HALF < Pow(p.factor, p.lmag)
  {
    hide Accepted, Offset, Pow, Underflow;
    OffsetBounds(p, Abs(v));
    OffsetBounds(p, 0);
    Basics(p);
    PowPositive(p.factor, p.lmag);
    if v == 0 - HALF {
      assert Neg64(v) == v;
    } else {
      assert Neg64(v) == -v;
    }
  }

  // ----- the emitted code -----

  lemma {:induction false} PowAtLeast(f: nat, n: nat)
    requires f >= 2
    ensures Pow2(n) <= Pow(f, n)
  {
    if n > 0 {
      PowAtLeast(f, n - 1);
      MulMonotone(2, f, Pow(f, n - 1));
    }
  }

  /** Constants the code holds in 32-bit immediates fit them. */
  lemma SmallConstants(p: Params)
    requires Accepted(p)
    ensures p.hmag < 64 && Underflow(p) < 0x80_0000 && PerRange(p) <= p.steps
  {
    PowAtLeast(p.factor, p.hmag + 1);
    if p.hmag >= 64 {
      Pow2Monotone(64, p.hmag + 1);
      Pow2Word();
    }
    Basics(p);
    MulMonotone(p.hmag - p.lmag + 1, 64, PerRange(p));
  }

  /** No product of the code leaves 64 bits. */
  lemma NoOverflow(p: Params, m: nat)
    requires Accepted(p) && p.lmag <= m <= p.hmag
    ensures Pow(p.factor, m) * p.factor == Pow(p.factor, m + 1) < WORD
    ensures forall x: nat :: m == 0 && x < p.factor ==> x * p.steps < 0x1_0000_0000
  {
    PowMonotone(p.factor, m + 1, p.hmag + 1);
    forall x: nat | m == 0 && x < p.factor ensures x * p.steps < 0x1_0000_0000 {
      MulMonotone(x, 0xffff, p.steps);
    }
  }

  /** The loop over the ranges: multiplies the bound until it exceeds the value. */
  method FindRange(p: Params, tmp: u64) returns (found: bool, mag: u64, max: u64)
    requires Accepted(p) && Pow(p.factor, p.lmag) <= tmp
    ensures found ==> p.lmag <= mag <= p.hmag && InRange(p, mag, tmp) && max == Pow(p.factor, mag + 1)
    ensures !found ==> mag == p.hmag + 1 && tmp >= Pow(p.factor, p.hmag + 1)
  {
    hide Accepted, Pow, W, Underflow, PerRange;
    SmallConstants(p);
    PowBelow(p);
    found, mag, max := false, p.lmag, Pow(p.factor, p.lmag);
    while true
      invariant p.lmag <= mag <= p.hmag && max == Pow(p.factor, mag) <= tmp
      decreases p.hmag - mag
    {
      NoOverflow(p, mag);
      Fits(max * p.factor);
      Fits(mag + 1);
      max := W(max * p.factor);
      if tmp < max {
        found := true;
        return;
      }
      mag := W(mag + 1);
      if mag > p.hmag {
        return;
      }
    }
  }

  lemma PowBelow(p: Params)
    requires Accepted(p)
    ensures Pow(p.factor, p.lmag) < WORD && p.lmag <= p.hmag && p.factor >= 2
  {
    PowMonotone(p.factor, p.lmag, p.hmag + 1);
  }

  /** The linear bin, computed without overflow: the bound is divided first, except in the
      lowest range. */
  method FindBin(p: Params, tmp: u64, mag: u64, bound: u64) returns (ind: u64)
    requires Accepted(p) && p.lmag <= mag <= p.hmag && InRange(p, mag, tmp) && bound == Pow(p.factor, mag + 1)
    ensures ind == Linear(p, mag, tmp) - Skip(p)
  {
    hide Accepted, Pow, Linear, Skip, W;
    Basics(p);
    LinearBounds(p, mag, tmp);
    Fits(Linear(p, mag, tmp) - Skip(p));
    NoOverflow(p, mag);
    var max := bound;
    ind := tmp;
    if mag != 0 {
      WidthBound(p, mag);
      EvenLinear(p, mag, tmp);
      max := max / p.steps;
    } else {
      LinearZero(p, tmp);
      Fits(ind * p.steps);
      ind := W(ind * p.steps);
    }
    ind := ind / max;
    ind := W(ind - Skip(p));
  }

  lemma LinearZero(p: Params, x: nat)
    requires Accepted(p)
    ensures Pow(p.factor, 1) == p.factor && Linear(p, 0, x) == x * p.steps / p.factor && x * p.steps >= 0
  {
    hide Accepted;
    RangeZero(p);
    MulMonotone(0, x, p.steps);
  }

  lemma WidthBound(p: Params, m: nat)
    requires Accepted(p)
    ensures Width(p, m) <= Pow(p.factor, m + 1)
  {
    DivMonotoneSelf(Pow(p.factor, m + 1), p.steps);
  }

  lemma RangeZero(p: Params)
    ensures Pow(p.factor, 1) == p.factor && Pow(p.factor, 0) == 1
  {
  }

  /** The emitted code computes the bin of every 64-bit value. */
  method Bin(p: Params, v: int) returns (bin: u64)
    requires Accepted(p) && Int64(v)
    ensures bin == BinOf(p, v)
  {
    hide Accepted, Pow, OffsetIn, MagFrom, Underflow, Offset, Linear, PerRange, S, W;
    SmallConstants(p);
    PowBelow(p);
    OffsetBounds(p, Abs(v));
    Magnitude(v);
    var val: u64 := W(v);
    var tmp := val;
    if S(val) < 0 {
      tmp := W(tmp * -1);
    }
    var mag: u64 := Underflow(p);
    if tmp >= Pow(p.factor, p.lmag) {
      var found, m, max := FindRange(p, tmp);
      var ind: u64 := 0;
      if found {
        ind := FindBin(p, tmp, m, max);
      }
      ShiftIs(p, tmp, found, m, ind);
      Fits(m - p.lmag);
      Fits((m - p.lmag) * PerRange(p));
      Fits((m - p.lmag) * PerRange(p) + ind);
      Fits(Offset(p, Abs(v)));
      Mirror(Offset(p, Abs(v)), Underflow(p));
      mag := W(m - p.lmag);
      mag := W(mag * PerRange(p));
      mag := W(mag + ind);
      mag := W(mag + 1);
      if S(val) < 0 {
        mag := W(mag * -1);
      }
      mag := W(mag + Underflow(p));
    }
    bin := mag;
  }

  lemma Magnitude(v: int)
    requires Int64(v)
    ensures S(W(v)) == v && (if v < 0 then W(W(v) * -1) else W(v)) == Abs(v)
  {
  }

  lemma Fits(i: int)
    requires 0 <= i < WORD
    ensures W(i) == i
  {
  }

  lemma Mirror(k: nat, u: nat)
    requires k <= u < HALF
    ensures W(W(k * -1) + u) == u - k && W(k + u) == u + k
  {
  }

  lemma ShiftIs(p: Params, x: nat, found: bool, m: nat, ind: nat)
    requires Accepted(p) && Pow(p.factor, p.lmag) <= x
    requires found ==> p.lmag <= m <= p.hmag && InRange(p, m, x) && ind == Linear(p, m, x) - Skip(p)
    requires !found ==> m == p.hmag + 1 && x >= Pow(p.factor, p.hmag + 1) && ind == 0
    ensures m >= p.lmag && 0 <= (m - p.lmag) * PerRange(p) <= Underflow(p)
    ensures Offset(p, x) == (m - p.lmag) * PerRange(p) + ind + 1
  {
    hide Accepted, Pow, MagFrom, Linear, PerRange;
    PowBelow(p);
    MulMonotone(0, m - p.lmag, PerRange(p));
    if found {
      MagIs(p, m, x);
      OffsetInBounds(p, m, x);
    }
    OffsetBounds(p, x);
  }

  // ----- the consumer -----

  /** Some value goes to the bin at distance i. */
  ghost predicate Reachable(p: Params, i: nat)
    requires Accepted(p)
  {
    exists x: nat :: Offset(p, x) == i
  }

  ghost predicate IsLeast(p: Params, i: nat, w: nat)
    requires Accepted(p)
  {
    Offset(p, w) == i && forall x: nat :: Offset(p, x) == i ==> w <= x
  }

  /** The least value of the k-th bin of the range of m; 0 if there is none. */
  function LeastIn(p: Params, m: nat, k: nat): nat
    requires Accepted(p)
  {
    if k == 0 then Pow(p.factor, m)
    else if m > 0 || p.steps <= p.factor then (k + Skip(p)) * Width(p, m)
    else
      Basics(p);
      if k % Skip(p) == 0 then k / Skip(p) + 1 else 0
  }

  function Least(p: Params, i: nat): nat
    requires Accepted(p) && i >= 1
  {
    DivAtLeast(i - 1, PerRange(p), 0);
    ModBounds(i - 1, PerRange(p));
    LeastIn(p, p.lmag + (i - 1) / PerRange(p), (i - 1) % PerRange(p))
  }

  lemma Split(p: Params, d: nat, k: nat)
    requires Accepted(p) && k < PerRange(p)
    ensures d * PerRange(p) >= 0 && Least(p, d * PerRange(p) + k + 1) == LeastIn(p, p.lmag + d, k)
  {
    var n := PerRange(p);
    MulMonotone(0, d, n);
    assert (d + 1) * n == d * n + n;
    DivIs(d * n + k, n, d);
    assert d * n + k == (d * n + k) / n * n + (d * n + k) % n;
  }

  /** Values at distance i share a range and a linear bin. */
  lemma SameBin(p: Params, m: nat, k: nat, x: nat)
    requires Accepted(p) && p.lmag <= m <= p.hmag && k < PerRange(p)
    ensures Offset(p, x) == (m - p.lmag) * PerRange(p) + k + 1 <==> InRange(p, m, x) && Linear(p, m, x) == k + Skip(p)
  {
    hide Accepted, Pow, MagFrom, PerRange, Linear, Skip;
    PowBelow(p);
    var n := PerRange(p);
    if InRange(p, m, x) {
      MagIs(p, m, x);
    } else {
      OffsetBounds(p, x);
      MulMonotone(0, m - p.lmag, n);
      MulMonotone(m - p.lmag + 1, p.hmag - p.lmag + 1, n);
      assert (m - p.lmag + 1) * n == (m - p.lmag) * n + n;
      if Pow(p.factor, p.lmag) <= x < Pow(p.factor, p.hmag + 1) {
        var r := HasMag(p, x);
        MagIs(p, r, x);
        OffsetInBounds(p, r, x);
        if r < m {
          MulMonotone(r - p.lmag + 1, m - p.lmag, n);
        } else {
          MulMonotone(m - p.lmag + 1, r - p.lmag, n);
        }
      }
    }
  }

  /** The least value of a bin whose range divides evenly. */
  lemma LeastEven(p: Params, m: nat, k: nat, x: nat)
    requires Accepted(p) && p.lmag <= m <= p.hmag && k < PerRange(p) && (m > 0 || p.steps <= p.factor)
    ensures var w := LeastIn(p, m, k);
      && w > 0 && InRange(p, m, w) && Linear(p, m, w) == k + Skip(p)
      && (InRange(p, m, x) && Linear(p, m, x) == k + Skip(p) ==> w <= x)
  {
    hide Accepted, Skip, Width, Linear, Pow;
    Basics(p);
    WidthWhole(p, m);
    PowPositive(p.factor, m);
    EvenLinear(p, m, LeastIn(p, m, k));
    EvenLinear(p, m, x);
    EvenCase(Width(p, m), p.steps, Skip(p), k, Pow(p.factor, m), x);
  }

  lemma EvenCase(u: nat, steps: nat, skip: nat, k: nat, base: nat, x: nat)
    requires u >= 1 && k + skip < steps && base >= 1 && (if skip == 0 then base < u else base == skip * u)
    ensures var w := if k == 0 then base else (k + skip) * u;
      && 0 < w && base <= w < u * steps && w / u == k + skip
      && (base <= x && x / u == k + skip ==> w <= x)
  {
    var q := k + skip;
    MultipleDiv(q, u);
    MultipleBelow(q, steps, u);
    if k > 0 {
      MultipleBelow(skip, q, u);
      AtMultiple(x, u, q);
    } else if skip == 0 {
      DivIs(base, u, 0);
    }
  }

  lemma MultipleDiv(q: nat, u: nat)
    requires u >= 1
    ensures q * u >= 0 && q * u / u == q
  {
    MulMonotone(0, q, u);
    NextMultiple(q, u);
    DivIs(q * u, u, q);
  }

  lemma MultipleBelow(q: nat, n: nat, u: nat)
    requires q < n
    ensures 0 <= q * u && q * u + u <= n * u == u * n
  {
    MulMonotone(0, q, u);
    NextMultiple(q, u);
    MulMonotone(q + 1, n, u);
  }

  lemma AtMultiple(x: nat, u: nat, q: nat)
    requires u >= 1
    ensures x / u == q ==> q * u <= x
  {
    DivBounds(x, u);
  }

  lemma EvenLinear(p: Params, m: nat, x: nat)
    requires Accepted(p) && p.lmag <= m && (m > 0 || p.steps <= p.factor)
    ensures Width(p, m) > 0 && Linear(p, m, x) == x / Width(p, m)
  {
    hide Accepted;
    Basics(p);
    WidthWhole(p, m);
    DivCancel(x, Width(p, m), p.steps);
  }

  /** In the range from 1 with more steps than values, each value has a bin of its own. */
  lemma LeastSparse(p: Params, k: nat, x: nat)
    requires Accepted(p) && p.lmag == 0 && k < PerRange(p) && p.steps > p.factor
    ensures var w := LeastIn(p, 0, k);
      && (w > 0 ==> InRange(p, 0, w) && Linear(p, 0, w) == k + Skip(p))
      && (InRange(p, 0, x) && Linear(p, 0, x) == k + Skip(p) ==> w == x && w > 0)
  {
    hide Accepted, Skip;
    Basics(p);
    RangeZero(p);
    var sf, w := Skip(p), LeastIn(p, 0, k);
    SparseLinear(p, x);
    SparseLinear(p, w);
    DivBounds(k, sf);
    ZeroDiv(sf);
    assert k == k / sf * sf + k % sf;
    if w > 0 {
      assert w == k / sf + 1 && w * sf == k + sf;
      if w >= p.factor {
        MulMonotone(p.factor, w, sf);
      }
    }
    if x * sf == k + sf {
      assert (x - 1) * sf == k;
      DivIs(k, sf, x - 1);
    }
  }

  lemma SparseLinear(p: Params, x: nat)
    requires Accepted(p) && p.steps > p.factor
    ensures Linear(p, 0, x) == x * Skip(p)
  {
    hide Accepted, Skip;
    Basics(p);
    RangeZero(p);
    var f, sf := p.factor, Skip(p);
    assert x * (sf * f) == (x * sf) * f;
    MulMonotone(0, x, sf);
    assert ((x * sf) + 1) * f == (x * sf) * f + f;
    DivIs(x * p.steps, f, x * sf);
  }

  /** The consumer's weight of a bin is the least value placed in it. */
  lemma LeastIs(p: Params, i: nat)
    requires Accepted(p) && 1 <= i <= Underflow(p)
    ensures Reachable(p, i) <==> Least(p, i) > 0
    ensures Reachable(p, i) ==> IsLeast(p, i, Least(p, i))
  {
    hide Accepted, LeastIn, Least, PerRange, Underflow, Reachable, IsLeast;
    var m, k := RangeOf(p, i);
    if m == p.hmag + 1 {
      TopLeast(p);
    } else {
      BinLeast(p, i, m, k);
    }
  }

  /** The range and the place in it that the bin at distance i stands for. */
  lemma RangeOf(p: Params, i: nat) returns (m: nat, k: nat)
    requires Accepted(p) && 1 <= i <= Underflow(p)
    ensures p.lmag <= m <= p.hmag + 1 && k < PerRange(p) && Least(p, i) == LeastIn(p, m, k)
    ensures m == p.hmag + 1 ==> k == 0 && i == Underflow(p)
    ensures m <= p.hmag ==> i == (m - p.lmag) * PerRange(p) + k + 1
  {
    hide Accepted, LeastIn, Least, PerRange;
    PowBelow(p);
    var d: nat;
    d, k := Digits(i - 1, PerRange(p), p.hmag - p.lmag + 1);
    m := p.lmag + d;
    LeastAt(p, i, d, k);
  }

  lemma LeastAt(p: Params, i: nat, d: nat, k: nat)
    requires Accepted(p) && i >= 1 && d == (i - 1) / PerRange(p) && k == (i - 1) % PerRange(p)
    ensures Least(p, i) == LeastIn(p, p.lmag + d, k)
  {
    hide Accepted, LeastIn, PerRange;
  }

  /** Quotient and remainder of a number up to a multiple of the divisor. */
  lemma Digits(x: nat, n: nat, top: nat) returns (d: nat, k: nat)
    requires n > 0 && x <= top * n
    ensures d == x / n && k == x % n < n && d <= top && x == d * n + k
    ensures d == top ==> k == 0 && x == top * n
  {
    DivAtLeast(x, n, 0);
    ModBounds(x, n);
    QuotientRemainder(x, n);
    d, k := x / n, x % n;
    DigitBound(x, n, top, d, k);
  }

  lemma DigitBound(x: nat, n: nat, top: nat, d: nat, k: nat)
    requires n > 0 && x == d * n + k <= top * n
    ensures d <= top && (d == top ==> k == 0)
  {
    if d > top {
      MulMonotone(top + 1, d, n);
      NextMultiple(top, n);
    }
  }

  lemma NextMultiple(q: nat, n: nat)
    ensures (q + 1) * n == q * n + n
  {
  }

  lemma QuotientRemainder(x: nat, n: nat)
    requires n > 0
    ensures x == x / n * n + x % n
  {
  }

  /** Some 64-bit value goes to the bin. */
  ghost predicate Reachable64(p: Params, bin: int)
    requires Accepted(p)
  {
    exists v :: Int64(v) && BinOf(p, v) == bin
  }

  /** Which bins 64-bit values reach: those whose least value is one. The least value of the
      last bin may not be, and its negation may be although it is not. */
  lemma LeastReached(p: Params, i: nat)
    requires Accepted(p) && 1 <= i <= Underflow(p)
    ensures Reachable64(p, Underflow(p) + i) <==> 0 < Least(p, i) < HALF
    ensures Reachable64(p, Underflow(p) - i) <==> 0 < Least(p, i) <= HALF
  {
    hide Accepted, Least, Offset, Underflow;
    LeastIs(p, i);
    var w := Least(p, i);
    if v :| Int64(v) && BinOf(p, v) == Underflow(p) + i {
      OffsetBounds(p, Abs(v));
      assert v >= 0 && Offset(p, v) == i;
    }
    if v :| Int64(v) && BinOf(p, v) == Underflow(p) - i {
      OffsetBounds(p, Abs(v));
      assert v < 0 && Offset(p, -v) == i;
    }
    if 0 < w <= HALF {
      assert w < HALF ==> Int64(w) && BinOf(p, w) == Underflow(p) + i;
      assert Int64(-w) && BinOf(p, -w) == Underflow(p) - i;
    }
  }

  lemma TopLeast(p: Params)
    requires Accepted(p)
    ensures var i, w := Underflow(p), LeastIn(p, p.hmag + 1, 0);
      Reachable(p, i) && w > 0 && IsLeast(p, i, w)
  {
    hide Accepted, Offset, Underflow;
    Basics(p);
    PowPositive(p.factor, p.hmag + 1);
    var w := LeastIn(p, p.hmag + 1, 0);
    OffsetBounds(p, w);
    forall x: nat | Offset(p, x) == Underflow(p) ensures w <= x {
      OffsetBounds(p, x);
    }
  }

  lemma BinLeast(p: Params, i: nat, m: nat, k: nat)
    requires Accepted(p) && p.lmag <= m <= p.hmag && k < PerRange(p) && i == (m - p.lmag) * PerRange(p) + k + 1
    ensures Reachable(p, i) <==> LeastIn(p, m, k) > 0
    ensures Reachable(p, i) ==> IsLeast(p, i, LeastIn(p, m, k))
  {
    hide Accepted, Offset, Pow, LeastIn, PerRange, Linear, InRange;
    var w := LeastIn(p, m, k);
    SameBin(p, m, k, w);
    forall x: nat | Offset(p, x) == i ensures 0 < w <= x && Offset(p, w) == i {
      SameBin(p, m, k, x);
      BinLeastAt(p, m, k, x);
    }
    if w > 0 {
      BinLeastAt(p, m, k, w);
    }
  }

  lemma BinLeastAt(p: Params, m: nat, k: nat, x: nat)
    requires Accepted(p) && p.lmag <= m <= p.hmag && k < PerRange(p)
    ensures var w := LeastIn(p, m, k);
      && (w > 0 ==> InRange(p, m, w) && Linear(p, m, w) == k + Skip(p))
      && (InRange(p, m, x) && Linear(p, m, x) == k + Skip(p) ==> 0 < w <= x)
  {
    hide Accepted, Pow, LeastIn, PerRange, Linear, InRange;
    if m > 0 || p.steps <= p.factor {
      LeastEven(p, m, k, x);
    } else {
      LeastSparse(p, k, x);
    }
  }

  /** The sum the consumer compares by: each bin's net count times its weight. */
  function WeightedSum(p: Params, q: seq<int>, i: nat): int
    requires Accepted(p) && i <= Underflow(p) && |q| == 2 * Underflow(p) + 1
  {
    if i == 0 then 0 else WeightedSum(p, q, i - 1) + Least(p, i) * Net(p, q, i)
  }

  function Net(p: Params, q: seq<int>, i: nat): int
    requires Accepted(p) && i <= Underflow(p) && |q| == 2 * Underflow(p) + 1
  {
    q[Underflow(p) + i] - q[Underflow(p) - i]
  }

  method Sum(p: Params, q: seq<int>) returns (total: int)
    requires Accepted(p) && |q| == 2 * Underflow(p) + 1
    ensures total == WeightedSum(p, q, Underflow(p))
  {
    hide Accepted, Pow, Least, PerRange, Underflow, Skip, Net;
    PowBelow(p);
    Basics(p);
    Blocks(p, p.lmag);
    FirstWeight(p);
    total := Pow(p.factor, p.lmag) * Net(p, q, 1);
    assert WeightedSum(p, q, 0) == 0;
    var i, lmag := 1, p.lmag;
    if p.lmag == 0 && p.steps > p.factor {
      total, i := SumSparse(p, q, total);
      lmag := 1;
    }
    total := SumEven(p, q, total, i, lmag);
  }

  lemma FirstWeight(p: Params)
    requires Accepted(p)
    ensures Least(p, 1) == Pow(p.factor, p.lmag)
  {
    Split(p, 0, 0);
  }

  lemma OrderedMags(p: Params)
    requires Accepted(p)
    ensures p.lmag <= p.hmag && p.factor > 0
  {
  }

  /** Where the block of bins of a range starts, and that it is within bounds. */
  lemma Blocks(p: Params, m: nat)
    requires Accepted(p) && p.lmag <= m <= p.hmag + 1
    ensures 0 <= (m - p.lmag) * PerRange(p) < Underflow(p)
    ensures m <= p.hmag ==> (m - p.lmag) * PerRange(p) + PerRange(p) < Underflow(p)
    ensures m == p.hmag + 1 ==> (m - p.lmag) * PerRange(p) + 1 == Underflow(p)
    ensures PerRange(p) == p.steps - Skip(p) && PerRange(p) >= 1
  {
    hide Accepted, Skip, Pow;
    OrderedMags(p);
    MulMonotone(0, m - p.lmag, PerRange(p));
    MulMonotone(m - p.lmag, p.hmag - p.lmag + 1, PerRange(p));
    if m <= p.hmag {
      MulMonotone(m - p.lmag + 1, p.hmag - p.lmag + 1, PerRange(p));
    }
  }

  /** Values 2 .. factor, one per group of bins. */
  method SumSparse(p: Params, q: seq<int>, total0: int) returns (total: int, i: nat)
    requires Accepted(p) && |q| == 2 * Underflow(p) + 1 && p.lmag == 0 && p.steps > p.factor
    requires 1 <= Underflow(p) && total0 == WeightedSum(p, q, 1)
    ensures i == PerRange(p) + 1 <= Underflow(p) && total == WeightedSum(p, q, i)
  {
    hide Accepted, Pow, Least, PerRange, Underflow, Skip, Net, WeightedSum;
    Basics(p);
    Blocks(p, 0);
    SparseEnd(p);
    total, i := total0, 1;
    var step := 2;
    while step <= p.factor
      invariant 2 <= step <= p.factor + 1 && i == (step - 2) * Skip(p) + 1 <= Underflow(p)
      invariant total == WeightedSum(p, q, i)
    {
      SparseStep(p, q, step);
      i := i + Skip(p);
      total := total + step * Net(p, q, i);
      step := step + 1;
    }
  }

  lemma SparseEnd(p: Params)
    requires Accepted(p) && p.lmag == 0 && p.steps > p.factor
    ensures (p.factor - 1) * Skip(p) == PerRange(p)
  {
    Basics(p);
    assert (p.factor - 1) * Skip(p) == p.factor * Skip(p) - Skip(p);
  }

  lemma SparseStep(p: Params, q: seq<int>, step: nat)
    requires Accepted(p) && |q| == 2 * Underflow(p) + 1 && p.lmag == 0 && p.steps > p.factor && 2 <= step <= p.factor
    ensures var i := (step - 2) * Skip(p) + 1;
      && 0 <= i <= i + Skip(p) == (step - 1) * Skip(p) + 1 <= Underflow(p)
      && WeightedSum(p, q, i + Skip(p)) == WeightedSum(p, q, i) + step * Net(p, q, i + Skip(p))
  {
    hide Accepted, Pow, Least, PerRange, Underflow, Skip, Net, WeightedSum;
    Basics(p);
    Blocks(p, 0);
    SparseEnd(p);
    var sf := Skip(p);
    var i := (step - 2) * sf + 1;
    MulMonotone(0, step - 2, sf);
    MulMonotone(step - 1, p.factor - 1, sf);
    assert (step - 1) * sf == (step - 2) * sf + sf;
    SkipBins(p, q, step, sf - 1);
    SparseWeight(p, step);
    WeightedStep(p, q, i + sf);
  }

  lemma WeightedStep(p: Params, q: seq<int>, i: nat)
    requires Accepted(p) && 1 <= i <= Underflow(p) && |q| == 2 * Underflow(p) + 1
    ensures WeightedSum(p, q, i) == WeightedSum(p, q, i - 1) + Least(p, i) * Net(p, q, i)
  {
  }

  /** Bins between those of two values are never used. */
  lemma {:induction false} SkipBins(p: Params, q: seq<int>, step: nat, j: nat)
    requires Accepted(p) && |q| == 2 * Underflow(p) + 1 && p.lmag == 0 && p.steps > p.factor && 2 <= step <= p.factor
    requires j < Skip(p) && (step - 2) * Skip(p) + 1 >= 0 && (step - 2) * Skip(p) + 1 + j <= Underflow(p)
    ensures WeightedSum(p, q, (step - 2) * Skip(p) + 1 + j) == WeightedSum(p, q, (step - 2) * Skip(p) + 1)
    decreases j
  {
    hide Accepted, Pow, Least, PerRange, Underflow, Skip, Net, WeightedSum;
    if j > 0 {
      SkipBins(p, q, step, j - 1);
      UnusedBin(p, step, j);
      WeightedStep(p, q, (step - 2) * Skip(p) + 1 + j);
    }
  }

  lemma UnusedBin(p: Params, step: nat, j: nat)
    requires Accepted(p) && p.lmag == 0 && p.steps > p.factor && 2 <= step <= p.factor && 0 < j < Skip(p)
    ensures (step - 2) * Skip(p) + 1 + j >= 1 && Least(p, (step - 2) * Skip(p) + 1 + j) == 0
  {
    hide Accepted, Pow, Least, PerRange, Skip;
    Basics(p);
    Blocks(p, 0);
    SparseEnd(p);
    var sf := Skip(p);
    var k := (step - 2) * sf + j;
    MulMonotone(0, step - 2, sf);
    MulMonotone(step - 1, p.factor - 1, sf);
    assert (step - 1) * sf == (step - 2) * sf + sf;
    DivIs(k, sf, step - 2);
    ModBounds(k, sf);
    Split(p, 0, k);
  }

  lemma SparseWeight(p: Params, step: nat)
    requires Accepted(p) && p.lmag == 0 && p.steps > p.factor && 2 <= step <= p.factor
    ensures (step - 1) * Skip(p) + 1 >= 1 && Least(p, (step - 1) * Skip(p) + 1) == step
  {
    hide Accepted, Least, PerRange, Skip;
    Basics(p);
    Blocks(p, 0);
    SparseEnd(p);
    var sf := Skip(p);
    MulMonotone(0, step - 1, sf);
    if step == p.factor {
      Split(p, 1, 0);
      RangeZero(p);
    } else {
      MulLess(step - 1, p.factor - 1, sf);
      MulMonotone(1, step - 1, sf);
      DivIs((step - 1) * sf, sf, step - 1);
      ModBounds((step - 1) * sf, sf);
      Split(p, 0, (step - 1) * sf);
    }
  }

  /** The ranges whose bins have whole widths. */
  method SumEven(p: Params, q: seq<int>, total0: int, i0: nat, lmag: nat) returns (total: int)
    requires Accepted(p) && |q| == 2 * Underflow(p) + 1 && p.lmag <= lmag <= p.hmag + 1
    requires (lmag > 0 || p.steps <= p.factor)
    requires i0 == (lmag - p.lmag) * PerRange(p) + 1 <= Underflow(p) && total0 == WeightedSum(p, q, i0)
    ensures total == WeightedSum(p, q, Underflow(p))
  {
    hide Accepted, Pow, Least, PerRange, Underflow, Skip, Net, WeightedSum, Width;
    Basics(p);
    total := total0;
    var i := i0;
    var scale := Width(p, lmag);
    var mag := lmag;
    while mag <= p.hmag
      invariant lmag <= mag <= p.hmag + 1 && scale == Width(p, mag)
      invariant i == (mag - p.lmag) * PerRange(p) + 1 <= Underflow(p) && total == WeightedSum(p, q, i)
    {
      Blocks(p, mag);
      ghost var start := i;
      var step := Skip(p) + 1;
      while step <= p.steps
        invariant Skip(p) + 1 <= step <= p.steps + 1 && i == start + step - Skip(p) - 1 <= Underflow(p)
        invariant total == WeightedSum(p, q, i)
      {
        EvenWeight(p, mag, step);
        i := i + 1;
        WeightedStep(p, q, i);
        total := total + step * scale * Net(p, q, i);
        step := step + 1;
      }
      WidthNext(p, mag);
      Blocks(p, mag + 1);
      assert (mag + 1 - p.lmag) * PerRange(p) == (mag - p.lmag) * PerRange(p) + PerRange(p);
      scale := scale * p.factor;
      mag := mag + 1;
    }
    Blocks(p, p.hmag + 1);
  }

  lemma EvenWeight(p: Params, m: nat, step: nat)
    requires Accepted(p) && p.lmag <= m <= p.hmag && (m > 0 || p.steps <= p.factor) && Skip(p) < step <= p.steps
    ensures var i := (m - p.lmag) * PerRange(p) + 1 + (step - Skip(p));
      i >= 1 && Least(p, i) == step * Width(p, m)
  {
    hide Accepted, Pow, Least, PerRange, Skip, Width;
    Basics(p);
    Blocks(p, m);
    if step == p.steps {
      WidthWhole(p, m);
      Split(p, m - p.lmag + 1, 0);
      assert (m - p.lmag + 1) * PerRange(p) == (m - p.lmag) * PerRange(p) + PerRange(p);
    } else {
      Split(p, m - p.lmag, step - Skip(p));
    }
  }

  lemma WidthNext(p: Params, m: nat)
    requires Accepted(p) && p.lmag <= m && (m > 0 || p.steps <= p.factor)
    ensures Width(p, m + 1) == Width(p, m) * p.factor
  {
    hide Accepted, Width, Pow, Skip;
    Basics(p);
    WidthWhole(p, m);
    WidthWhole(p, m + 1);
    PowStep(p.factor, m + 1);
    Scaled(Width(p, m), p.steps, p.factor);
    Cancel(Width(p, m + 1), Width(p, m) * p.factor, p.steps);
  }

  lemma PowStep(f: nat, n: nat)
    ensures Pow(f, n + 1) == Pow(f, n) * f
  {
  }

  lemma Scaled(u: nat, steps: nat, f: nat)
    ensures u * steps * f == u * f * steps
  {
  }
}
