/** Facts about multiplication and division. */
module Arith {

  lemma MulMonotone(a: int, b: int, c: int)
    requires a <= b && c >= 0
    ensures a * c <= b * c && c * a <= c * b
  {
  }

  lemma DivBounds(x: nat, d: nat)
    requires d > 0
    ensures x / d * d <= x < (x / d + 1) * d
  {
    assert x == x / d * d + x % d;
  }

  lemma DivIs(x: nat, d: nat, q: int)
    requires d > 0 && q * d <= x < (q + 1) * d
    ensures x / d == q
  {
    DivBounds(x, d);
    var r := x / d;
    if r < q {
      MulMonotone(r + 1, q, d);
    } else if r > q {
      MulMonotone(q + 1, r, d);
    }
  }

  lemma DivAtLeast(x: nat, d: nat, q: int)
    requires d > 0 && q * d <= x
    ensures q <= x / d
  {
    DivBounds(x, d);
    if x / d < q {
      MulMonotone(x / d + 1, q, d);
    }
  }

  lemma DivBelow(x: nat, d: nat, q: int)
    requires d > 0 && x < q * d
    ensures x / d < q
  {
    DivBounds(x, d);
    if x / d >= q {
      MulMonotone(q, x / d, d);
    }
  }

  lemma DivMonotone(x: nat, y: nat, d: nat)
    requires d > 0 && x <= y
    ensures x / d <= y / d
  {
    DivBounds(x, d);
    DivBounds(y, d);
    if x / d > y / d {
      MulMonotone(y / d + 1, x / d, d);
    }
  }

  /** Cancelling a common factor. */
  lemma DivCancel(x: nat, u: nat, s: nat)
    requires u > 0 && s > 0
    ensures u * s > 0 && x * s / (u * s) == x / u
  {
    MulMonotone(1, u, s);
    DivBounds(x, u);
    var q := x / u;
    MulMonotone(q * u, x, s);
    MulMonotone(x + 1, (q + 1) * u, s);
    assert q * (u * s) == q * u * s && (q + 1) * (u * s) == (q + 1) * u * s;
    DivIs(x * s, u * s, q);
  }

  lemma ExactQuotient(x: nat, d: nat)
    requires d > 0 && x % d == 0
    ensures x == x / d * d
  {
  }

  lemma MultipleTimes(x: nat, d: nat, k: nat)
    requires d > 0 && x % d == 0
    ensures k * x % d == 0
  {
    ExactQuotient(x, d);
    var q := x / d;
    assert k * x == k * q * d;
    MultipleMod(k * q, d);
  }

  lemma MultipleMod(q: nat, d: nat)
    requires d > 0
    ensures q * d % d == 0
  {
    DivIs(q * d, d, q);
    assert q * d == q * d / d * d + q * d % d;
  }

  lemma MulLess(a: int, b: int, c: int)
    requires a < b && c > 0
    ensures a * c < b * c
  {
  }

  lemma Cancel(a: int, b: int, c: int)
    requires a * c == b * c && c > 0
    ensures a == b
  {
    if a < b {
      MulLess(a, b, c);
    } else if a > b {
      MulLess(b, a, c);
    }
  }

  lemma DivMonotoneSelf(x: nat, d: nat)
    requires d > 0
    ensures 0 <= x / d <= x
  {
    DivBounds(x, d);
    DivAtLeast(x, d, 0);
    MulMonotone(1, d, x / d);
  }

  lemma ModBounds(x: nat, d: nat)
    requires d > 0
    ensures 0 <= x % d < d && x == x / d * d + x % d
  {
  }

  lemma ZeroDiv(d: nat)
    requires d > 0
    ensures 0 / d == 0 && 0 % d == 0
  {
    DivIs(0, d, 0);
  }

  lemma QuotientNat(x: nat, s: nat, d: nat)
    requires d > 0
    ensures x * s / d >= 0
  {
    MulMonotone(0, x, s);
    var y: nat := x * s;
    DivAtLeast(y, d, 0);
  }

  // ----- powers of two -----

  const WORD: nat := 0x1_0000_0000_0000_0000

  function Pow2(n: nat): (p: nat)
    ensures p >= 1
  {
    if n == 0 then 1 else 2 * Pow2(n - 1)
  }

  lemma {:induction false} Pow2Monotone(a: nat, b: nat)
    requires a <= b
    ensures Pow2(a) <= Pow2(b)
    decreases b
  {
    if a < b {
      Pow2Monotone(a, b - 1);
    }
  }

  lemma Pow2Word()
    ensures Pow2(64) == WORD
  {
    assert Pow2(10) == 0x400;
    assert Pow2(20) == 0x10_0000;
    assert Pow2(30) == 0x4000_0000;
    assert Pow2(40) == 0x100_0000_0000;
    assert Pow2(50) == 0x4_0000_0000_0000;
    assert Pow2(60) == 0x1000_0000_0000_0000;
  }

  /** Logical shift right. */
  function Shr(x: nat, k: nat): nat {
    if k == 0 then x else Shr(x / 2, k - 1)
  }

  lemma {:induction false} ShrBound(x: nat, k: nat, n: nat)
    requires k <= n && x < Pow2(n)
    ensures Shr(x, k) < Pow2(n - k)
    decreases k
  {
    if k > 0 {
      ShrBound(x / 2, k - 1, n - 1);
    }
  }
}
