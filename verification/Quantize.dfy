/** Power-of-two and linear quantization, and the update of the bucket array. */
module Quantize {
  import opened Arith
  import opened Bpf

  const NBUCKETS := 127
  const ZEROBUCKET := 63

  /** The number of binary digits of x: 1 + floor(log2 x), and 0 for 0. */
  function Bits(x: nat): nat {
    if x == 0 then 0 else 1 + Bits(x / 2)
  }

  lemma {:induction false} BitsBounds(x: nat)
    requires x > 0
    ensures Bits(x) >= 1 && Pow2(Bits(x) - 1) <= x < Pow2(Bits(x))
  {
    if x > 1 {
      BitsBounds(x / 2);
    }
  }

  lemma {:induction false} BitsMonotone(x: nat, y: nat)
    requires x <= y
    ensures Bits(x) <= Bits(y)
    decreases y
  {
    if x > 0 {
      BitsMonotone(x / 2, y / 2);
    }
  }

  /** Dropping k digits. */
  lemma {:induction false} BitsShift(x: nat, k: nat)
    requires x >= Pow2(k)
    ensures Bits(x) == Bits(Shr(x, k)) + k && Shr(x, k) > 0
    decreases k
  {
    if k > 0 {
      BitsShift(x / 2, k - 1);
    }
  }

  lemma {:induction false} ShrZero(x: nat, k: nat)
    ensures Shr(x, k) == 0 <==> x < Pow2(k)
    decreases k
  {
    if k > 0 {
      ShrZero(x / 2, k - 1);
    }
  }

  /** Whether x has a bit set among bits lo .. hi-1. */
  predicate AnyBit(x: nat, lo: nat, hi: nat)
    requires lo <= hi
  {
    Shr(x, lo) % Pow2(hi - lo) != 0
  }

  lemma AnyBitIs(x: nat, lo: nat, hi: nat)
    requires lo <= hi && x < Pow2(hi)
    ensures AnyBit(x, lo, hi) <==> x >= Pow2(lo)
  {
    hide Shr, Pow2;
    ShrBound(x, lo, hi);
    ShrZero(x, lo);
    ModSmall(Shr(x, lo), Pow2(hi - lo));
  }

  lemma ModSmall(x: nat, m: nat)
    requires x < m
    ensures x % m == x
  {
    DivIs(x, m, 0);
    ModBounds(x, m);
  }

  /** The bucket of a value: its number of digits, signed, around the middle. */
  function QBin(v: int): int {
    if v == 0 - HALF then 0 else if v < 0 then ZEROBUCKET - Bits(Abs(v)) else ZEROBUCKET + Bits(v)
  }

  /** One step of the search for the highest digit. */
  method SearchStep(tmp: u64, off: nat, half: nat) returns (tmp': u64, off': nat)
    requires tmp > 0 && tmp < Pow2(2 * half) && half > 0
    ensures tmp' > 0 && tmp' < Pow2(half) && off' + Bits(tmp') == off + Bits(tmp)
  {
    tmp', off' := tmp, off;
    AnyBitIs(tmp, half, 2 * half);
    if AnyBit(tmp, half, 2 * half) {
      BitsShift(tmp, half);
      ShrBound(tmp, half, 2 * half);
      ShrLeq(tmp, half);
      off' := off + half;
      tmp' := Shr(tmp, half);
    }
  }

  lemma {:induction false} ShrLeq(x: nat, k: nat)
    ensures Shr(x, k) <= x
    decreases k
  {
    if k > 0 {
      ShrLeq(x / 2, k - 1);
    }
  }

  method QuantizeBin(v: int) returns (bin: int)
    requires Int64(v)
    ensures bin == QBin(v)
  {
    hide Pow2, Bits, Shr;
    if v == 0 {
      NoBits();
      return 63;
    }
    if v == 0 - HALF {
      return 0;
    }
    var tmp: u64 := W(v);
    if v < 0 {
      tmp := W(tmp * -1);
    }
    assert 0 < tmp == Abs(v) < HALF;
    SmallPowers();
    var off := 1;
    tmp, off := SearchStep(tmp, off, 32);
    tmp, off := SearchStep(tmp, off, 16);
    tmp, off := SearchStep(tmp, off, 8);
    tmp, off := SearchStep(tmp, off, 4);
    tmp, off := SearchStep(tmp, off, 2);
    AnyBitIs(tmp, 1, 2);
    LastBits(tmp);
    if AnyBit(tmp, 1, 2) {
      off := off + 1;
    }
    bin := off;
    if v < 0 {
      bin := bin * -1;
    }
    bin := bin + 63;
  }

  lemma NoBits()
    ensures Bits(0) == 0
  {
  }

  lemma SmallPowers()
    ensures Pow2(1) == 2 && Pow2(2) == 4 && HALF < Pow2(64)
  {
    Pow2Word();
  }

  lemma LastBits(x: nat)
    requires 0 < x < 4
    ensures Bits(x) == if x >= 2 then 2 else 1
  {
    assert Bits(0) == 0 && Bits(1) == 1 && Bits(2) == 2 && Bits(3) == 2;
  }

  /** Every value has a bucket, and larger values do not have lower ones. */
  lemma QBinBounds(v: int)
    requires Int64(v)
    ensures 0 <= QBin(v) < NBUCKETS
  {
    if v != 0 && v != 0 - HALF {
      DigitsBelow(Abs(v));
    }
  }

  lemma DigitsBelow(x: nat)
    requires x < HALF
    ensures Bits(x) <= 63
  {
    if x > 0 {
      BitsBounds(x);
      if Bits(x) > 63 {
        Pow2Monotone(63, Bits(x) - 1);
        assert Pow2(64) == 2 * Pow2(63);
        Pow2Word();
      }
    }
  }

  lemma QBinMonotone(v: int, w: int)
    requires Int64(v) && Int64(w) && v <= w
    ensures QBin(v) <= QBin(w)
  {
    hide Bits;
    QBinBounds(v);
    QBinBounds(w);
    if v >= 0 {
      BitsMonotone(v, w);
    } else if w < 0 {
      BitsMonotone(Abs(w), Abs(v));
    }
  }

  /** Positive values in a bucket lie between consecutive powers of two. */
  lemma QBinMeaning(v: int)
    requires 0 < v < HALF
    ensures QBin(v) > ZEROBUCKET && Pow2(QBin(v) - ZEROBUCKET - 1) <= v < Pow2(QBin(v) - ZEROBUCKET)
    ensures QBin(-v) == 2 * ZEROBUCKET - QBin(v)
  {
    BitsBounds(v);
  }

  // ----- linear quantization -----

  /** The bucket of a value: below the base, the level counted from it, or past the last. */
  function LBin(v: int, base: int, levels: nat, step: nat): nat {
    if step == 0 || v < base then 0
    else
      var exact := (v - base) / step;
      if exact > levels then levels + 1 else exact + 1
  }

  /** The subtraction is done on 64-bit words and may wrap; the quotient is exact all the
      same. */
  method LinearBin(v: int, base: int, levels: u64, step: u64) returns (bin: nat)
    requires Int64(v) && 0 - 0x8000_0000 <= base < 0x8000_0000
    ensures bin == LBin(v, base, levels, step)
  {
    hide W, S;
    if step == 0 || v < base {
      return 0;
    }
    Difference(v, base);
    var diff: u64 := W(S(W(v)) - base);
    DivMonotoneSelf(diff, step);
    var level: u64 := diff / step;
    if level > levels {
      level := levels;
    }
    NoWrap(level);
    bin := W(level as int + 1);
  }

  lemma Difference(v: int, base: int)
    requires Int64(v) && 0 - 0x8000_0000 <= base < 0x8000_0000 && base <= v
    ensures W(S(W(v)) - base) == v - base < WORD - 1
  {
  }

  lemma NoWrap(x: u64)
    requires x < WORD - 1
    ensures W(x as int + 1) == x + 1
  {
  }

  lemma LBinBounds(v: int, base: int, levels: nat, step: nat)
    ensures 0 <= LBin(v, base, levels, step) <= levels + 1
  {
  }

  lemma LBinMonotone(v: int, w: int, base: int, levels: nat, step: nat)
    requires v <= w
    ensures LBin(v, base, levels, step) <= LBin(w, base, levels, step)
  {
    if step > 0 && base <= v {
      DivMonotone(v - base, w - base, step);
    }
  }

  /** A value in the range of the levels lies in its level. */
  lemma LBinMeaning(v: int, base: int, levels: nat, step: nat)
    requires step > 0 && base <= v && LBin(v, base, levels, step) <= levels
    ensures var k := LBin(v, base, levels, step) - 1;
      k >= 0 && base + k * step <= v < base + (k + 1) * step
  {
    var q := (v - base) / step;
    assert v - base == q * step + (v - base) % step;
    assert (q + 1) * step == q * step + step;
  }

  // ----- the buckets -----

  type Words = seq<u64>

  function Total(d: Words): u64 {
    if d == [] then 0 else W(Total(d[..|d| - 1]) + d[|d| - 1])
  }

  /** The update: bins past the last bucket are ignored; otherwise the increment goes to one
      bucket, and so to the total. */
  method AddToBucket(d: array<u64>, bin: u64, incr: u64, maxbin: nat)
    requires maxbin < d.Length
    modifies d
    ensures d[..] == Added(old(d[..]), bin, incr, maxbin)
    ensures Total(d[..]) == if bin > maxbin then Total(old(d[..])) else W(Total(old(d[..])) + incr)
    ensures forall i :: 0 <= i < d.Length && i != bin ==> d[i] == old(d[i])
  {
    hide Total, W;
    if bin > maxbin {
      return;
    }
    AddedTotal(d[..], bin, incr, maxbin);
    d[bin] := W(d[bin] + incr);
  }

  function Added(d: Words, bin: u64, incr: u64, maxbin: nat): Words
    requires maxbin < |d|
  {
    if bin > maxbin then d else d[bin := W(d[bin] + incr)]
  }

  /** Nothing is dropped: the total grows by the increment. */
  lemma AddedTotal(d: Words, bin: nat, incr: u64, maxbin: nat)
    requires bin <= maxbin < |d| && bin < WORD
    ensures Total(Added(d, bin, incr, maxbin)) == W(Total(d) + incr)
  {
    hide Total, W;
    BucketTotal(d, bin, incr);
  }

  lemma {:induction false} BucketTotal(d: Words, bin: nat, incr: u64)
    requires bin < |d|
    ensures Total(d[bin := W(d[bin] + incr)]) == W(Total(d) + incr)
    decreases |d|
  {
    hide W;
    var n := |d| - 1;
    var e := d[bin := W(d[bin] + incr)];
    WAdd(Total(d[..n]) + d[n], incr);
    WAdd(Total(d[..n]) + incr, d[n]);
    WAdd(d[n] + incr, Total(d[..n]));
    if bin < n {
      assert e[..n] == d[..n][bin := W(d[bin] + incr)];
      BucketTotal(d[..n], bin, incr);
    } else {
      assert e[..n] == d[..n];
    }
  }

  lemma WZero(x: u64)
    ensures W(x + 0) == x
  {
  }

  datatype Sample = Sample(bin: u64, incr: u64)

  /** The buckets after a run of updates. */
  function AfterRun(d: Words, run: seq<Sample>, maxbin: nat): (r: Words)
    requires maxbin < |d|
    ensures |r| == |d|
  {
    if run == [] then d
    else
      var n := |run| - 1;
      Added(AfterRun(d, run[..n], maxbin), run[n].bin, run[n].incr, maxbin)
  }

  function Increments(run: seq<Sample>): u64 {
    if run == [] then 0 else W(Increments(run[..|run| - 1]) + run[|run| - 1].incr)
  }

  /** Over any run of updates with bins in range, the total is the sum of increments. */
  lemma {:induction false} RunTotal(d: Words, run: seq<Sample>, maxbin: nat)
    requires maxbin < |d| && forall i :: 0 <= i < |run| ==> run[i].bin <= maxbin
    ensures Total(AfterRun(d, run, maxbin)) == W(Total(d) + Increments(run))
    decreases |run|
  {
    hide W, Total;
    WZero(Total(d));
    if run != [] {
      var n := |run| - 1;
      WAdd(Total(d) + Increments(run[..n]), run[n].incr);
      WAdd(Increments(run[..n]) + run[n].incr, Total(d));
      RunTotal(d, run[..n], maxbin);
      AddedTotal(AfterRun(d, run[..n], maxbin), run[n].bin, run[n].incr, maxbin);
    }
  }

  /** A value and its increment. */
  datatype Event = Event(value: int, incr: u64)

  /** All increments together. */
  function Given(es: seq<Event>): u64 {
    if es == [] then 0 else W(Given(es[..|es| - 1]) + es[|es| - 1].incr)
  }

  /** The run puts the values of es into bins. */
  ghost predicate Binned(run: seq<Sample>, es: seq<Event>) {
    |run| == |es| && forall i :: 0 <= i < |es| ==> run[i].incr == es[i].incr
  }

  lemma {:induction false} GivenIs(run: seq<Sample>, es: seq<Event>)
    requires Binned(run, es)
    ensures Increments(run) == Given(es)
    decreases |es|
  {
    if es != [] {
      GivenIs(run[..|es| - 1], es[..|es| - 1]);
    }
  }

  /** Whatever puts every value into a bin in range drops none. */
  lemma CountsAll(d: Words, run: seq<Sample>, es: seq<Event>, maxbin: nat)
    requires maxbin < |d| && Binned(run, es) && forall i :: 0 <= i < |run| ==> run[i].bin <= maxbin
    ensures Total(AfterRun(d, run, maxbin)) == W(Total(d) + Given(es))
  {
    hide Total, AfterRun, Increments, Given;
    RunTotal(d, run, maxbin);
    GivenIs(run, es);
  }

  function Samples(es: seq<Event>): seq<Sample>
    requires forall i :: 0 <= i < |es| ==> Int64(es[i].value)
  {
    seq(|es|, i requires 0 <= i < |es| => (QBinBounds(es[i].value); Sample(QBin(es[i].value), es[i].incr)))
  }

  /** quantize() counts every value, whatever it is. */
  lemma QuantizeCountsAll(d: Words, es: seq<Event>)
    requires |d| == NBUCKETS && forall i :: 0 <= i < |es| ==> Int64(es[i].value)
    ensures Total(AfterRun(d, Samples(es), NBUCKETS - 1)) == W(Total(d) + Given(es))
  {
    hide QBin, Total, AfterRun, Increments, Given;
    forall i | 0 <= i < |es| ensures Samples(es)[i].bin <= NBUCKETS - 1 {
      QBinBounds(es[i].value);
    }
    CountsAll(d, Samples(es), es, NBUCKETS - 1);
  }

  function LinearSamples(es: seq<Event>, base: int, levels: nat, step: nat): seq<Sample>
    requires levels + 1 < WORD
  {
    seq(|es|, i requires 0 <= i < |es| =>
      (LBinBounds(es[i].value, base, levels, step); Sample(LBin(es[i].value, base, levels, step), es[i].incr)))
  }

  /** So does lquantize(), with a bucket on either side of its levels. */
  lemma LinearCountsAll(d: Words, es: seq<Event>, base: int, levels: nat, step: nat)
    requires levels + 1 < WORD && |d| == levels + 2
    ensures Total(AfterRun(d, LinearSamples(es, base, levels, step), levels + 1)) == W(Total(d) + Given(es))
  {
    hide LBin, Total, AfterRun, Increments, Given;
    var run := LinearSamples(es, base, levels, step);
    forall i | 0 <= i < |es| ensures run[i].bin <= levels + 1 {
      LBinBounds(es[i].value, base, levels, step);
    }
    CountsAll(d, run, es, levels + 1);
  }
}
