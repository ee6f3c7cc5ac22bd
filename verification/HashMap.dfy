/** libbpf's chained hash table: power-of-two bucket array, growth at 75% load,
    and the four insertion strategies. A bucket chain is a sequence whose first
    element is the entry the bucket pointer leads to. */
module HashMaps {
  import opened Wrappers
  import opened Arith

  datatype Entry<K, V> = Entry(key: K, value: V)

  datatype Strategy = Add | Set | Update | Append

  datatype Outcome = Done | Exists | NotFound

  const MIN_CAP_BITS: nat := 2

  /** Multiplicative shuffle, keeping the upper `bits` bits of a 64-bit word. */
  function HashBits(h: nat, bits: nat): (b: nat)
    ensures b < Pow2(bits)
  {
    var x := (h * 11400714819323198485) % WORD;
    Pow2Word();
    if bits <= 64 then
      ShrBound(x, 64 - bits, 64);
      Shr(x, 64 - bits)
    else
      Pow2Monotone(64, bits);
      x
  }

  // ----- chains and their contents -----

  function Flat<T>(bs: seq<seq<T>>): seq<T> {
    if bs == [] then [] else Flat(bs[..|bs| - 1]) + bs[|bs| - 1]
  }

  /** The values stored under `k`, in chain order. */
  function KeyValues<K(==), V>(es: seq<Entry<K, V>>, k: K): (vs: seq<V>) {
    if es == [] then []
    else
      var rest := KeyValues(es[..|es| - 1], k);
      var e := es[|es| - 1];
      if e.key == k then rest + [e.value] else rest
  }

  function Reverse<T>(s: seq<T>): seq<T> {
    if s == [] then [] else [s[|s| - 1]] + Reverse(s[..|s| - 1])
  }

  lemma {:induction false} KeyValuesConcat<K, V>(a: seq<Entry<K, V>>, b: seq<Entry<K, V>>, k: K)
    ensures KeyValues(a + b, k) == KeyValues(a, k) + KeyValues(b, k)
  {
    if b == [] {
      assert a + b == a;
    } else {
      var n := |b| - 1;
      assert (a + b)[..|a + b| - 1] == a + b[..n];
      KeyValuesConcat(a, b[..n], k);
    }
  }

  lemma {:induction false} KeyValuesAbsent<K, V>(es: seq<Entry<K, V>>, k: K)
    requires forall e :: e in es ==> e.key != k
    ensures KeyValues(es, k) == []
  {
    if es != [] {
      KeyValuesAbsent(es[..|es| - 1], k);
    }
  }

  lemma {:induction false} KeyValuesCount<K, V>(es: seq<Entry<K, V>>, k: K, v: V)
    ensures multiset(KeyValues(es, k))[v] == multiset(es)[Entry(k, v)]
  {
    if es != [] {
      var n := |es| - 1;
      assert es == es[..n] + [es[n]];
      KeyValuesCount(es[..n], k, v);
    }
  }

  /** Replacing one chain trades that chain's entries for the new ones. */
  lemma {:induction false} FlatUpdate<T>(bs: seq<seq<T>>, i: nat, c: seq<T>, e: T)
    requires i < |bs|
    ensures multiset(Flat(bs[i := c]))[e] + multiset(bs[i])[e] == multiset(Flat(bs))[e] + multiset(c)[e]
    ensures |Flat(bs[i := c])| + |bs[i]| == |Flat(bs)| + |c|
  {
    var n := |bs| - 1;
    var bs' := bs[i := c];
    if i == n {
      assert bs'[..n] == bs[..n];
    } else {
      FlatUpdate(bs[..n], i, c, e);
      assert bs'[..n] == bs[..n][i := c];
    }
  }

  lemma KeyValuesOne<K, V>(e: Entry<K, V>)
    ensures KeyValues([e], e.key) == [e.value]
  {
    assert [e][..0] == [];
  }

  /** Every entry sits in the bucket its hash selects. */
  ghost predicate Placed<K, V>(bs: seq<seq<Entry<K, V>>>, hash: K -> nat, bits: nat)
  {
    forall b, e :: 0 <= b < |bs| && e in bs[b] ==> HashBits(hash(e.key), bits) == b
  }

  lemma SameCounts<T>(a: multiset<T>, b: multiset<T>)
    requires forall x :: a[x] == b[x]
    ensures a == b && |a| == |b|
  {
  }

  lemma SameSize<T>(a: seq<T>, b: seq<T>)
    requires multiset(a) == multiset(b)
    ensures |a| == |b|
  {
    assert |multiset(a)| == |a|;
  }

  lemma PushFront<K, V>(bs: seq<seq<Entry<K, V>>>, hash: K -> nat, bits: nat, e: Entry<K, V>)
    requires |bs| == Pow2(bits) && Placed(bs, hash, bits)
    ensures Placed(Push(bs, hash, bits, e), hash, bits)
    ensures multiset(Flat(Push(bs, hash, bits, e))) == multiset(Flat(bs)) + multiset{e}
    ensures |Flat(Push(bs, hash, bits, e))| == |Flat(bs)| + 1
  {
    hide HashBits, Flat;
    var h := HashBits(hash(e.key), bits);
    var after := Push(bs, hash, bits, e);
    FlatUpdate(bs, h, [e] + bs[h], e);
    forall x ensures multiset(Flat(after))[x] == (multiset(Flat(bs)) + multiset{e})[x] {
      FlatUpdate(bs, h, [e] + bs[h], x);
    }
    SameCounts(multiset(Flat(after)), multiset(Flat(bs)) + multiset{e});
  }

  /** Overwriting, or unlinking, the entry at position i of chain h. */
  lemma SwapEntry<K, V>(bs: seq<seq<Entry<K, V>>>, hash: K -> nat, bits: nat, h: nat, i: nat, new_: seq<Entry<K, V>>)
    requires h < |bs| && i < |bs[h]| && Placed(bs, hash, bits)
    requires forall e :: e in new_ ==> e.key == bs[h][i].key
    ensures var bs' := bs[h := bs[h][..i] + new_ + bs[h][i + 1..]];
      && Placed(bs', hash, bits)
      && bs[h][i] in multiset(Flat(bs))
      && multiset(Flat(bs')) == multiset(Flat(bs)) - multiset{bs[h][i]} + multiset(new_)
      && |Flat(bs')| == |Flat(bs)| - 1 + |new_|
  {
    hide HashBits, Flat;
    var bs' := bs[h := bs[h][..i] + new_ + bs[h][i + 1..]];
    SwapCounts(bs, h, i, new_, bs[h][i]);
    forall x ensures multiset(Flat(bs'))[x] == (multiset(Flat(bs)) - multiset{bs[h][i]} + multiset(new_))[x] {
      SwapCounts(bs, h, i, new_, x);
    }
    SameCounts(multiset(Flat(bs')), multiset(Flat(bs)) - multiset{bs[h][i]} + multiset(new_));
  }

  lemma SwapCounts<T>(bs: seq<seq<T>>, h: nat, i: nat, new_: seq<T>, x: T)
    requires h < |bs| && i < |bs[h]|
    ensures var bs' := bs[h := bs[h][..i] + new_ + bs[h][i + 1..]];
      && multiset(Flat(bs'))[x] + multiset{bs[h][i]}[x] == multiset(Flat(bs))[x] + multiset(new_)[x]
      && (x == bs[h][i] ==> multiset(Flat(bs))[x] >= 1)
      && |Flat(bs')| == |Flat(bs)| - 1 + |new_|
  {
    hide Flat;
    var chain := bs[h];
    FlatUpdate(bs, h, chain[..i] + new_ + chain[i + 1..], x);
    FlatUpdate(bs, h, [], x);
    assert chain == chain[..i] + [chain[i]] + chain[i + 1..];
    assert multiset(chain)[x] == multiset(chain[..i])[x] + multiset{chain[i]}[x] + multiset(chain[i + 1..])[x];
  }

  /** All entries for a key are in one chain, so walking that chain is walking the table. */
  lemma {:induction false} ChainHoldsKey<K, V>(bs: seq<seq<Entry<K, V>>>, hash: K -> nat, bits: nat, k: K)
    requires Placed(bs, hash, bits)
    ensures KeyValues(Flat(bs), k)
         == if HashBits(hash(k), bits) < |bs| then KeyValues(bs[HashBits(hash(k), bits)], k) else []
  {
    if bs != [] {
      var n := |bs| - 1;
      ChainHoldsKey(bs[..n], hash, bits, k);
      KeyValuesConcat(Flat(bs[..n]), bs[n], k);
      if HashBits(hash(k), bits) != n {
        KeyValuesAbsent(bs[n], k);
      }
    }
  }

  // ----- rehashing -----

  function Push<K, V>(bs: seq<seq<Entry<K, V>>>, hash: K -> nat, bits: nat, e: Entry<K, V>): seq<seq<Entry<K, V>>>
    requires |bs| == Pow2(bits)
  {
    var h := HashBits(hash(e.key), bits);
    bs[h := [e] + bs[h]]
  }

  /** Pushing entries one by one to the front of their new buckets. */
  function Rehash<K, V>(es: seq<Entry<K, V>>, hash: K -> nat, bits: nat): (bs: seq<seq<Entry<K, V>>>)
    ensures |bs| == Pow2(bits)
  {
    if es == [] then seq(Pow2(bits), _ => [])
    else Push(Rehash(es[..|es| - 1], hash, bits), hash, bits, es[|es| - 1])
  }

  lemma {:induction false} FlatEmpty<T>(bs: seq<seq<T>>)
    requires forall b :: 0 <= b < |bs| ==> bs[b] == []
    ensures Flat(bs) == []
  {
    if bs != [] {
      FlatEmpty(bs[..|bs| - 1]);
    }
  }

  lemma {:induction false} RehashKeepsEntries<K, V>(es: seq<Entry<K, V>>, hash: K -> nat, bits: nat)
    ensures Placed(Rehash(es, hash, bits), hash, bits)
    ensures multiset(Flat(Rehash(es, hash, bits))) == multiset(es)
  {
    hide HashBits;
    if es == [] {
      FlatEmpty(Rehash(es, hash, bits));
    } else {
      var n := |es| - 1;
      RehashKeepsEntries(es[..n], hash, bits);
      PushFront(Rehash(es[..n], hash, bits), hash, bits, es[n]);
      assert es == es[..n] + [es[n]];
    }
  }

  /** Rehashing turns every key's value list around. */
  lemma {:induction false} RehashReverses<K, V>(es: seq<Entry<K, V>>, hash: K -> nat, bits: nat, k: K)
    ensures KeyValues(Rehash(es, hash, bits)[HashBits(hash(k), bits)], k) == Reverse(KeyValues(es, k))
  {
    if es != [] {
      var n := |es| - 1;
      var e := es[n];
      var chain := Rehash(es[..n], hash, bits)[HashBits(hash(k), bits)];
      RehashReverses(es[..n], hash, bits, k);
      KeyValuesConcat([e], chain, k);
      assert [e][..0] == [];
      if e.key == k {
        assert KeyValues(es, k)[..|KeyValues(es, k)| - 1] == KeyValues(es[..n], k);
      }
    }
  }

  /** Turned around, a list of values starts with its last one. */
  lemma {:induction false} ReverseFirst<T>(s: seq<T>)
    requires s != []
    ensures |Reverse(s)| == |s| && Reverse(s)[0] == s[|s| - 1]
    ensures Reverse(s)[0] == s[0] <==> s[0] == s[|s| - 1]
  {
    ReverseLength(s);
  }

  lemma {:induction false} ReverseLength<T>(s: seq<T>)
    ensures |Reverse(s)| == |s|
  {
    if s != [] {
      ReverseLength(s[..|s| - 1]);
    }
  }

  /** What a new entry in front of its chain does to the values of any key. */
  lemma PushValues<K, V>(bs: seq<seq<Entry<K, V>>>, hash: K -> nat, bits: nat, e: Entry<K, V>, k: K)
    requires |bs| == Pow2(bits)
    ensures KeyValues(Push(bs, hash, bits, e)[HashBits(hash(k), bits)], k) ==
      (if e.key == k then [e.value] else []) + KeyValues(bs[HashBits(hash(k), bits)], k)
  {
    hide HashBits;
    var h := HashBits(hash(e.key), bits);
    KeyValuesConcat([e], bs[h], k);
    assert [e][..0] == [];
  }

  lemma SplitValues<K, V>(a: seq<Entry<K, V>>, b: seq<Entry<K, V>>, c: seq<Entry<K, V>>, k: K)
    ensures KeyValues(a + b + c, k) == KeyValues(a, k) + KeyValues(b, k) + KeyValues(c, k)
  {
    KeyValuesConcat(a, b, k);
    KeyValuesConcat(a + b, c, k);
  }

  /** What replacing or unlinking the first entry of a key does to the values of any key. */
  lemma SwapValues<K, V>(chain: seq<Entry<K, V>>, i: nat, new_: seq<Entry<K, V>>, k: K)
    requires i < |chain| && KeyValues(chain[..i], chain[i].key) == []
    requires forall e :: e in new_ ==> e.key == chain[i].key
    ensures k == chain[i].key ==>
      && KeyValues(chain, k) == [chain[i].value] + KeyValues(chain[i + 1..], k)
      && KeyValues(chain[..i] + new_ + chain[i + 1..], k) == KeyValues(new_, k) + KeyValues(chain[i + 1..], k)
    ensures k != chain[i].key ==> KeyValues(chain[..i] + new_ + chain[i + 1..], k) == KeyValues(chain, k)
  {
    hide KeyValues;
    var e := chain[i];
    assert chain == chain[..i] + [e] + chain[i + 1..];
    SplitValues(chain[..i], [e], chain[i + 1..], k);
    SplitValues(chain[..i], new_, chain[i + 1..], k);
    if k == e.key {
      KeyValuesOne(e);
    } else {
      KeyValuesAbsent([e], k);
      KeyValuesAbsent(new_, k);
    }
  }

  /** The values of a key after an insertion in front, in a table that grew if it was full. */
  function Fronted<V>(vs: seq<V>, hit: bool, v: V, full: bool): seq<V> {
    (if hit then [v] else []) + if full then Reverse(vs) else vs
  }

  // ----- the table -----

  class HashMap<K(==, !new), V(!new)> {
    const hash: K -> nat
    var buckets: seq<seq<Entry<K, V>>>
    var cap: nat
    var capBits: nat
    var sz: nat

    ghost predicate Valid()
      reads this
    {
      && |buckets| == cap
      && (cap == 0 ==> capBits == 0)
      && (cap != 0 ==> capBits >= MIN_CAP_BITS && cap == Pow2(capBits))
      && Placed(buckets, hash, capBits)
      && sz == |Flat(buckets)|
      && 4 * sz / 3 <= cap
    }

    /** The multiset of stored entries: the table's abstract value. */
    ghost function Items(): multiset<Entry<K, V>>
      reads this
    {
      multiset(Flat(buckets))
    }

    /** What iteration over one key's entries yields, in order. */
    ghost function Values(k: K): seq<V>
      reads this
      requires Valid()
    {
      if cap == 0 then [] else KeyValues(buckets[HashBits(hash(k), capBits)], k)
    }

    /** Whether one more entry needs a larger table. */
    predicate Full()
      reads this
    {
      cap == 0 || (sz + 1) * 4 / 3 > cap
    }

    lemma ValuesAreItems(k: K, v: V)
      requires Valid()
      ensures multiset(Values(k))[v] == Items()[Entry(k, v)]
    {
      ChainHoldsKey(buckets, hash, capBits, k);
      KeyValuesCount(Flat(buckets), k, v);
    }

    constructor (hash: K -> nat)
      ensures Valid() && this.hash == hash && Items() == multiset{} && cap == sz == 0
      ensures forall k :: Values(k) == []
    {
      this.hash := hash;
      buckets, cap, capBits, sz := [], 0, 0, 0;
    }

    method RehashChain(bs: seq<seq<Entry<K, V>>>, chain: seq<Entry<K, V>>, bits: nat, ghost before: seq<Entry<K, V>>)
      returns (nb: seq<seq<Entry<K, V>>>)
      requires bs == Rehash(before, hash, bits)
      ensures nb == Rehash(before + chain, hash, bits)
    {
      hide HashBits;
      nb := bs;
      var j := 0;
      assert before + chain[..0] == before;
      while j < |chain|
        invariant 0 <= j <= |chain| && nb == Rehash(before + chain[..j], hash, bits)
      {
        ghost var next := before + chain[..j + 1];
        assert next[..|next| - 1] == before + chain[..j];
        var h := HashBits(hash(chain[j].key), bits);
        nb := nb[h := [chain[j]] + nb[h]];
        j := j + 1;
      }
      assert chain[..j] == chain;
    }

    /** The rehashing loop: every old chain in order, each entry pushed to the front. */
    method RehashAll(bits: nat) returns (nb: seq<seq<Entry<K, V>>>)
      requires Valid()
      ensures nb == Rehash(Flat(buckets), hash, bits)
    {
      nb := seq(Pow2(bits), _ => []);
      var bkt := 0;
      while bkt < cap
        invariant 0 <= bkt <= cap && nb == Rehash(Flat(buckets[..bkt]), hash, bits)
      {
        nb := RehashChain(nb, buckets[bkt], bits, Flat(buckets[..bkt]));
        assert buckets[..bkt + 1][..bkt] == buckets[..bkt];
        bkt := bkt + 1;
      }
      assert buckets[..bkt] == buckets;
    }

    /** Doubling keeps the entries, but reverses the order under each key: a lookup finds what
        it found before exactly if a key's first and last values are equal. */
    method Grow()
      requires Valid() && Full()
      modifies this
      ensures cap == (if old(cap) == 0 then 4 else 2 * old(cap)) && sz == old(sz)
      ensures Valid() && Items() == old(Items()) && !Full()
      ensures forall k :: Values(k) == Reverse(old(Values(k)))
      ensures forall k :: old(Values(k)) != [] ==>
        && |Values(k)| == old(|Values(k)|) && Values(k)[0] == old(Values(k)[|Values(k)| - 1])
        && (Values(k)[0] == old(Values(k)[0]) <==> old(Values(k)[0] == Values(k)[|Values(k)| - 1]))
    {
      hide HashBits, Flat, KeyValues, Rehash, Reverse, Placed;
      var bits := capBits + 1;
      if bits < MIN_CAP_BITS {
        bits := MIN_CAP_BITS;
      }
      var nb := RehashAll(bits);
      RehashKeepsEntries(Flat(buckets), hash, bits);
      SameSize(Flat(nb), Flat(buckets));
      forall k
        ensures KeyValues(nb[HashBits(hash(k), bits)], k) == Reverse(Values(k))
        ensures Values(k) != [] ==>
          |Reverse(Values(k))| == |Values(k)| && Reverse(Values(k))[0] == Values(k)[|Values(k)| - 1]
      {
        RehashedValues(bits, k);
        if Values(k) != [] {
          ReverseFirst(Values(k));
        }
      }
      cap, capBits, buckets := Pow2(bits), bits, nb;
    }

    lemma RehashedValues(bits: nat, k: K)
      requires Valid()
      ensures KeyValues(Rehash(Flat(buckets), hash, bits)[HashBits(hash(k), bits)], k) == Reverse(Values(k))
    {
      hide HashBits;
      RehashReverses(Flat(buckets), hash, bits, k);
      ChainHoldsKey(buckets, hash, capBits, k);
    }

    /** Position in the key's chain of the first entry for it. */
    method FindEntry(k: K) returns (pos: Option<nat>)
      requires Valid()
      ensures pos.None? <==> Values(k) == []
      ensures pos.Some? ==> cap != 0 && var chain := buckets[HashBits(hash(k), capBits)];
                && pos.value < |chain| && chain[pos.value] == Entry(k, Values(k)[0])
                && KeyValues(chain[..pos.value], k) == []
    {
      if cap == 0 {
        return None;
      }
      hide HashBits;
      var chain := buckets[HashBits(hash(k), capBits)];
      for i := 0 to |chain|
        invariant KeyValues(chain[..i], k) == []
      {
        assert chain[..i + 1][..i] == chain[..i];
        if chain[i].key == k {
          KeyValuesConcat(chain[..i + 1], chain[i + 1..], k);
          assert chain == chain[..i + 1] + chain[i + 1..];
          return Some(i);
        }
      }
      assert chain[..|chain|] == chain;
      return None;
    }

    method Find(k: K) returns (r: Option<V>)
      requires Valid()
      ensures r == if Values(k) == [] then None else Some(Values(k)[0])
    {
      var pos := FindEntry(k);
      match pos
      case None => r := None;
      case Some(i) => r := Some(buckets[HashBits(hash(k), capBits)][i].value);
    }

    method KeyEntries(k: K) returns (vs: seq<V>)
      requires Valid()
      ensures vs == Values(k)
      ensures forall v :: v in vs <==> Entry(k, v) in Items()
    {
      vs := [];
      if cap != 0 {
        var chain := buckets[HashBits(hash(k), capBits)];
        for i := 0 to |chain|
          invariant vs == KeyValues(chain[..i], k)
        {
          assert chain[..i + 1][..i] == chain[..i];
          if chain[i].key == k {
            vs := vs + [chain[i].value];
          }
        }
        assert chain[..|chain|] == chain;
      }
      forall v ensures v in vs <==> Entry(k, v) in Items() {
        ValuesAreItems(k, v);
        assert v in vs <==> v in multiset(vs);
      }
    }

    method Insert(k: K, v: V, strategy: Strategy) returns (r: Outcome, old_: Option<V>)
      requires Valid()
      modifies this
      ensures Valid()
      ensures old_ == if strategy == Append || old(Values(k)) == [] then None else Some(old(Values(k))[0])
      ensures r == Exists <==> strategy == Add && old_.Some?
      ensures r == NotFound <==> strategy == Update && old_.None?
      ensures r != Done ==> Items() == old(Items())
      ensures r == Done && old_.None? ==> Items() == old(Items()) + multiset{Entry(k, v)}
      ensures r == Done && old_.Some? ==>
        Items() == old(Items()) - multiset{Entry(k, old_.value)} + multiset{Entry(k, v)}
      ensures old_.Some? ==> Entry(k, old_.value) in old(Items())
      ensures r == Done && old_.None? ==> Pushed(old(cap), old(sz), old(Full()))
      ensures r == Done && old_.None? ==> forall j :: Values(j) == Fronted(old(Values(j)), j == k, v, old(Full()))
      ensures r != Done || old_.Some? ==> cap == old(cap) && sz == old(sz)
      ensures r != Done || old_.Some? ==> forall j ::
        Values(j) == if r == Done && j == k then [v] + old(Values(j))[1..] else old(Values(j))
    {
      hide HashBits, Flat, KeyValues, Reverse, Placed;
      old_ := None;
      if strategy != Append {
        var pos := FindEntry(k);
        if pos.Some? {
          var h := HashBits(hash(k), capBits);
          var i := pos.value;
          var was := buckets[h][i];
          old_ := Some(was.value);
          SwapEntry(buckets, hash, capBits, h, i, [Entry(k, v)]);
          if strategy != Add {
            Swap(k, i, [Entry(k, v)]);
            KeyValuesOne(Entry(k, v));
            return Done, old_;
          }
          return Exists, old_;
        }
      }
      if strategy == Update {
        return NotFound, old_;
      }
      PushEntry(k, v);
      r := Done;
    }

    /** One entry more, in a table that doubled if it was full. */
    ghost predicate Pushed(cap0: nat, sz0: nat, full: bool)
      reads this
    {
      sz == sz0 + 1 && cap == if !full then cap0 else if cap0 == 0 then 4 else 2 * cap0
    }

    /** The entry for k at position i of its chain, the first for k, is replaced or unlinked. */
    method Swap(k: K, i: nat, new_: seq<Entry<K, V>>)
      requires Valid() && cap != 0 && |new_| <= 1 && forall e :: e in new_ ==> e.key == k
      requires var chain := buckets[HashBits(hash(k), capBits)];
        i < |chain| && chain[i].key == k && KeyValues(chain[..i], k) == []
      modifies this
      ensures Valid() && cap == old(cap) && sz == old(sz) - 1 + |new_|
      ensures Items() == old(Items()) - multiset{old(buckets[HashBits(hash(k), capBits)][i])} + multiset(new_)
      ensures old(Values(k)) != [] && Values(k) == KeyValues(new_, k) + old(Values(k))[1..]
      ensures forall j :: j != k ==> Values(j) == old(Values(j))
    {
      hide HashBits, Flat, KeyValues, Placed;
      var h := HashBits(hash(k), capBits);
      var chain := buckets[h];
      SwapEntry(buckets, hash, capBits, h, i, new_);
      SwapValues(chain, i, new_, k);
      forall j | j != k ensures KeyValues(chain[..i] + new_ + chain[i + 1..], j) == KeyValues(chain, j) {
        SwapValues(chain, i, new_, j);
      }
      buckets := buckets[h := chain[..i] + new_ + chain[i + 1..]];
      sz := sz - 1 + |new_|;
    }

    method PushEntry(k: K, v: V)
      requires Valid()
      modifies this
      ensures Valid() && Pushed(old(cap), old(sz), old(Full()))
      ensures Items() == old(Items()) + multiset{Entry(k, v)}
      ensures forall j :: Values(j) == Fronted(old(Values(j)), j == k, v, old(Full()))
    {
      hide HashBits, Flat, KeyValues, Reverse, Placed;
      if cap == 0 || (sz + 1) * 4 / 3 > cap {
        Grow();
      }
      var h := HashBits(hash(k), capBits);
      PushFront(buckets, hash, capBits, Entry(k, v));
      forall j
        ensures KeyValues(Push(buckets, hash, capBits, Entry(k, v))[HashBits(hash(j), capBits)], j) ==
          (if j == k then [v] else []) + Values(j)
      {
        PushValues(buckets, hash, capBits, Entry(k, v), j);
      }
      buckets := buckets[h := [Entry(k, v)] + buckets[h]];
      sz := sz + 1;
    }

    method Delete(k: K) returns (old_: Option<V>)
      requires Valid()
      modifies this
      ensures Valid() && cap == old(cap)
      ensures old_ == if old(Values(k)) == [] then None else Some(old(Values(k))[0])
      ensures old_.None? ==> Items() == old(Items())
      ensures old_.Some? ==> Entry(k, old_.value) in old(Items())
      ensures old_.Some? ==> Items() == old(Items()) - multiset{Entry(k, old_.value)}
      ensures forall j :: Values(j) == if j == k && old_.Some? then old(Values(j))[1..] else old(Values(j))
    {
      hide HashBits, Flat, KeyValues, Placed;
      old_ := None;
      var pos := FindEntry(k);
      if pos.Some? {
        var i := pos.value;
        ghost var h := HashBits(hash(k), capBits);
        old_ := Some(buckets[HashBits(hash(k), capBits)][i].value);
        SwapEntry(buckets, hash, capBits, h, i, []);
        Swap(k, i, []);
        KeyValuesAbsent<K, V>([], k);
      }
    }

    /** Without APPEND the table is a plain map: at most one entry per key, and only the
        entry of k can change. */
    method InsertOne(k: K, v: V, strategy: Strategy) returns (r: Outcome, old_: Option<V>)
      requires Valid() && Plain(Items()) && strategy != Append
      modifies this
      ensures Valid() && Plain(Items())
      ensures old_ == Lookup(old(Items()), k)
      ensures r == (if strategy == Add && old_.Some? then Exists
        else if strategy == Update && old_.None? then NotFound else Done)
      ensures Lookup(Items(), k) == if r == Done then Some(v) else old_
      ensures forall j :: j != k ==> Lookup(Items(), j) == Lookup(old(Items()), j)
    {
      hide Values, Lookup, Plain, Items;
      FirstIsLookup(k);
      ghost var m := Items();
      r, old_ := Insert(k, v, strategy);
      if r == Done {
        if old_.Some? {
          PlainReplace(m, k, old_.value, v);
        } else {
          PlainAdd(m, k, v);
        }
      }
    }

    /** Deleting removes the one entry of the key. */
    method DeleteOne(k: K) returns (old_: Option<V>)
      requires Valid() && Plain(Items())
      modifies this
      ensures Valid() && Plain(Items()) && old_ == Lookup(old(Items()), k)
      ensures Lookup(Items(), k) == None
      ensures forall j :: j != k ==> Lookup(Items(), j) == Lookup(old(Items()), j)
    {
      hide Values, Lookup, Plain, Items;
      FirstIsLookup(k);
      ghost var m := Items();
      old_ := Delete(k);
      if old_.Some? {
        PlainRemove(m, k, old_.value);
      }
    }

    lemma FirstIsLookup(k: K)
      requires Valid() && Plain(Items())
      ensures (if Values(k) == [] then None else Some(Values(k)[0])) == Lookup(Items(), k)
    {
      hide Valid, Values, Plain;
      if Values(k) != [] {
        var v := Values(k)[0];
        assert v in multiset(Values(k));
        ValuesAreItems(k, v);
        LookupIs(Items(), k, v);
      } else {
        forall e | e in Items() ensures e.key != k {
          ValuesAreItems(k, e.value);
          assert e.key == k ==> e == Entry(k, e.value);
        }
      }
    }
  }

  /** A lookup is not for the entry inserted last once the table has grown: the key 0 gets 1
      and then 2, and after two insertions for other keys the lookup finds 1. */
  method OlderEntryFound(hash: nat -> nat) returns (before: Option<nat>, after: Option<nat>)
    ensures before == Some(2) && after == Some(1)
  {
    hide HashMap.Valid, HashMap.Items, HashMap.Values, Reverse;
    var table := new HashMap<nat, nat>(hash);
    ReverseShort<nat>(2, 1);
    ghost var start, two: seq<nat> := table.Values(0), [2, 1];
    assert Fronted(start, true, 1, true) == [1] && Fronted(two, false, 4, true) == [1, 2];
    var _, _ := table.Insert(0, 1, Append);
    assert table.Values(0) == [1];
    var _, _ := table.Insert(0, 2, Append);
    assert table.Values(0) == [2, 1];
    before := table.Find(0);
    var _, _ := table.Insert(3, 3, Append);
    assert table.Values(0) == two && table.Full();
    var _, _ := table.Insert(4, 4, Append);
    assert table.Values(0) == [1, 2];
    after := table.Find(0);
  }

  lemma ReverseShort<T>(a: T, b: T)
    ensures Reverse([a, b]) == [b, a] && Reverse<T>([]) == []
  {
    assert [a, b][..1] == [a] && [a][..0] == [];
    assert Reverse([a]) == [a];
    assert Reverse([a, b]) == [b] + Reverse([a]);
  }

  // ----- plain maps -----

  /** At most one entry per key. */
  ghost predicate Plain<K(!new), V(!new)>(m: multiset<Entry<K, V>>) {
    forall e, f :: e in m && f in m && e.key == f.key ==> e == f && m[e] == 1
  }

  ghost function Lookup<K(!new), V(!new)>(m: multiset<Entry<K, V>>, k: K): Option<V> {
    if e :| e in m && e.key == k then Some(e.value) else None
  }

  lemma LookupIs<K(!new), V(!new)>(m: multiset<Entry<K, V>>, k: K, v: V)
    requires Plain(m) && Entry(k, v) in m
    ensures Lookup(m, k) == Some(v)
  {
  }

  /** Two plain collections with the same entries for a key agree on it. */
  lemma SameLookup<K(!new), V(!new)>(m: multiset<Entry<K, V>>, n: multiset<Entry<K, V>>, k: K)
    requires Plain(m) && Plain(n) && forall e: Entry<K, V> :: e.key == k ==> (e in m <==> e in n)
    ensures Lookup(m, k) == Lookup(n, k)
  {
  }

  lemma OthersKept<K(!new), V(!new)>(m: multiset<Entry<K, V>>, n: multiset<Entry<K, V>>, k: K)
    requires Plain(m) && Plain(n) && forall e: Entry<K, V> :: e.key != k ==> (e in m <==> e in n)
    ensures forall j :: j != k ==> Lookup(n, j) == Lookup(m, j)
  {
    hide Plain, Lookup;
    forall j | j != k ensures Lookup(n, j) == Lookup(m, j) {
      SameLookup(m, n, j);
    }
  }

  lemma PlainAdd<K(!new), V(!new)>(m: multiset<Entry<K, V>>, k: K, v: V)
    requires Plain(m) && Lookup(m, k) == None
    ensures var n := m + multiset{Entry(k, v)};
      Plain(n) && Lookup(n, k) == Some(v) && forall j :: j != k ==> Lookup(n, j) == Lookup(m, j)
  {
    var n := m + multiset{Entry(k, v)};
    assert forall e :: e in m ==> e.key != k;
    assert Plain(n);
    LookupIs(n, k, v);
    OthersKept(m, n, k);
  }

  lemma PlainReplace<K(!new), V(!new)>(m: multiset<Entry<K, V>>, k: K, w: V, v: V)
    requires Plain(m) && Entry(k, w) in m
    ensures var n := m - multiset{Entry(k, w)} + multiset{Entry(k, v)};
      Plain(n) && Lookup(n, k) == Some(v) && forall j :: j != k ==> Lookup(n, j) == Lookup(m, j)
  {
    PlainRemove(m, k, w);
    var r := m - multiset{Entry(k, w)};
    PlainAdd(r, k, v);
  }

  lemma PlainRemove<K(!new), V(!new)>(m: multiset<Entry<K, V>>, k: K, w: V)
    requires Plain(m) && Entry(k, w) in m
    ensures var n := m - multiset{Entry(k, w)};
      Plain(n) && Lookup(n, k) == None && forall j :: j != k ==> Lookup(n, j) == Lookup(m, j)
  {
    var n := m - multiset{Entry(k, w)};
    assert forall e :: e in n ==> e in m && e.key != k by {
      forall e | e in n ensures e in m && e.key != k {
        assert m[e] >= n[e];
      }
    }
    assert Plain(n) by {
      assert forall e :: e in n ==> n[e] == m[e];
    }
    assert forall e: Entry<K, V> :: e.key != k ==> n[e] == m[e];
    OthersKept(m, n, k);
  }
}
