/** Thread-local variables: a hash map with packed keys behaves like one store per thread. */
module Tls {
  import opened Wrappers
  import opened Arith
  import opened Bpf

  const B32: nat := 0x1_0000_0000

  /** Who runs: a thread with its id, or an idle CPU (thread id 0). */
  datatype Who = Who(tid: nat, cpu: nat)

  /** What a variable belongs to: the thread, or the CPU when it is idle. */
  datatype Owner = Thread(tid: nat) | Idle(cpu: nat)

  function OwnerOf(w: Who): Owner {
    if w.tid == 0 then Idle(w.cpu) else Thread(w.tid)
  }

  /** The CPU number is below the number of CPUs; thread ids leave room for it. */
  predicate Proper(ncpus: nat, o: Owner) {
    match o
    case Thread(t) => 0 < t && t + ncpus + 1 < B32
    case Idle(c) => c < ncpus && ncpus + 1 < B32
  }

  /** The packed key, as the helper computes it in 64 bits. */
  function Key(ncpus: nat, w: Who, id: nat): u64 {
    var key := w.tid % B32;
    var k := if key == 0 then w.cpu else key + ncpus % B32;
    W((k + 1) * B32 + id % B32)
  }

  function OwnerNumber(ncpus: nat, o: Owner): nat {
    match o case Thread(t) => t + ncpus + 1 case Idle(c) => c + 1
  }

  lemma KeyIs(ncpus: nat, w: Who, id: nat)
    requires Proper(ncpus, OwnerOf(w)) && id < B32
    ensures Key(ncpus, w, id) == OwnerNumber(ncpus, OwnerOf(w)) * B32 + id
    ensures Key(ncpus, w, id) / B32 == OwnerNumber(ncpus, OwnerOf(w)) && Key(ncpus, w, id) % B32 == id
  {
    hide Key, W;
    KeyParts(ncpus, w, id);
    Packed(OwnerNumber(ncpus, OwnerOf(w)), id);
  }

  lemma KeyParts(ncpus: nat, w: Who, id: nat)
    requires w.tid < B32 && ncpus < B32 && id < B32
    ensures Key(ncpus, w, id) == W(OwnerNumber(ncpus, OwnerOf(w)) * B32 + id)
  {
    hide W;
  }

  lemma Packed(n: nat, id: nat)
    requires id < B32
    ensures n < B32 ==> W(n * B32 + id) == n * B32 + id
    ensures B32 <= n < 2 * B32 ==> W(n * B32 + id) == (n - B32) * B32 + id
    ensures (n * B32 + id) / B32 == n && (n * B32 + id) % B32 == id
  {
  }

  /** Different variables, and different owners, never share a key; and no key is the one
      reserved for the default value. */
  lemma KeysDiffer(ncpus: nat, w: Who, id: nat, w': Who, id': nat)
    requires Proper(ncpus, OwnerOf(w)) && id < B32 && Proper(ncpus, OwnerOf(w')) && id' < B32
    ensures Key(ncpus, w, id) == Key(ncpus, w', id') <==> OwnerOf(w) == OwnerOf(w') && id == id'
    ensures Key(ncpus, w, id) != 0
  {
    hide Key;
    KeyIs(ncpus, w, id);
    KeyIs(ncpus, w', id');
  }

  /** The bound is exact: a thread shares its variables with an idle CPU just when it is
      exceeded; and when it is met, the first variable's key is the reserved one. */
  lemma KeysCollide(ncpus: nat, t: nat, cpu: nat, id: nat)
    requires 0 < t < B32 && 0 < ncpus && ncpus + 1 < B32 && id < B32
    ensures SharesWithIdle(ncpus, t, cpu, id) <==> t + ncpus + 1 > B32
    ensures Key(ncpus, Who(t, cpu), id) == 0 <==> t + ncpus + 1 == B32 && id == 0
    ensures Proper(ncpus, Thread(t)) <==>
      !SharesWithIdle(ncpus, t, cpu, id) && Key(ncpus, Who(t, cpu), 0) != 0
  {
    hide Key;
    ThreadKey(ncpus, t, cpu, id);
    ThreadKey(ncpus, t, cpu, 0);
    if t + ncpus + 1 > B32 {
      KeyIs(ncpus, Who(0, t + ncpus - B32), id);
    }
    if c :| 0 <= c < ncpus && Key(ncpus, Who(t, cpu), id) == Key(ncpus, Who(0, c), id) {
      KeyIs(ncpus, Who(0, c), id);
    }
  }

  ghost predicate SharesWithIdle(ncpus: nat, t: nat, cpu: nat, id: nat) {
    exists c :: 0 <= c < ncpus && Key(ncpus, Who(t, cpu), id) == Key(ncpus, Who(0, c), id)
  }

  lemma ThreadKey(ncpus: nat, t: nat, cpu: nat, id: nat)
    requires 0 < t < B32 && ncpus + 1 < B32 && id < B32
    ensures var n := t + ncpus + 1; Key(ncpus, Who(t, cpu), id) == (if n < B32 then n else n - B32) * B32 + id
  {
    hide Key, W;
    KeyParts(ncpus, Who(t, cpu), id);
    Packed(t + ncpus + 1, id);
  }

  /** 2^(8 * size), for the sizes a scalar can have. */
  function Span(size: nat): (span: nat)
    ensures span > 0
  {
    if size == 1 then 0x100 else if size == 2 then 0x1_0000 else if size == 4 then B32 else WORD
  }

  /** Storing `size` bytes of v at the start of an 8-byte value. */
  function Overwrite(entry: u64, v: u64, size: nat): u64 {
    var r := entry / Span(size) * Span(size) + v % Span(size);
    r % WORD
  }

  lemma OverwriteReads(entry: u64, v: u64, size: nat)
    ensures Overwrite(entry, v, size) % Span(size) == v % Span(size)
  {
    if size == 1 {
      LowBytes1(entry, v);
    } else if size == 2 {
      LowBytes2(entry, v);
    } else if size == 4 {
      LowBytes4(entry, v);
    } else {
      LowBytes8(entry, v);
    }
  }

  lemma LowBytes1(entry: u64, v: u64)
    ensures (entry / 0x100 * 0x100 + v % 0x100) % WORD % 0x100 == v % 0x100
  {
  }

  lemma LowBytes2(entry: u64, v: u64)
    ensures (entry / 0x1_0000 * 0x1_0000 + v % 0x1_0000) % WORD % 0x1_0000 == v % 0x1_0000
  {
  }

  lemma LowBytes8(entry: u64, v: u64)
    ensures (entry / WORD * WORD + v % WORD) % WORD % WORD == v % WORD
  {
    assert entry / WORD == 0;
  }

  lemma LowBytes4(entry: u64, v: u64)
    ensures (entry / B32 * B32 + v % B32) % WORD % B32 == v % B32
  {
  }

  // ----- one store per owner, over any run of accesses -----

  datatype Access =
    | Loaded(who: Who, id: nat, size: nat, v: u64)
    | Stored(who: Who, id: nat, size: nat, v: u64)

  predicate Sets(a: Access, o: Owner, id: nat) {
    a.Stored? && OwnerOf(a.who) == o && a.id == id
  }

  /** What the variable `id` of `o` holds after the accesses in `log`: storing 0 deletes it. */
  function Held(log: seq<Access>, o: Owner, id: nat): u64 {
    if log == [] then 0
    else
      var before, a := Held(log[..|log| - 1], o, id), log[|log| - 1];
      if !Sets(a, o, id) then before else if a.v == 0 then 0 else Overwrite(before, a.v, a.size)
  }

  /** Each load gave what its variable held at the time. */
  ghost predicate LoadsRight(log: seq<Access>) {
    forall i :: 0 <= i < |log| && log[i].Loaded? ==>
      log[i].v == Held(log[..i], OwnerOf(log[i].who), log[i].id) % Span(log[i].size)
  }

  /** The value last stored by o, on whatever CPU; 0 if none was. */
  function LastStored(log: seq<Access>, o: Owner, id: nat): u64 {
    if log == [] then 0
    else if Sets(log[|log| - 1], o, id) then log[|log| - 1].v
    else LastStored(log[..|log| - 1], o, id)
  }

  lemma {:induction false} HeldIsLast(log: seq<Access>, o: Owner, id: nat, size: nat)
    requires forall i :: 0 <= i < |log| && log[i].id == id ==> log[i].size == size
    ensures Held(log, o, id) % Span(size) == LastStored(log, o, id) % Span(size)
    decreases |log|
  {
    hide Overwrite, Span;
    if log != [] {
      var n := |log| - 1;
      HeldIsLast(log[..n], o, id, size);
      if Sets(log[n], o, id) && log[n].v != 0 {
        OverwriteReads(Held(log[..n], o, id), log[n].v, size);
      }
    }
  }

  /** In any run in which each variable has one size, every load gives the value last stored
      by the same owner, or 0. */
  lemma LoadsLastStored(log: seq<Access>, i: nat)
    requires LoadsRight(log) && i < |log| && log[i].Loaded?
    requires forall j :: 0 <= j < i && log[j].id == log[i].id ==> log[j].size == log[i].size
    ensures log[i].v == LastStored(log[..i], OwnerOf(log[i].who), log[i].id) % Span(log[i].size)
  {
    hide Held, LastStored, Span;
    HeldIsLast(log[..i], OwnerOf(log[i].who), log[i].id, log[i].size);
  }

  function Look(dvars: map<u64, u64>, key: u64): u64 {
    if key in dvars then dvars[key] else 0
  }

  /** The map holds what the accesses have put there, for each owner apart. */
  ghost predicate HoldsAll(ncpus: nat, dvars: map<u64, u64>, log: seq<Access>) {
    forall w, id :: Proper(ncpus, OwnerOf(w)) && 0 <= id < B32 ==>
      Look(dvars, Key(ncpus, w, id)) == Held(log, OwnerOf(w), id)
  }

  lemma HeldHere(ncpus: nat, d: map<u64, u64>, log: seq<Access>, w: Who, id: nat)
    requires HoldsAll(ncpus, d, log) && Proper(ncpus, OwnerOf(w)) && id < B32
    ensures Look(d, Key(ncpus, w, id)) == Held(log, OwnerOf(w), id)
  {
  }

  lemma StoreHolds(ncpus: nat, d: map<u64, u64>, d': map<u64, u64>, log: seq<Access>, a: Access)
    requires HoldsAll(ncpus, d, log) && a.Stored? && Proper(ncpus, OwnerOf(a.who)) && a.id < B32
    requires var key := Key(ncpus, a.who, a.id);
      && Look(d', key) == (if a.v == 0 then 0 else Overwrite(Look(d, key), a.v, a.size))
      && forall k :: k != key ==> Look(d', k) == Look(d, k)
    ensures HoldsAll(ncpus, d', log + [a])
  {
    hide Key, Look, Overwrite, Held;
    forall w, id | Proper(ncpus, OwnerOf(w)) && 0 <= id < B32
      ensures Look(d', Key(ncpus, w, id)) == Held(log + [a], OwnerOf(w), id)
    {
      KeysDiffer(ncpus, w, id, a.who, a.id);
      HeldNext(log, a, OwnerOf(w), id);
    }
  }

  lemma HeldNext(log: seq<Access>, a: Access, o: Owner, id: nat)
    ensures Held(log + [a], o, id) ==
      if !Sets(a, o, id) then Held(log, o, id) else if a.v == 0 then 0 else Overwrite(Held(log, o, id), a.v, a.size)
  {
    assert (log + [a])[..|log|] == log;
  }

  lemma LoadHolds(ncpus: nat, d: map<u64, u64>, log: seq<Access>, a: Access)
    requires HoldsAll(ncpus, d, log) && a.Loaded?
    ensures HoldsAll(ncpus, d, log + [a])
  {
    hide Key, Look, Overwrite, Held;
    forall w, id | Proper(ncpus, OwnerOf(w)) && 0 <= id < B32
      ensures Look(d, Key(ncpus, w, id)) == Held(log + [a], OwnerOf(w), id)
    {
      HeldNext(log, a, OwnerOf(w), id);
    }
  }

  lemma RightNext(log: seq<Access>, a: Access)
    requires LoadsRight(log) && (a.Loaded? ==> a.v == Held(log, OwnerOf(a.who), a.id) % Span(a.size))
    ensures LoadsRight(log + [a])
  {
    hide Held, Span;
    forall i | 0 <= i < |log + [a]| && (log + [a])[i].Loaded?
      ensures var b := (log + [a])[i]; b.v == Held((log + [a])[..i], OwnerOf(b.who), b.id) % Span(b.size)
    {
      assert (log + [a])[..i] == log[..i];
      if i == |log| {
        assert log[..i] == log;
      }
    }
  }

  class Variables {
    const ncpus: nat
    const capacity: nat
    /** The map; key 0 holds the default value. */
    var dvars: map<u64, u64>
    /** The accesses so far; stores that found no room are not among them. */
    ghost var log: seq<Access>

    ghost predicate MapOk()
      reads this`dvars
    {
      0 in dvars && dvars[0] == 0 && |dvars| <= capacity
    }

    ghost predicate Valid()
      reads this
    {
      MapOk() && LoadsRight(log) && HoldsAll(ncpus, dvars, log)
    }

    constructor (ncpus: nat, capacity: nat)
      requires capacity > 0
      ensures Valid() && this.ncpus == ncpus && this.capacity == capacity && log == []
    {
      this.ncpus, this.capacity, dvars, log := ncpus, capacity, map[0 := 0], [];
      new;
      hide Key;
    }

    /** Looks a variable up, deletes it when 0 is to be stored, and creates it when another
        value is. The result is the key whose value may be read or written. */
    method GetVar(w: Who, id: nat, store: bool, nval: u64) returns (at: Option<u64>)
      requires MapOk() && Proper(ncpus, OwnerOf(w)) && id < B32
      modifies this`dvars
      ensures MapOk()
      ensures at.Some? ==> at.value == Key(ncpus, w, id) && at.value in dvars
      ensures !store ==> dvars == old(dvars) && (at.None? <==> Key(ncpus, w, id) !in dvars)
      ensures store && nval == 0 ==> at.None? && dvars == old(dvars) - {Key(ncpus, w, id)}
      ensures store && nval != 0 ==>
        && (at.None? <==> Key(ncpus, w, id) !in old(dvars) && |old(dvars)| >= capacity)
        && dvars == if at.Some? && at.value !in old(dvars) then old(dvars)[at.value := 0] else old(dvars)
    {
      hide Key;
      KeysDiffer(ncpus, w, id, w, id);
      var key := Key(ncpus, w, id);
      if store && nval == 0 {
        Removed(dvars, key);
        dvars := dvars - {key};
        return None;
      }
      if key in dvars {
        return Some(key);
      }
      if !store {
        return None;
      }
      if 0 !in dvars {
        return None;
      }
      var dflt := dvars[0];
      if |dvars| >= capacity {
        return None;
      }
      Inserted(dvars, key, dflt);
      dvars := dvars[key := dflt];
      return Some(key);
    }

    /** Reads a scalar variable of the given size: it gives what the owner's variable holds,
        on whatever CPU it was stored. */
    method Load(w: Who, id: nat, size: nat) returns (v: u64)
      requires Valid() && Proper(ncpus, OwnerOf(w)) && id < B32 && size in {1, 2, 4, 8}
      modifies this
      ensures Valid() && dvars == old(dvars)
      ensures v == Held(old(log), OwnerOf(w), id) % Span(size) && log == old(log) + [Loaded(w, id, size, v)]
    {
      hide Key, Held, Span, HoldsAll, LoadsRight;
      HeldHere(ncpus, dvars, log, w, id);
      var at := GetVar(w, id, false, 0);
      if at.None? {
        v := 0;
        ZeroSpan(size);
      } else {
        v := dvars[at.value] % Span(size);
      }
      assert v == Look(dvars, Key(ncpus, w, id)) % Span(size);
      LoadHolds(ncpus, dvars, log, Loaded(w, id, size, v));
      RightNext(log, Loaded(w, id, size, v));
      log := log + [Loaded(w, id, size, v)];
    }

    /** Writes a scalar variable. It fails, changing nothing, only when a new variable is
        needed and the map is full. */
    method Store(w: Who, id: nat, size: nat, v: u64) returns (ok: bool)
      requires Valid() && Proper(ncpus, OwnerOf(w)) && id < B32 && size in {1, 2, 4, 8}
      modifies this
      ensures Valid()
      ensures log == if ok then old(log) + [Stored(w, id, size, v)] else old(log)
      ensures !ok <==> v != 0 && Key(ncpus, w, id) !in old(dvars) && old(|dvars|) >= capacity
      ensures !ok ==> dvars == old(dvars)
      ensures ok ==> forall w' :: OwnerOf(w') == OwnerOf(w) ==>
        Look(dvars, Key(ncpus, w', id)) % Span(size) == v % Span(size)
      ensures forall w', id' |
        Proper(ncpus, OwnerOf(w')) && 0 <= id' < B32 && (OwnerOf(w'), id') != (OwnerOf(w), id) ::
        Look(dvars, Key(ncpus, w', id')) == old(Look(dvars, Key(ncpus, w', id')))
      ensures ok ==> |dvars| <= old(|dvars|) + 1 && (v == 0 ==> dvars == old(dvars) - {Key(ncpus, w, id)})
    {
      hide Key, Held, Overwrite, Span, HoldsAll, LoadsRight;
      OtherKeys(ncpus, w, id);
      var at := GetVar(w, id, true, v);
      if v != 0 && at.None? {
        return false;
      }
      if v == 0 {
        Removed(old(dvars), Key(ncpus, w, id));
        ZeroSpan(size);
      } else {
        OverwriteReads(dvars[at.value], v, size);
        if at.value !in old(dvars) {
          Inserted(old(dvars), at.value, 0);
        }
        SameKeys(dvars, at.value, Overwrite(dvars[at.value], v, size));
        KeysDiffer(ncpus, w, id, w, id);
        dvars := dvars[at.value := Overwrite(dvars[at.value], v, size)];
      }
      StoreHolds(ncpus, old(dvars), dvars, log, Stored(w, id, size, v));
      RightNext(log, Stored(w, id, size, v));
      log := log + [Stored(w, id, size, v)];
      ok := true;
    }
  }

  lemma OtherKeys(ncpus: nat, w: Who, id: nat)
    requires Proper(ncpus, OwnerOf(w)) && id < B32
    ensures forall w', id' :: Proper(ncpus, OwnerOf(w')) && 0 <= id' < B32 ==>
      (Key(ncpus, w', id') == Key(ncpus, w, id) <==> OwnerOf(w') == OwnerOf(w) && id' == id)
  {
    hide Key;
    forall w', id' | Proper(ncpus, OwnerOf(w')) && 0 <= id' < B32
      ensures Key(ncpus, w', id') == Key(ncpus, w, id) <==> OwnerOf(w') == OwnerOf(w) && id' == id
    {
      KeysDiffer(ncpus, w, id, w', id');
    }
  }

  lemma ZeroSpan(size: nat)
    ensures 0 % Span(size) == 0
  {
  }

  lemma Removed(m: map<u64, u64>, k: u64)
    ensures |m - {k}| <= |m|
  {
    assert (m - {k}).Keys == m.Keys - {k};
    assert |(m - {k}).Keys| == |m - {k}| && |m.Keys| == |m|;
  }

  lemma Inserted(m: map<u64, u64>, k: u64, v: u64)
    requires k !in m
    ensures |m[k := v]| == |m| + 1
  {
    assert m[k := v].Keys == m.Keys + {k};
    assert |m[k := v].Keys| == |m[k := v]| && |m.Keys| == |m|;
  }

  lemma SameKeys(m: map<u64, u64>, k: u64, v: u64)
    requires k in m
    ensures |m[k := v]| == |m|
  {
    assert m[k := v].Keys == m.Keys;
    assert |m[k := v].Keys| == |m[k := v]| && |m.Keys| == |m|;
  }
}
