/** The resizing chained map of hashmap.c. */
module HashMap {
  import opened Bits
  import opened Counting
  import opened ChainMap

  const DEFAULT_CAPACITY: nat := 16

  method Hash(key: Key) returns (h: nat)
    ensures h == Fnv1a(key)
  {
    h := 0xcbf2_9ce4_8422_2325;
    for i := 0 to |key|
      invariant h == Fnv1a(key[..i])
    {
      assert key[..i + 1][..i] == key[..i];
      h := (Xor(h, key[i]) * 0x100_0000_01b3) % TWO64;
    }
    assert key[..|key|] == key;
  }

  /** The walk along one chain. */
  method FindInChain(c: seq<Entry>, h: nat, key: Key) returns (i: nat)
    requires h == Fnv1a(key) && forall j | 0 <= j < |c| :: c[j].hash == Fnv1a(c[j].key)
    ensures i == ChainAt(c, key)
  {
    hide Fnv1a;
    i := 0;
    while i < |c|
      invariant i <= |c| && forall j | 0 <= j < i :: c[j].key != key
    {
      if c[i].hash == h && c[i].key == key {
        break;
      }
      i := i + 1;
    }
    AtIs(c, key, i);
  }

  /** hashmap_resize: every entry is relinked into the bucket of its hash under the new capacity. */
  method Rehash(t: Table, cap: nat, ghost m: map<Key, nat>) returns (n: Table)
    requires TableOk(t) && Agrees(t, m) && PowerOfTwo(cap) && cap > 0
    ensures |n| == cap && TableOk(n) && Agrees(n, m) && Total(n) == Total(t)
  {
    hide Agrees, Moved, Slot, Fnv1a, PowerOfTwo, TableOk;
    n := seq(cap, _ => []);
    FreshTable(t, n, m);
    NothingTotal(t);
    for i := 0 to |t|
      invariant |n| == cap && TableOk(n) && |t| > 0 && Moved(t, n, m, i, 0) && Total(n) == Total(t[..i])
    {
      for j := 0 to |t[i]|
        invariant |n| == cap && TableOk(n) && Moved(t, n, m, i, j) && Total(n) == Total(t[..i]) + j
      {
        MoveOne(t, n, m, i, j);
        var e := t[i][j];
        var idx := Slot(e.hash, cap);
        n := n[idx := [e] + n[idx]];
      }
      BucketDone(t, n, m, i);
    }
    AllMoved(t, n, m);
  }

  lemma FreshTable(t: Table, n: Table, m: map<Key, nat>)
    requires TableOk(t) && PowerOfTwo(|n|) && |n| > 0 && forall b | 0 <= b < |n| :: n[b] == []
    ensures TableOk(n) && Moved(t, n, m, 0, 0) && Total(n) == 0 && |t| > 0
  {
    hide Fnv1a, Slot, PowerOfTwo;
    TotalEmpty(n);
    forall k ensures MovedAt(t, n, m, 0, 0, k) {
      HomeInRange(k, |n|);
    }
  }

  lemma NothingTotal(t: Table)
    ensures Total(t[..0]) == 0
  {
  }

  lemma BucketDone(t: Table, n: Table, m: map<Key, nat>, i: nat)
    requires TableOk(t) && Agrees(t, m) && i < |t| && Moved(t, n, m, i, |t[i]|)
    ensures Moved(t, n, m, i + 1, 0) && Total(t[..i + 1]) == Total(t[..i]) + |t[i]|
  {
    hide Fnv1a, Slot, TableOk;
    assert t[..i + 1][..i] == t[..i];
    var i' := i + 1;
    forall k ensures MovedAt(t, n, m, i', 0, k) {
      assert MovedAt(t, n, m, i, |t[i]|, k);
      assert AgreesAt(t, m, k);
    }
  }

  lemma AllMoved(t: Table, n: Table, m: map<Key, nat>)
    requires TableOk(t) && Agrees(t, m) && Moved(t, n, m, |t|, 0)
    ensures Agrees(n, m) && t[..|t|] == t
  {
    hide Fnv1a, Slot, PowerOfTwo;
    forall k ensures AgreesAt(n, m, k) {
      assert MovedAt(t, n, m, |t|, 0, k);
      HomeInRange(k, |t|);
    }
  }

  function LoadThreshold(cap: nat): nat { cap * 75 % TWO64 / 100 }

  /** At most three entries for four buckets, as long as the threshold does not overflow. */
  ghost predicate LoadOk(count: nat, cap: nat, threshold: nat) {
    threshold == LoadThreshold(cap) && (cap * 75 < TWO64 ==> count <= threshold && 4 * threshold <= 3 * cap)
  }

  lemma GrowMakesRoom(count: nat, cap: nat, threshold: nat)
    requires cap > 0 && LoadOk(count, cap, threshold)
    ensures LoadOk(count, 2 * cap, LoadThreshold(2 * cap))
    ensures 2 * cap * 75 < TWO64 ==> count < LoadThreshold(2 * cap)
  {
  }

  class Map {
    var buckets: Table
    var count: nat
    var threshold: nat
    /** What the table stands for. */
    ghost var m: map<Key, nat>

    ghost predicate Valid()
      reads this
    {
      TableOk(buckets) && Agrees(buckets, m) && count == |m| == Total(buckets) && LoadOk(count, |buckets|, threshold)
    }

    constructor (cap: nat)
      requires PowerOfTwo(cap) && cap > 0
      ensures Valid() && m == map[] && |buckets| == cap
    {
      var n: Table := seq(cap, _ => []);
      buckets, count, threshold, m := n, 0, LoadThreshold(cap), map[];
      new;
      FreshIsEmpty(n);
    }

    static lemma FreshIsEmpty(n: Table)
      requires PowerOfTwo(|n|) && |n| > 0 && forall b | 0 <= b < |n| :: n[b] == []
      ensures TableOk(n) && Agrees(n, map[]) && Total(n) == 0
    {
      TotalEmpty(n);
      forall k ensures AgreesAt(n, map[], k) {
        HomeInRange(k, |n|);
      }
    }

    /** The chain a key belongs to, with the facts a walk along it needs. */
    lemma KeyChain(key: Key)
      requires Valid()
      ensures |buckets| > 0 && Slot(Fnv1a(key), |buckets|) < |buckets|
      ensures var c := buckets[Slot(Fnv1a(key), |buckets|)];
              (forall j | 0 <= j < |c| :: c[j].hash == Fnv1a(c[j].key)) && ChainGet(c, key) == MapGet(m, key)
    {
      hide Fnv1a, PowerOfTwo;
      assert AgreesAt(buckets, m, key);
      var b := Slot(Fnv1a(key), |buckets|);
      assert ChainOk(buckets[b], |buckets|, b);
      forall j | 0 <= j < |buckets[b]| ensures buckets[b][j].hash == Fnv1a(buckets[b][j].key) {
        assert EntryOk(buckets[b][j], |buckets|, b);
      }
    }

    /** hashmap_get, with 0 for NULL. */
    method Get(key: Key) returns (v: nat)
      requires Valid()
      ensures v == if key in m then m[key] else 0
    {
      hide Fnv1a, Slot, TableOk, Agrees;
      KeyChain(key);
      var h := Hash(key);
      var c := buckets[Slot(h, |buckets|)];
      var i := FindInChain(c, h, key);
      v := if i < |c| then c[i].val else 0;
    }

    /** hashmap_put; the two flags say whether memory was found for a larger table and for the entry. */
    method Put(key: Key, val: nat, tableRoom: bool, entryRoom: bool) returns (ok: bool)
      requires Valid()
      modifies this
      ensures Valid()
      ensures m == if ok then old(m)[key := val] else old(m)
      ensures var full := |old(m)| >= LoadThreshold(|old(buckets)|);
              var grows := key !in old(m) && full && tableRoom && |old(buckets)| * 2 < TWO64;
              && (ok <==> key in old(m) || (entryRoom && (full ==> grows)))
              && |buckets| == if grows then 2 * |old(buckets)| else |old(buckets)|
    {
      hide Fnv1a, Slot, TableOk, Agrees, PowerOfTwo, Total;
      KeyChain(key);
      var h := Hash(key);
      var idx := Slot(h, |buckets|);
      var c := buckets[idx];
      var i := FindInChain(c, h, key);
      if i < |c| {
        SetKeeps(buckets, m, idx, i, val);
        buckets := buckets[idx := c[i := c[i].(val := val)]];
        m := m[key := val];
        return true;
      }
      if count >= threshold {
        if !tableRoom || |buckets| * 2 >= TWO64 {
          return false;
        }
        Grow();
        KeyChain(key);
        idx := Slot(h, |buckets|);
      }
      if !entryRoom {
        return false;
      }
      PrependKeeps(buckets, m, Entry(key, val, h));
      buckets := buckets[idx := [Entry(key, val, h)] + buckets[idx]];
      m := m[key := val];
      count := count + 1;
      ok := true;
    }

    method Grow()
      requires Valid()
      modifies this
      ensures Valid() && m == old(m) && count == old(count) && |buckets| == 2 * old(|buckets|)
      ensures |buckets| * 75 < TWO64 ==> count < threshold
    {
      hide Fnv1a, Slot, TableOk, Agrees, Total, LoadOk, LoadThreshold;
      DoublePower(buckets);
      GrowMakesRoom(count, |buckets|, threshold);
      var n := Rehash(buckets, |buckets| * 2, m);
      buckets := n;
      threshold := LoadThreshold(|n|);
    }

    static lemma DoublePower(t: Table)
      requires TableOk(t)
      ensures PowerOfTwo(|t| * 2) && |t| > 0
    {
      var k: nat :| |t| == Pow2(k);
      assert |t| * 2 == Pow2(k + 1);
    }

    /** hashmap_remove, with 0 for NULL. */
    method Remove(key: Key) returns (v: nat)
      requires Valid()
      modifies this
      ensures Valid() && m == old(m) - {key} && v == if key in old(m) then old(m)[key] else 0
      ensures |buckets| == old(|buckets|)
    {
      hide Fnv1a, Slot, TableOk, Agrees, PowerOfTwo, Total;
      KeyChain(key);
      var h := Hash(key);
      var idx := Slot(h, |buckets|);
      var c := buckets[idx];
      var i := FindInChain(c, h, key);
      if i == |c| {
        assert m - {key} == m;
        return 0;
      }
      v := c[i].val;
      CutKeeps(buckets, m, idx, i);
      RemoveSize(m, key);
      buckets := buckets[idx := Cut(c, i)];
      m := m - {key};
      count := count - 1;
    }

    static lemma RemoveSize(m: map<Key, nat>, key: Key)
      requires key in m
      ensures |m - {key}| == |m| - 1
    {
      assert m == (m - {key})[key := m[key]];
    }
  }

  /** hashmap_create: no table without memory or for a capacity that cannot be rounded up. */
  method Create(initial: nat, memory: bool) returns (r: Map?)
    requires initial < TWO64
    ensures r != null <==> memory && initial <= Pow2(63)
    ensures r != null ==>
              && fresh(r) && r.Valid() && r.m == map[] && |r.buckets| >= initial && |r.buckets| >= DEFAULT_CAPACITY
              && (|r.buckets| < 2 * initial || |r.buckets| == DEFAULT_CAPACITY)
  {
    hide Pow2, Smeared;
    var want := if initial < DEFAULT_CAPACITY then DEFAULT_CAPACITY else initial;
    var cap := NextPow2(want);
    TwoTo64();
    ghost var k := NextPow2Is(want);
    SixteenStays(k, want);
    PowZero();
    if !memory || cap == 0 {
      return null;
    }
    r := new Map(cap);
  }

  lemma SixteenStays(k: nat, want: nat)
    requires want == DEFAULT_CAPACITY && want <= Pow2(63) ==> want <= Pow2(k) && (k > 0 ==> Pow2(k - 1) < want)
    ensures want == DEFAULT_CAPACITY && want <= Pow2(63) ==> Pow2(k) == DEFAULT_CAPACITY
    ensures want == DEFAULT_CAPACITY ==> want <= Pow2(63)
    ensures k > 0 ==> Pow2(k) == 2 * Pow2(k - 1)
  {
    TwoTo64();
    assert Pow2(4) == 16;
    if k >= 5 { PowMono(4, k - 1); } else if k <= 3 { assert Pow2(3) == 8; PowMono(k, 3); }
  }
}
