/** The bucket table of hashmap.c as values: chains, lookups, and what one change of a bucket does to every key. */
module ChainMap {
  import opened Bits
  import opened Bytes
  import opened Counting

  type Key = seq<byte>

  datatype Entry = Entry(key: Key, val: nat, hash: nat)

  type Table = seq<seq<Entry>>

  /** fnv1a_hash. */
  function Fnv1a(key: Key): nat {
    if key == [] then 0xcbf2_9ce4_8422_2325
    else (Xor(Fnv1a(key[..|key| - 1]), key[|key| - 1]) * 0x100_0000_01b3) % TWO64
  }

  ghost predicate PowerOfTwo(c: nat) { exists k: nat :: c == Pow2(k) }

  /** The bucket of a hash. */
  function Slot(hash: nat, cap: nat): nat
    requires cap > 0
  {
    And(hash, cap - 1)
  }

  lemma SlotInRange(hash: nat, cap: nat)
    requires PowerOfTwo(cap)
    ensures cap > 0 && Slot(hash, cap) == hash % cap < cap
  {
    var k: nat :| cap == Pow2(k);
    MaskIsMod(hash, k);
  }

  // ----- Chains.

  function ChainAt(c: seq<Entry>, k: Key): (r: nat)
    ensures r <= |c| && (r < |c| ==> c[r].key == k)
    ensures forall i | 0 <= i < r :: c[i].key != k
  {
    if c == [] || c[0].key == k then 0 else 1 + ChainAt(c[1..], k)
  }

  function ChainGet(c: seq<Entry>, k: Key): Option<nat> {
    if ChainAt(c, k) < |c| then Some(c[ChainAt(c, k)].val) else None
  }

  ghost predicate UniqueKeys(c: seq<Entry>) {
    forall i, j | 0 <= i < j < |c| :: c[i].key != c[j].key
  }

  lemma ConsGet(e: Entry, c: seq<Entry>, k: Key)
    ensures ChainGet([e] + c, k) == if e.key == k then Some(e.val) else ChainGet(c, k)
  {
    assert ([e] + c)[1..] == c;
  }

  lemma AtIs(c: seq<Entry>, k: Key, i: nat)
    requires i <= |c| && (i < |c| ==> c[i].key == k) && forall j | 0 <= j < i :: c[j].key != k
    ensures ChainAt(c, k) == i
  {
  }

  lemma SetGet(c: seq<Entry>, i: nat, v: nat, k: Key)
    requires UniqueKeys(c) && i < |c|
    ensures UniqueKeys(c[i := c[i].(val := v)])
    ensures ChainGet(c[i := c[i].(val := v)], k) == if c[i].key == k then Some(v) else ChainGet(c, k)
  {
    hide ChainAt;
    var d := c[i := c[i].(val := v)];
    assert forall j | 0 <= j < |c| :: d[j].key == c[j].key;
    AtIs(d, k, ChainAt(c, k));
    if c[i].key == k { AtIs(c, k, i); }
  }

  function Cut(c: seq<Entry>, i: nat): seq<Entry>
    requires i < |c|
  {
    c[..i] + c[i + 1..]
  }

  lemma CutGet(c: seq<Entry>, i: nat, k: Key)
    requires UniqueKeys(c) && i < |c|
    ensures UniqueKeys(Cut(c, i))
    ensures ChainGet(Cut(c, i), k) == if c[i].key == k then None else ChainGet(c, k)
  {
    hide ChainAt;
    var d := Cut(c, i);
    forall j | 0 <= j < |d| ensures d[j] == c[if j < i then j else j + 1] {
    }
    var a := ChainAt(c, k);
    if c[i].key == k {
      AtIs(d, k, |d|);
    } else if a < |c| {
      AtIs(d, k, if a < i then a else a - 1);
    } else {
      AtIs(d, k, |d|);
    }
  }

  // ----- Tables.

  ghost predicate EntryOk(e: Entry, cap: nat, b: nat)
    requires cap > 0
  {
    e.hash == Fnv1a(e.key) && Slot(e.hash, cap) == b
  }

  ghost predicate ChainOk(c: seq<Entry>, cap: nat, b: nat)
    requires cap > 0
  {
    UniqueKeys(c) && forall i | 0 <= i < |c| :: EntryOk(c[i], cap, b)
  }

  /** Every entry is in the bucket of its hash, and no key is stored twice. */
  ghost predicate TableOk(t: Table) {
    PowerOfTwo(|t|) && |t| > 0 && forall b: nat | b < |t| :: ChainOk(t[b], |t|, b)
  }

  /** The bucket of a key. */
  function Home(k: Key, cap: nat): nat
    requires cap > 0
  {
    Slot(Fnv1a(k), cap)
  }

  lemma HomeInRange(k: Key, cap: nat)
    requires PowerOfTwo(cap)
    ensures cap > 0 && Home(k, cap) < cap
  {
    SlotInRange(Fnv1a(k), cap);
  }

  function MapGet(m: map<Key, nat>, k: Key): Option<nat> { if k in m then Some(m[k]) else None }

  ghost predicate AgreesAt(t: Table, m: map<Key, nat>, k: Key) {
    |t| > 0 && Home(k, |t|) < |t| && ChainGet(t[Home(k, |t|)], k) == MapGet(m, k)
  }

  ghost predicate Agrees(t: Table, m: map<Key, nat>) { forall k :: AgreesAt(t, m, k) }

  function Total(t: Table): nat {
    if t == [] then 0 else Total(t[..|t| - 1]) + |t[|t| - 1]|
  }

  lemma {:induction false} TotalSet(t: Table, b: nat, c: seq<Entry>)
    requires b < |t|
    ensures Total(t[b := c]) == Total(t) - |t[b]| + |c|
    decreases |t|
  {
    var n := |t| - 1;
    assert t[b := c][..n] == if b < n then t[..n][b := c] else t[..n];
    if b < n { TotalSet(t[..n], b, c); }
  }

  lemma {:induction false} TotalEmpty(t: Table)
    requires forall b | 0 <= b < |t| :: t[b] == []
    ensures Total(t) == 0
  {
    if t != [] { TotalEmpty(t[..|t| - 1]); }
  }

  lemma OneBucketKeeps(t: Table, b: nat, c: seq<Entry>)
    requires TableOk(t) && b < |t| && ChainOk(c, |t|, b)
    ensures TableOk(t[b := c])
  {
    var t' := t[b := c];
    forall a: nat | a < |t'| ensures ChainOk(t'[a], |t'|, a) {
      if a != b { assert ChainOk(t[a], |t|, a); }
    }
  }

  /** Changing one bucket changes the table at one key only. */
  lemma OneKeyChanges(t: Table, m: map<Key, nat>, m': map<Key, nat>, key: Key, c: seq<Entry>)
    requires TableOk(t) && Agrees(t, m) && Home(key, |t|) < |t|
    requires forall k :: ChainGet(c, k) == if k == key then MapGet(m', k) else ChainGet(t[Home(key, |t|)], k)
    requires forall k | k != key :: MapGet(m', k) == MapGet(m, k)
    ensures Agrees(t[Home(key, |t|) := c], m')
  {
    var t' := t[Home(key, |t|) := c];
    forall k ensures AgreesAt(t', m', k) {
      assert AgreesAt(t, m, k);
    }
  }

  /** A new entry at the head of its chain binds its key. */
  lemma PrependKeeps(t: Table, m: map<Key, nat>, e: Entry)
    requires TableOk(t) && Agrees(t, m) && e.hash == Fnv1a(e.key) && e.key !in m
    ensures var b := Home(e.key, |t|);
            && b < |t| && TableOk(t[b := [e] + t[b]]) && Agrees(t[b := [e] + t[b]], m[e.key := e.val])
            && Total(t[b := [e] + t[b]]) == Total(t) + 1
  {
    hide Fnv1a, Slot, PowerOfTwo;
    HomeInRange(e.key, |t|);
    var b := Home(e.key, |t|);
    var c := [e] + t[b];
    assert ChainOk(t[b], |t|, b);
    assert AgreesAt(t, m, e.key);
    forall i, j | 0 <= i < j < |c| ensures c[i].key != c[j].key {
      if i > 0 { assert t[b][i - 1].key != t[b][j - 1].key; }
    }
    forall i | 0 <= i < |c| ensures EntryOk(c[i], |t|, b) {
      if i > 0 { assert EntryOk(t[b][i - 1], |t|, b); }
    }
    OneBucketKeeps(t, b, c);
    TotalSet(t, b, c);
    var m' := m[e.key := e.val];
    forall k ensures ChainGet(c, k) == if k == e.key then MapGet(m', k) else ChainGet(t[b], k) {
      ConsGet(e, t[b], k);
    }
    OneKeyChanges(t, m, m', e.key, c);
  }

  /** Overwriting the value of an entry rebinds its key. */
  lemma SetKeeps(t: Table, m: map<Key, nat>, b: nat, i: nat, v: nat)
    requires TableOk(t) && Agrees(t, m) && b < |t| && i < |t[b]|
    ensures var c, key := t[b][i := t[b][i].(val := v)], t[b][i].key;
            && key in m && TableOk(t[b := c]) && Agrees(t[b := c], m[key := v]) && Total(t[b := c]) == Total(t)
  {
    hide Fnv1a, Slot, PowerOfTwo;
    var c, key := t[b][i := t[b][i].(val := v)], t[b][i].key;
    assert ChainOk(t[b], |t|, b);
    assert EntryOk(t[b][i], |t|, b);
    assert AgreesAt(t, m, key);
    var m' := m[key := v];
    forall k ensures UniqueKeys(c) && ChainGet(c, k) == if k == key then MapGet(m', k) else ChainGet(t[b], k) {
      SetGet(t[b], i, v, k);
    }
    assert UniqueKeys(c) by { SetGet(t[b], i, v, key); }
    forall j | 0 <= j < |c| ensures EntryOk(c[j], |t|, b) {
      assert EntryOk(t[b][j], |t|, b);
    }
    OneBucketKeeps(t, b, c);
    TotalSet(t, b, c);
    OneKeyChanges(t, m, m', key, c);
  }

  /** Unlinking an entry unbinds its key. */
  lemma CutKeeps(t: Table, m: map<Key, nat>, b: nat, i: nat)
    requires TableOk(t) && Agrees(t, m) && b < |t| && i < |t[b]|
    ensures var c, key := Cut(t[b], i), t[b][i].key;
            && key in m && TableOk(t[b := c]) && Agrees(t[b := c], m - {key}) && Total(t[b := c]) == Total(t) - 1
  {
    hide Fnv1a, Slot, PowerOfTwo;
    var c, key := Cut(t[b], i), t[b][i].key;
    assert ChainOk(t[b], |t|, b);
    assert EntryOk(t[b][i], |t|, b);
    assert AgreesAt(t, m, key);
    var m' := m - {key};
    forall k ensures ChainGet(c, k) == if k == key then MapGet(m', k) else ChainGet(t[b], k) {
      CutGet(t[b], i, k);
    }
    assert UniqueKeys(c) by { CutGet(t[b], i, key); }
    forall j | 0 <= j < |c| ensures EntryOk(c[j], |t|, b) {
      assert EntryOk(t[b][if j < i then j else j + 1], |t|, b);
    }
    OneBucketKeeps(t, b, c);
    TotalSet(t, b, c);
    OneKeyChanges(t, m, m', key, c);
  }

  // ----- Rehashing.

  /** The entry of k lies before entry j of bucket i. */
  ghost predicate Passed(t: Table, i: nat, j: nat, k: Key)
    requires |t| > 0 && i <= |t|
  {
    Home(k, |t|) < i || (i < |t| && Home(k, |t|) == i && ChainAt(t[i], k) < j)
  }

  ghost predicate MovedAt(t: Table, n: Table, m: map<Key, nat>, i: nat, j: nat, k: Key)
    requires |t| > 0 && i <= |t|
  {
    |n| > 0 && Home(k, |n|) < |n| && ChainGet(n[Home(k, |n|)], k) == if Passed(t, i, j, k) then MapGet(m, k) else None
  }

  /** The new table holds exactly the bindings of the entries already passed. */
  ghost predicate Moved(t: Table, n: Table, m: map<Key, nat>, i: nat, j: nat)
    requires |t| > 0 && i <= |t|
  {
    forall k :: MovedAt(t, n, m, i, j, k)
  }

  /** Relinking one entry. */
  lemma MoveOne(t: Table, n: Table, m: map<Key, nat>, i: nat, j: nat)
    requires TableOk(t) && Agrees(t, m) && TableOk(n) && i < |t| && j < |t[i]| && Moved(t, n, m, i, j)
    ensures var e := t[i][j]; var b := Slot(e.hash, |n|);
            && b < |n| && TableOk(n[b := [e] + n[b]]) && Moved(t, n[b := [e] + n[b]], m, i, j + 1)
            && Total(n[b := [e] + n[b]]) == Total(n) + 1
  {
    hide Fnv1a, Slot, PowerOfTwo;
    var e := t[i][j];
    assert ChainOk(t[i], |t|, i);
    assert EntryOk(e, |t|, i);
    HomeInRange(e.key, |n|);
    var b := Home(e.key, |n|);
    assert MovedAt(t, n, m, i, j, e.key);
    assert ChainAt(t[i], e.key) == j;
    NewChainOk(n, b, e);
    OneBucketKeeps(n, b, [e] + n[b]);
    TotalSet(n, b, [e] + n[b]);
    var n', j' := n[b := [e] + n[b]], j + 1;
    forall k ensures MovedAt(t, n', m, i, j', k) {
      MoveOneKey(t, n, m, i, j, k);
    }
  }

  lemma NewChainOk(n: Table, b: nat, e: Entry)
    requires TableOk(n) && b < |n| && EntryOk(e, |n|, b) && ChainGet(n[b], e.key) == None
    ensures ChainOk([e] + n[b], |n|, b)
  {
    hide Fnv1a, Slot, PowerOfTwo;
    var c := [e] + n[b];
    assert ChainOk(n[b], |n|, b);
    forall x, y | 0 <= x < y < |c| ensures c[x].key != c[y].key {
      if x > 0 { assert n[b][x - 1].key != n[b][y - 1].key; }
    }
    forall x | 0 <= x < |c| ensures EntryOk(c[x], |n|, b) {
      if x > 0 { assert EntryOk(n[b][x - 1], |n|, b); }
    }
  }

  lemma MoveOneKey(t: Table, n: Table, m: map<Key, nat>, i: nat, j: nat, k: Key)
    requires TableOk(t) && Agrees(t, m) && |n| > 0 && i < |t| && j < |t[i]| && MovedAt(t, n, m, i, j, k)
    requires EntryOk(t[i][j], |t|, i) && Home(t[i][j].key, |n|) < |n| && ChainAt(t[i], t[i][j].key) == j
    ensures var e := t[i][j]; var b := Home(e.key, |n|); MovedAt(t, n[b := [e] + n[b]], m, i, j + 1, k)
  {
    hide Fnv1a, Slot, TableOk;
    var e := t[i][j];
    var b := Home(e.key, |n|);
    assert AgreesAt(t, m, k);
    ConsGet(e, n[b], k);
    if ChainAt(t[i], k) == j { assert k == e.key; }
  }
}
