/** The L2 and L3 tiers of hms_cache.c: a fixed table of stamped slots, and the recency list it implements. */
module HmsCache {
  import opened Bytes
  import opened Counting
  import opened LruSpec

  const KEY_ROOM: nat := 63

  datatype Slot = Slot(inUse: bool, key: Key, blob: seq<byte>, tag: nat)

  /** strncpy into the key field. */
  function Trunc(k: Key): (r: Key)
    ensures |r| <= KEY_ROOM && (|k| <= KEY_ROOM ==> r == k)
  {
    if |k| <= KEY_ROOM then k else k[..KEY_ROOM]
  }

  predicate Holds(s: Slot, k: Key) { s.inUse && s.key == k }

  /** The first slot in use with key k, or the table size. */
  function SlotOf(t: seq<Slot>, k: Key): (i: nat)
    ensures i <= |t| && (i < |t| ==> Holds(t[i], k)) && forall j | 0 <= j < i :: !Holds(t[j], k)
  {
    if t == [] || Holds(t[0], k) then 0 else 1 + SlotOf(t[1..], k)
  }

  function FreeSlot(t: seq<Slot>): (i: nat)
    ensures i <= |t| && (i < |t| ==> !t[i].inUse) && forall j | 0 <= j < i :: t[j].inUse
  {
    if t == [] || !t[0].inUse then 0 else 1 + FreeSlot(t[1..])
  }

  /** The first slot with the smallest tag. */
  function Oldest(t: seq<Slot>): (i: nat)
    requires |t| > 0
    ensures i < |t| && forall j | 0 <= j < |t| :: t[i].tag <= t[j].tag
    ensures forall j | 0 <= j < i :: t[i].tag < t[j].tag
  {
    if |t| == 1 then 0
    else
      var b := Oldest(t[..|t| - 1]);
      if t[|t| - 1].tag < t[b].tag then |t| - 1 else b
  }

  /** The slot a put of k goes to. */
  function Place(t: seq<Slot>, k: Key): (i: nat)
    requires |t| > 0
    ensures i < |t|
  {
    if SlotOf(t, k) < |t| then SlotOf(t, k) else if FreeSlot(t) < |t| then FreeSlot(t) else Oldest(t)
  }

  /** The table after a put; without memory the chosen slot ends up unused. */
  function PutTable(t: seq<Slot>, now: nat, k: Key, v: seq<byte>, memory: bool): (r: seq<Slot>)
    requires |t| > 0
    ensures |r| == |t|
  {
    var i := Place(t, k);
    var key := if SlotOf(t, k) < |t| then k else Trunc(k);
    t[i := if memory then Slot(true, key, v, now + 1) else Slot(false, key, [], t[i].tag)]
  }

  function GetTable(t: seq<Slot>, now: nat, k: Key): (r: seq<Slot>)
    ensures |r| == |t|
  {
    var i := SlotOf(t, k);
    if i < |t| then t[i := t[i].(tag := now + 1)] else t
  }

  function Lookup(t: seq<Slot>, k: Key): Option<seq<byte>> {
    if SlotOf(t, k) < |t| then Some(t[SlotOf(t, k)].blob) else None
  }

  // ----- Long keys.

  ghost predicate KeysFit(t: seq<Slot>) { forall i | 0 <= i < |t| :: |t[i].key| <= KEY_ROOM }

  /** A successful put is found again exactly when the key fits its field, whatever else is in the table. */
  lemma GetAfterPut(t: seq<Slot>, now: nat, k: Key, v: seq<byte>)
    requires |t| > 0 && KeysFit(t)
    ensures KeysFit(PutTable(t, now, k, v, true))
    ensures Lookup(PutTable(t, now, k, v, true), k) == if |k| <= KEY_ROOM then Some(v) else None
  {
    var r := PutTable(t, now, k, v, true);
    var i, j := Place(t, k), SlotOf(r, k);
    if |k| <= KEY_ROOM {
      assert Holds(r[i], k);
      forall m | 0 <= m < i ensures !Holds(r[m], k) {
        assert r[m] == t[m];
      }
    }
  }

  // ----- The table as a recency list.

  ghost predicate SlotIs(t: seq<Slot>, i: nat, x: Pair, now: nat) {
    i < |t| && t[i].inUse && x == Pair(t[i].key, t[i].blob) && t[i].tag <= now
  }

  /** The slots in use, newest tag first, hold exactly the list l. */
  ghost predicate Rep(t: seq<Slot>, now: nat, order: seq<nat>, l: seq<Pair>) {
    && |order| == |l| && Distinct(order) && Unique(l)
    && (forall p | 0 <= p < |l| :: SlotIs(t, order[p], l[p], now))
    && (forall p, q | 0 <= p < q < |l| :: t[order[q]].tag < t[order[p]].tag)
    && (forall i: nat | i < |t| && t[i].inUse :: i in order)
  }

  lemma RepSize(t: seq<Slot>, now: nat, order: seq<nat>, l: seq<Pair>)
    requires Rep(t, now, order, l)
    ensures |l| <= |t| && (forall i: nat | i < |t| && !t[i].inUse :: |l| < |t|)
  {
    assert forall p | 0 <= p < |order| :: SlotIs(t, order[p], l[p], now);
    DistinctSize(order);
    assert Elems(order) <= Range(|t|);
    SubsetSize(Elems(order), Range(|t|));
    forall i: nat | i < |t| && !t[i].inUse ensures |l| < |t| {
      Pigeonhole(order, |t|, i);
    }
  }

  /** The table finds what the list finds. */
  lemma RepFind(t: seq<Slot>, now: nat, order: seq<nat>, l: seq<Pair>, k: Key)
    requires Rep(t, now, order, l)
    ensures Lookup(t, k) == Find(l, k)
    ensures var p := At(l, k); if p < |l| then SlotOf(t, k) == order[p] else SlotOf(t, k) == |t|
  {
    var i, p := SlotOf(t, k), At(l, k);
    if p < |l| {
      RepAt(t, now, order, l, p);
    }
    if i < |t| {
      assert i in order;
      var a :| 0 <= a < |order| && order[a] == i;
      assert SlotIs(t, order[a], l[a], now);
      UniqueAt(l, a);
    }
  }

  /** Filling a free slot adds an entry at the front. */
  lemma RepAdd(t: seq<Slot>, now: nat, order: seq<nat>, l: seq<Pair>, i: nat, x: Pair)
    requires Rep(t, now, order, l) && i < |t| && !t[i].inUse && forall a | 0 <= a < |l| :: l[a].key != x.key
    ensures Rep(t[i := Slot(true, x.key, x.val, now + 1)], now + 1, [i] + order, [x] + l)
  {
    var t', o', l' := t[i := Slot(true, x.key, x.val, now + 1)], [i] + order, [x] + l;
    forall a | 0 <= a < |l'| ensures SlotIs(t', o'[a], l'[a], now + 1) {
      if a > 0 { assert SlotIs(t, order[a - 1], l[a - 1], now); }
    }
    forall a, b | 0 <= a < b < |l'| ensures t'[o'[b]].tag < t'[o'[a]].tag && o'[a] != o'[b] && l'[a].key != l'[b].key {
      AddPairs(t, now, order, l, i, x, a, b);
    }
    forall j: nat | j < |t'| && t'[j].inUse ensures j in o' {
      if j != i {
        assert j in order;
        var a :| 0 <= a < |order| && order[a] == j;
        assert o'[a + 1] == j;
      } else {
        assert o'[0] == j;
      }
    }
  }

  lemma AddPairs(t: seq<Slot>, now: nat, order: seq<nat>, l: seq<Pair>, i: nat, x: Pair, a: nat, b: nat)
    requires Rep(t, now, order, l) && i < |t| && !t[i].inUse && a < b < |l| + 1
    requires forall a | 0 <= a < |l| :: l[a].key != x.key
    ensures var t', o': seq<nat> := t[i := Slot(true, x.key, x.val, now + 1)], [i] + order;
            && o'[a] < |t| && o'[b] < |t| && t'[o'[b]].tag < t'[o'[a]].tag && o'[a] != o'[b]
            && ([x] + l)[a].key != ([x] + l)[b].key
  {
    RepAt(t, now, order, l, b - 1);
    if a > 0 { RepAt(t, now, order, l, a - 1); }
  }

  lemma DropAt<T>(s: seq<T>, p: nat, a: nat)
    requires p < |s| && a < |s| - 1
    ensures |Drop(s, p)| == |s| - 1 && Drop(s, p)[a] == s[if a < p then a else a + 1]
  {
  }

  lemma DropSlots(t: seq<Slot>, now: nat, order: seq<nat>, l: seq<Pair>, p: nat, s: Slot, a: nat)
    requires Rep(t, now, order, l) && p < |l| && a < |l| - 1
    ensures order[p] < |t| && SlotIs(t[order[p] := s], Drop(order, p)[a], Drop(l, p)[a], now)
  {
    hide Drop;
    DropAt(order, p, a);
    DropAt(l, p, a);
    var b := if a < p then a else a + 1;
    assert SlotIs(t, order[p], l[p], now) && SlotIs(t, order[b], l[b], now);
    assert order[b] != order[p];
  }

  lemma DropPairs(t: seq<Slot>, now: nat, order: seq<nat>, l: seq<Pair>, p: nat, s: Slot, a: nat, b: nat)
    requires Rep(t, now, order, l) && p < |l| && a < b < |l| - 1
    ensures var o': seq<nat> := Drop<nat>(order, p);
            && order[p] < |t| && o'[a] < |t| && o'[b] < |t| && o'[a] != o'[b] && Drop(l, p)[a].key != Drop(l, p)[b].key
            && t[order[p] := s][o'[b]].tag < t[order[p] := s][o'[a]].tag
  {
    hide Drop;
    DropAt(order, p, a);
    DropAt(order, p, b);
    DropAt(l, p, a);
    DropAt(l, p, b);
    var c, d := if b < p then b else b + 1, if a < p then a else a + 1;
    assert SlotIs(t, order[p], l[p], now) && SlotIs(t, order[c], l[c], now) && SlotIs(t, order[d], l[d], now);
    assert order[c] != order[p] && order[d] != order[p];
  }

  lemma DropRest(order: seq<nat>, p: nat, j: nat)
    requires p < |order| && j in order && j != order[p]
    ensures j in Drop(order, p)
  {
    var a :| 0 <= a < |order| && order[a] == j;
    assert Drop(order, p)[if a < p then a else a - 1] == j;
  }

  /** Giving up slot order[p] drops its entry. */
  lemma RepDrop(t: seq<Slot>, now: nat, order: seq<nat>, l: seq<Pair>, p: nat, s: Slot)
    requires Rep(t, now, order, l) && p < |l| && !s.inUse
    ensures order[p] < |t| && Rep(t[order[p] := s], now, Drop(order, p), Drop(l, p))
  {
    hide Drop, SlotIs;
    RepInRange(t, now, order, l, p);
    var o': seq<nat>, l' := Drop<nat>(order, p), Drop(l, p);
    DropSize(order, p);
    DropSize(l, p);
    forall a | 0 <= a < |l'| ensures SlotIs(t[order[p] := s], o'[a], l'[a], now) {
      DropSlots(t, now, order, l, p, s, a);
    }
    forall a | 0 <= a < |o'| ensures o'[a] < |t| {
      DropSlots(t, now, order, l, p, s, a);
      SlotInRange(t[order[p] := s], o'[a], l'[a], now);
    }
    forall a, b | 0 <= a < b < |l'|
      ensures o'[a] != o'[b] && l'[a].key != l'[b].key && t[order[p] := s][o'[b]].tag < t[order[p] := s][o'[a]].tag
    {
      DropPairs(t, now, order, l, p, s, a, b);
    }
    forall j: nat | j < |t| && t[order[p] := s][j].inUse ensures j in o' {
      DropRest(order, p, j);
    }
  }

  lemma DropSize<T>(s: seq<T>, p: nat)
    requires p < |s|
    ensures |Drop(s, p)| == |s| - 1
  {
  }

  lemma SlotInRange(t: seq<Slot>, i: nat, x: Pair, now: nat)
    requires SlotIs(t, i, x, now)
    ensures i < |t|
  {
  }

  lemma RepInRange(t: seq<Slot>, now: nat, order: seq<nat>, l: seq<Pair>, p: nat)
    requires Rep(t, now, order, l) && p < |l|
    ensures order[p] < |t|
  {
    assert SlotIs(t, order[p], l[p], now);
  }

  /** Stamping slot order[p] afresh moves its entry to the front. */
  lemma RepFront(t: seq<Slot>, now: nat, order: seq<nat>, l: seq<Pair>, p: nat, x: Pair)
    requires Rep(t, now, order, l) && p < |l| && forall i | 0 <= i < |l| && i != p :: l[i].key != x.key
    ensures order[p] < |t|
    ensures Rep(t[order[p] := Slot(true, x.key, x.val, now + 1)], now + 1, [order[p]] + Drop(order, p),
        [x] + Drop(l, p))
  {
    hide Rep;
    RepAt(t, now, order, l, p);
    var i := order[p];
    var t0 := t[i := Slot(false, "", [], 0)];
    RepDrop(t, now, order, l, p, Slot(false, "", [], 0));
    RepAdd(t0, now, Drop(order, p), Drop(l, p), i, x);
    assert t0[i := Slot(true, x.key, x.val, now + 1)] == t[i := Slot(true, x.key, x.val, now + 1)];
  }

  lemma RepAt(t: seq<Slot>, now: nat, order: seq<nat>, l: seq<Pair>, p: nat)
    requires Rep(t, now, order, l) && p < |l|
    ensures |order| == |l| && SlotIs(t, order[p], l[p], now)
  {
  }

  /** In a full table the slot with the smallest tag is the last of the list. */
  lemma OldestIsLast(t: seq<Slot>, now: nat, order: seq<nat>, l: seq<Pair>)
    requires Rep(t, now, order, l) && |t| > 0 && FreeSlot(t) == |t|
    ensures |l| == |t| && Oldest(t) == order[|l| - 1]
  {
    FullOrder(t, now, order, l);
    LastIsOldest(t, now, order, l);
    Tier.OldestIs(t, order[|l| - 1]);
  }

  lemma {:induction false} LastIsOldest(t: seq<Slot>, now: nat, order: seq<nat>, l: seq<Pair>)
    requires Rep(t, now, order, l) && FreeSlot(t) == |t| == |l| > 0
    ensures order[|l| - 1] < |t| && forall j | 0 <= j < |t| && j != order[|l| - 1] :: t[order[|l| - 1]].tag < t[j].tag
  {
    hide FreeSlot;
    var e := |l| - 1;
    RepAt(t, now, order, l, e);
    forall j: nat | j < |t| && j != order[e] ensures t[order[e]].tag < t[j].tag {
      assert t[j].inUse && j in order;
      var a :| 0 <= a < |order| && order[a] == j;
    }
  }

  lemma FullOrder(t: seq<Slot>, now: nat, order: seq<nat>, l: seq<Pair>)
    requires Rep(t, now, order, l) && FreeSlot(t) == |t|
    ensures |l| == |t|
  {
    RepSize(t, now, order, l);
    forall i: nat | i < |t| ensures i in order {
      assert t[i].inUse;
    }
    assert Range(|t|) <= Elems(order);
    SubsetSize(Range(|t|), Elems(order));
    DistinctSize(order);
  }

  /** tier_get refines the move to the front. */
  lemma GetRefines(t: seq<Slot>, now: nat, order: seq<nat>, l: seq<Pair>, k: Key) returns (order': seq<nat>)
    requires Rep(t, now, order, l)
    ensures Rep(GetTable(t, now, k), if SlotOf(t, k) < |t| then now + 1 else now, order', Touch(l, k, |t|))
  {
    RepFind(t, now, order, l, k);
    RepSize(t, now, order, l);
    var p := At(l, k);
    order' := order;
    if p < |l| {
      assert SlotIs(t, order[p], l[p], now);
      RepFront(t, now, order, l, p, l[p]);
      order' := [order[p]] + Drop(order, p);
      assert Touch(l, k, |t|) == [l[p]] + Drop(l, p);
    }
  }

  /** tier_put refines the store at the front, and without memory the loss of one entry. */
  lemma PutRefines(t: seq<Slot>, now: nat, order: seq<nat>, l: seq<Pair>, k: Key, v: seq<byte>)
      returns (order': seq<nat>)
    requires Rep(t, now, order, l) && |t| > 0 && |k| <= KEY_ROOM
    ensures Rep(PutTable(t, now, k, v, true), now + 1, order', Store(l, k, v, |t|))
  {
    hide Rep;
    RepFind(t, now, order, l, k);
    RepSize(t, now, order, l);
    RepBasics(t, now, order, l);
    var p, x := At(l, k), Pair(k, v);
    if p < |l| {
      RepFront(t, now, order, l, p, x);
      order' := [order[p]] + Drop(order, p);
      assert Store(l, k, v, |t|) == [x] + Drop(l, p);
    } else if FreeSlot(t) < |t| {
      RepAdd(t, now, order, l, FreeSlot(t), x);
      order' := [FreeSlot(t)] + order;
      assert Store(l, k, v, |t|) == [x] + l;
    } else {
      OldestIsLast(t, now, order, l);
      var e := |l| - 1;
      RepFront(t, now, order, l, e, x);
      order' := [order[e]] + Drop(order, e);
      assert Store(l, k, v, |t|) == [x] + Drop(l, e);
    }
  }

  lemma RepBasics(t: seq<Slot>, now: nat, order: seq<nat>, l: seq<Pair>)
    requires Rep(t, now, order, l)
    ensures |order| == |l| && Unique(l)
  {
  }

  lemma PutLoses(t: seq<Slot>, now: nat, order: seq<nat>, l: seq<Pair>, k: Key, v: seq<byte>) returns (order': seq<nat>)
    requires Rep(t, now, order, l) && |t| > 0
    ensures Rep(PutTable(t, now, k, v, false), now, order', Lose(l, k, |t|))
  {
    hide Rep;
    RepFind(t, now, order, l, k);
    RepSize(t, now, order, l);
    RepBasics(t, now, order, l);
    var p, i := At(l, k), Place(t, k);
    var s := PutTable(t, now, k, v, false)[i];
    if p < |l| {
      RepDrop(t, now, order, l, p, s);
      order' := Drop(order, p);
    } else if FreeSlot(t) < |t| {
      RepUnused(t, now, order, l, i, s);
      order' := order;
    } else {
      OldestIsLast(t, now, order, l);
      var e := |l| - 1;
      RepDrop(t, now, order, l, e, s);
      order' := Drop(order, e);
      assert Drop(l, e) == l[..e];
    }
  }

  lemma RepUnused(t: seq<Slot>, now: nat, order: seq<nat>, l: seq<Pair>, i: nat, s: Slot)
    requires Rep(t, now, order, l) && i < |t| && !t[i].inUse && !s.inUse
    ensures Rep(t[i := s], now, order, l)
  {
    forall a | 0 <= a < |l| ensures SlotIs(t[i := s], order[a], l[a], now) && order[a] != i {
      assert SlotIs(t, order[a], l[a], now);
    }
  }

  // ----- Runs.

  datatype Tiered = Tiered(tab: seq<Slot>, clock: nat)

  function TableStep(c: Tiered, op: Op): (r: Tiered)
    requires |c.tab| > 0
    ensures |r.tab| == |c.tab|
  {
    match op
    case Get(k) => Tiered(GetTable(c.tab, c.clock, k), if SlotOf(c.tab, k) < |c.tab| then c.clock + 1 else c.clock)
    case Put(k, v) => Tiered(PutTable(c.tab, c.clock, k, v, true), c.clock + 1)
  }

  function TableRun(c: Tiered, ops: seq<Op>): (r: Tiered)
    requires |c.tab| > 0
    ensures |r.tab| == |c.tab|
  {
    if ops == [] then c else TableStep(TableRun(c, ops[..|ops| - 1]), ops[|ops| - 1])
  }

  ghost predicate ShortKeys(ops: seq<Op>) { forall i | 0 <= i < |ops| :: |ops[i].key| <= KEY_ROOM }

  /** Over every run with keys that fit, the table stays a picture of the recency list. */
  lemma {:induction false} RunRefines(c: Tiered, order: seq<nat>, l: seq<Pair>, ops: seq<Op>) returns (order': seq<nat>)
    requires |c.tab| > 0 && Rep(c.tab, c.clock, order, l) && ShortKeys(ops)
    ensures Rep(TableRun(c, ops).tab, TableRun(c, ops).clock, order', Run(l, ops, |c.tab|))
  {
    hide Rep, Touch, Store, GetTable, PutTable;
    order' := order;
    if ops != [] {
      var n := |ops| - 1;
      var mid := RunRefines(c, order, l, ops[..n]);
      var d, m := TableRun(c, ops[..n]), Run(l, ops[..n], |c.tab|);
      match ops[n] {
        case Get(k) => order' := GetRefines(d.tab, d.clock, mid, m, k);
        case Put(k, v) => order' := PutRefines(d.tab, d.clock, mid, m, k, v);
      }
    }
  }

  /** From any state of a tier: a key put and then left alone is found with its value exactly while fewer than cap other
      keys were used since. */
  lemma {:induction false} ForgetsExactly(c: Tiered, order: seq<nat>, l: seq<Pair>, k: Key, v: seq<byte>, ops: seq<Op>)
    requires |c.tab| > 0 && Rep(c.tab, c.clock, order, l) && |k| <= KEY_ROOM && ShortKeys(ops)
    requires forall i | 0 <= i < |ops| :: ops[i].key != k
    ensures var c1, l1 := TableStep(c, Put(k, v)), Store(l, k, v, |c.tab|);
            Lookup(TableRun(c1, ops).tab, k) == if |Used(l1, ops, |c.tab|)| < |c.tab| then Some(v) else None
  {
    hide Rep, PutTable, Front, Lookup;
    var c1, l1 := TableStep(c, Put(k, v)), Store(l, k, v, |c.tab|);
    RepIsGood(c.tab, c.clock, order, l);
    FrontKeepsGood(l, Pair(k, v), |c.tab|);
    var o1 := PutRefines(c.tab, c.clock, order, l, k, v);
    var o2 := RunRefines(c1, o1, l1, ops);
    RepFind(TableRun(c1, ops).tab, TableRun(c1, ops).clock, o2, Run(l1, ops, |c.tab|), k);
    FoundExactlyWhileRecent(l1, ops, |c.tab|);
  }

  lemma RepIsGood(t: seq<Slot>, now: nat, order: seq<nat>, l: seq<Pair>)
    requires Rep(t, now, order, l)
    ensures Good(l, |t|)
  {
    RepSize(t, now, order, l);
  }

  // ----- The tier itself.

  class Tier {
    const tab: array<Slot>
    var clock: nat

    ghost predicate Valid()
      reads this, tab
    {
      tab.Length > 0 && KeysFit(tab[..])
    }

    constructor (cap: nat)
      requires cap > 0
      ensures Valid() && fresh(tab) && tab.Length == cap && clock == 0
      ensures Rep(tab[..], clock, [], [])
    {
      tab := new Slot[cap](_ => Slot(false, "", [], 0));
      clock := 0;
    }

    /** kv_find. */
    method FindSlot(key: Key) returns (i: nat)
      ensures i == SlotOf(tab[..], key)
    {
      i := 0;
      while i < tab.Length
        invariant i <= tab.Length && forall j | 0 <= j < i :: !Holds(tab[j], key)
      {
        if tab[i].inUse && tab[i].key == key {
          break;
        }
        i := i + 1;
      }
      SlotOfIs(tab[..], key, i);
    }

    static lemma SlotOfIs(t: seq<Slot>, k: Key, i: nat)
      requires i <= |t| && (i < |t| ==> Holds(t[i], k)) && forall j | 0 <= j < i :: !Holds(t[j], k)
      ensures SlotOf(t, k) == i
    {
    }

    static lemma FreeSlotIs(t: seq<Slot>, i: nat)
      requires i <= |t| && (i < |t| ==> !t[i].inUse) && forall j | 0 <= j < i :: t[j].inUse
      ensures FreeSlot(t) == i
    {
    }

    static lemma OldestIs(t: seq<Slot>, i: nat)
      requires i < |t| && (forall j | 0 <= j < |t| :: t[i].tag <= t[j].tag)
          && forall j | 0 <= j < i :: t[i].tag < t[j].tag
      ensures Oldest(t) == i
    {
    }

    /** lru_evict of a full table. */
    method Evict() returns (best: nat)
      requires tab.Length > 0 && FreeSlot(tab[..]) == tab.Length
      ensures best == Oldest(tab[..])
    {
      best := 0;
      for i := 1 to tab.Length
        invariant best < i
        invariant forall j | 0 <= j < i :: tab[best].tag <= tab[j].tag
        invariant forall j | 0 <= j < best :: tab[best].tag < tab[j].tag
      {
        if tab[i].tag < tab[best].tag {
          best := i;
        }
      }
      OldestIs(tab[..], best);
    }

    method FindFree() returns (i: nat)
      ensures i == FreeSlot(tab[..])
    {
      i := 0;
      while i < tab.Length && tab[i].inUse
        invariant i <= tab.Length && forall j | 0 <= j < i :: tab[j].inUse
      {
        i := i + 1;
      }
      FreeSlotIs(tab[..], i);
    }

    /** tier_get. */
    method Get(key: Key, room: nat) returns (r: Option<seq<byte>>)
      requires Valid()
      modifies this, tab
      ensures Valid() && tab[..] == GetTable(old(tab[..]), old(clock), key)
      ensures clock == if old(SlotOf(tab[..], key)) < tab.Length then old(clock) + 1 else old(clock)
      ensures match old(Lookup(tab[..], key))
              case None => r == None
              case Some(v) => r == Some(if room < |v| then v[..room] else v)
    {
      var i := FindSlot(key);
      if i == tab.Length {
        return None;
      }
      var n := if room < |tab[i].blob| then room else |tab[i].blob|;
      r := Some(tab[i].blob[..n]);
      assert |tab[i].blob| <= room ==> tab[i].blob[..n] == tab[i].blob;
      clock := clock + 1;
      tab[i] := tab[i].(tag := clock);
    }

    /** tier_put. */
    method Put(key: Key, data: seq<byte>, memory: bool) returns (ok: bool)
      requires Valid()
      modifies this, tab
      ensures Valid() && ok == memory
      ensures tab[..] == PutTable(old(tab[..]), old(clock), key, data, memory)
      ensures clock == if memory then old(clock) + 1 else old(clock)
    {
      ok := memory;
      var i := ChooseSlot(key);
      if memory {
        clock := clock + 1;
        tab[i] := Slot(true, tab[i].key, data, clock);
      } else {
        tab[i] := tab[i].(inUse := false, blob := []);
      }
      assert forall j | 0 <= j < tab.Length && j != i :: tab[j] == old(tab[j]);
    }

    /** The entry of the key, or else a free or an evicted slot, claimed for it. */
    method ChooseSlot(key: Key) returns (i: nat)
      requires Valid()
      modifies tab
      ensures i == Place(old(tab[..]), key)
      ensures tab[i].inUse && tab[i].key == (if old(SlotOf(tab[..], key)) < tab.Length then key else Trunc(key))
      ensures tab[i].tag == old(tab[i].tag) && forall j | 0 <= j < tab.Length && j != i :: tab[j] == old(tab[j])
    {
      i := FindSlot(key);
      if i == tab.Length {
        i := FindFree();
        if i == tab.Length {
          i := Evict();
        }
        tab[i] := Slot(true, Trunc(key), [], tab[i].tag);
      }
    }
  }
}
