/** The recency list an LRU cache tier stands for, and when it forgets a key. */
module LruSpec {
  import opened Bytes
  import opened Counting

  type Key = string

  datatype Pair = Pair(key: Key, val: seq<byte>)

  /** Most recently used first; no key twice. */
  ghost predicate Unique(l: seq<Pair>) {
    forall i, j | 0 <= i < j < |l| :: l[i].key != l[j].key
  }

  /** The position of k, or the length of the list. */
  function At(l: seq<Pair>, k: Key): (r: nat)
    ensures r <= |l| && (r < |l| ==> l[r].key == k)
    ensures forall i | 0 <= i < r :: l[i].key != k
  {
    if l == [] || l[0].key == k then 0 else 1 + At(l[1..], k)
  }

  function Find(l: seq<Pair>, k: Key): Option<seq<byte>> {
    if At(l, k) < |l| then Some(l[At(l, k)].val) else None
  }

  function Drop<T>(s: seq<T>, p: nat): seq<T>
    requires p < |s|
  {
    s[..p] + s[p + 1..]
  }

  function Without(l: seq<Pair>, k: Key): seq<Pair> {
    if At(l, k) < |l| then Drop(l, At(l, k)) else l
  }

  /** The entry goes to the front, its old version leaves, and the last entry falls out of a full list. */
  function Front(l: seq<Pair>, x: Pair, cap: nat): seq<Pair> {
    Take([x] + Without(l, x.key), cap)
  }

  /** A hit moves the key to the front. */
  function Touch(l: seq<Pair>, k: Key, cap: nat): seq<Pair> {
    if At(l, k) < |l| then Front(l, l[At(l, k)], cap) else l
  }

  /** A put moves or adds the key to the front. */
  function Store(l: seq<Pair>, k: Key, v: seq<byte>, cap: nat): seq<Pair> {
    Front(l, Pair(k, v), cap)
  }

  /** A put that cannot get memory has already given up the slot it was going to use. */
  function Lose(l: seq<Pair>, k: Key, cap: nat): seq<Pair> {
    if At(l, k) < |l| then Without(l, k) else if |l| >= cap > 0 then l[..|l| - 1] else l
  }

  datatype Op = Get(key: Key) | Put(key: Key, val: seq<byte>)

  function Step(l: seq<Pair>, op: Op, cap: nat): seq<Pair> {
    match op
    case Get(k) => Touch(l, k, cap)
    case Put(k, v) => Store(l, k, v, cap)
  }

  function Run(l: seq<Pair>, ops: seq<Op>, cap: nat): seq<Pair> {
    if ops == [] then l else Step(Run(l, ops[..|ops| - 1], cap), ops[|ops| - 1], cap)
  }

  /** An operation uses its key when it puts it or finds it. */
  predicate Uses(l: seq<Pair>, op: Op) {
    op.Put? || At(l, op.key) < |l|
  }

  /** The keys a run uses. */
  function Used(l: seq<Pair>, ops: seq<Op>, cap: nat): set<Key> {
    if ops == [] then {}
    else
      var n := |ops| - 1;
      Used(l, ops[..n], cap) + if Uses(Run(l, ops[..n], cap), ops[n]) then {ops[n].key} else {}
  }

  ghost predicate Good(l: seq<Pair>, cap: nat) { Unique(l) && |l| <= cap }

  lemma UniqueAt(l: seq<Pair>, i: nat)
    requires Unique(l) && i < |l|
    ensures At(l, l[i].key) == i
  {
  }

  /** Where everything is after one entry went to the front. */
  lemma FrontPlaces(l: seq<Pair>, x: Pair, cap: nat, i: nat)
    requires Good(l, cap) && cap > 0 && i < |l| && l[i].key != x.key
    ensures var r, p := Front(l, x, cap), if i < At(l, x.key) then i + 1 else i;
            if p < cap then p < |r| && r[p] == l[i] else i == |l| - 1 && At(l, x.key) == |l|
  {
    hide At;
  }

  lemma {:induction false} FrontSources(l: seq<Pair>, x: Pair, cap: nat, p: nat)
    requires Good(l, cap) && cap > 0 && 1 <= p < |Front(l, x, cap)|
    ensures var i := if p <= At(l, x.key) then p - 1 else p;
            i < |l| && Front(l, x, cap)[p] == l[i] && l[i].key != x.key
  {
  }

  lemma FrontKeepsGood(l: seq<Pair>, x: Pair, cap: nat)
    requires Good(l, cap) && cap > 0
    ensures Good(Front(l, x, cap), cap) && |Front(l, x, cap)| > 0 && Front(l, x, cap)[0] == x
  {
    var r := Front(l, x, cap);
    assert r[0] == x;
    forall a, b | 0 <= a < b < |r| ensures r[a].key != r[b].key {
      FrontSources(l, x, cap, b);
      if a > 0 { FrontSources(l, x, cap, a); }
    }
  }

  lemma StepKeepsGood(l: seq<Pair>, op: Op, cap: nat)
    requires Good(l, cap) && cap > 0
    ensures Good(Step(l, op, cap), cap)
  {
    hide Front, Good;
    if op.Put? { FrontKeepsGood(l, Pair(op.key, op.val), cap); }
    else if At(l, op.key) < |l| { FrontKeepsGood(l, l[At(l, op.key)], cap); }
  }

  lemma {:induction false} RunKeepsGood(l: seq<Pair>, ops: seq<Op>, cap: nat)
    requires Good(l, cap) && cap > 0
    ensures Good(Run(l, ops, cap), cap)
  {
    if ops != [] {
      RunKeepsGood(l, ops[..|ops| - 1], cap);
      StepKeepsGood(Run(l, ops[..|ops| - 1], cap), ops[|ops| - 1], cap);
    }
  }

  /** x sits behind exactly the keys of s. */
  ghost predicate Behind(l: seq<Pair>, x: Pair, s: set<Key>) {
    && |s| < |l| && l[|s|] == x
    && (forall i | 0 <= i < |s| :: l[i].key in s)
    && (forall k | k in s :: At(l, k) < |s|)
  }

  /** Where x is after a run that did not use its key and used exactly the keys of s. */
  ghost predicate Aged(l: seq<Pair>, x: Pair, s: set<Key>, cap: nat) {
    if |s| < cap then Behind(l, x, s) else At(l, x.key) == |l|
  }

  /** A key already in front of x is used again. */
  lemma UsedAgain(l: seq<Pair>, x: Pair, s: set<Key>, y: Pair, cap: nat)
    requires Good(l, cap) && Behind(l, x, s) && y.key in s && y.key != x.key
    ensures Behind(Front(l, y, cap), x, s)
  {
    hide Front, At;
    var r, p := Front(l, y, cap), |s|;
    FrontKeepsGood(l, y, cap);
    FrontPlaces(l, y, cap, p);
    forall i | 0 <= i < p ensures r[i].key in s {
      if i > 0 { FrontSources(l, y, cap, i); }
    }
    forall k | k in s ensures At(r, k) < p {
      if k == y.key {
        UniqueAt(r, 0);
      } else {
        var a := At(l, k);
        FrontPlaces(l, y, cap, a);
        UniqueAt(r, if a < At(l, y.key) then a + 1 else a);
      }
    }
  }

  /** A key from behind x, or a new one, comes to the front and x has room to step back. */
  lemma StepsBack(l: seq<Pair>, x: Pair, s: set<Key>, y: Pair, cap: nat)
    requires Good(l, cap) && Behind(l, x, s) && y.key !in s && y.key != x.key && |s| + 1 < cap
    ensures Behind(Front(l, y, cap), x, s + {y.key})
  {
    hide Front, At;
    var r, p := Front(l, y, cap), |s|;
    var s' := s + {y.key};
    assert |s'| == p + 1;
    FrontKeepsGood(l, y, cap);
    var j := At(l, y.key);
    assert j > p;
    FrontPlaces(l, y, cap, p);
    forall i | 0 <= i < p + 1 ensures r[i].key in s' {
      if i > 0 { FrontSources(l, y, cap, i); }
    }
    forall k | k in s' ensures At(r, k) < p + 1 {
      if k == y.key {
        UniqueAt(r, 0);
      } else {
        var a := At(l, k);
        FrontPlaces(l, y, cap, a);
        UniqueAt(r, a + 1);
      }
    }
  }

  /** With cap - 1 keys in front of it x is the last of a full list, and a new key pushes it out. */
  lemma FallsOut(l: seq<Pair>, x: Pair, s: set<Key>, y: Pair, cap: nat)
    requires Good(l, cap) && Behind(l, x, s) && |s| + 1 == cap && y.key !in s && y.key != x.key
    ensures At(Front(l, y, cap), x.key) == |Front(l, y, cap)|
  {
    var r := Front(l, y, cap);
    FrontKeepsGood(l, y, cap);
    forall p | 0 <= p < |r| ensures r[p].key != x.key {
      if p > 0 { FrontSources(l, y, cap, p); }
    }
  }

  lemma StillGone(l: seq<Pair>, x: Pair, y: Pair, cap: nat)
    requires Good(l, cap) && cap > 0 && At(l, x.key) == |l| && y.key != x.key
    ensures At(Front(l, y, cap), x.key) == |Front(l, y, cap)|
  {
    var r := Front(l, y, cap);
    FrontKeepsGood(l, y, cap);
    forall p | 0 <= p < |r| ensures r[p].key != x.key {
      if p > 0 { FrontSources(l, y, cap, p); }
    }
  }

  lemma AgeUse(l: seq<Pair>, x: Pair, s: set<Key>, y: Pair, cap: nat)
    requires Good(l, cap) && Aged(l, x, s, cap) && y.key != x.key && cap > 0
    ensures Aged(Front(l, y, cap), x, s + {y.key}, cap)
  {
    hide Front, Behind, Good;
    if y.key in s { assert s + {y.key} == s; }
    if |s| >= cap {
      SubsetSize(s, s + {y.key});
      StillGone(l, x, y, cap);
    } else if y.key in s {
      UsedAgain(l, x, s, y, cap);
    } else if |s| + 1 < cap {
      StepsBack(l, x, s, y, cap);
    } else {
      FallsOut(l, x, s, y, cap);
    }
  }

  /** One operation on another key. */
  lemma AgeStep(l: seq<Pair>, x: Pair, s: set<Key>, op: Op, cap: nat)
    requires Good(l, cap) && Aged(l, x, s, cap) && op.key != x.key && cap > 0
    ensures Aged(Step(l, op, cap), x, s + (if Uses(l, op) then {op.key} else {}), cap)
  {
    hide Front, Aged;
    if !Uses(l, op) {
      assert s + {} == s;
    } else if op.Put? {
      AgeUse(l, x, s, Pair(op.key, op.val), cap);
    } else {
      AgeUse(l, x, s, l[At(l, op.key)], cap);
    }
  }

  /** After a run on other keys, the front entry sits behind exactly the keys the run used, or is gone. */
  lemma {:induction false} Ages(l: seq<Pair>, ops: seq<Op>, cap: nat)
    requires Good(l, cap) && l != [] && forall i | 0 <= i < |ops| :: ops[i].key != l[0].key
    ensures Aged(Run(l, ops, cap), l[0], Used(l, ops, cap), cap)
  {
    hide Step, Aged, Good;
    GoodCap(l, cap);
    if ops == [] {
      StartAged(l, cap);
    } else {
      var n := |ops| - 1;
      Ages(l, ops[..n], cap);
      RunKeepsGood(l, ops[..n], cap);
      AgeStep(Run(l, ops[..n], cap), l[0], Used(l, ops[..n], cap), ops[n], cap);
    }
  }

  lemma StartAged(l: seq<Pair>, cap: nat)
    requires l != [] && cap > 0
    ensures Aged(l, l[0], {}, cap)
  {
  }

  lemma GoodCap(l: seq<Pair>, cap: nat)
    requires Good(l, cap) && l != []
    ensures cap > 0
  {
  }

  /** A key at the front of the list is found after a run on other keys exactly when the run used fewer than cap. */
  lemma {:induction false} FoundExactlyWhileRecent(l: seq<Pair>, ops: seq<Op>, cap: nat)
    requires Good(l, cap) && l != [] && forall i | 0 <= i < |ops| :: ops[i].key != l[0].key
    ensures Find(Run(l, ops, cap), l[0].key) == if |Used(l, ops, cap)| < cap then Some(l[0].val) else None
  {
    Ages(l, ops, cap);
    RunKeepsGood(l, ops, cap);
    var s := Used(l, ops, cap);
    if |s| < cap { UniqueAt(Run(l, ops, cap), |s|); }
  }
}
