/** The layered neighbour graph of memory.c: its shape, what linking keeps, and what a layer search has seen. */
module HnswSpec {
  import opened Counting
  import opened Heap
  import opened TopK

  const M: nat := 16
  const M0: nat := 32
  const MAX_LEVEL: nat := 6
  const EF_CONSTRUCT: nat := 200
  const EF_SEARCH: nat := 50

  /** A node with one neighbour list for each layer. */
  datatype Node = Node(level: nat, nbrs: seq<seq<nat>>)

  /** Distances are only compared, so integers stand for them. */
  type Metric = (nat, nat) -> int
  type Query = nat -> int

  function Cap(l: nat): nat { if l == 0 then M0 else M }

  ghost predicate Shape(g: seq<Node>) {
    forall i | 0 <= i < |g| :: g[i].level < MAX_LEVEL && |g[i].nbrs| == MAX_LEVEL
  }

  /** The neighbours of node i on layer l. */
  ghost function Nbrs(g: seq<Node>, i: nat, l: nat): seq<nat>
    requires Shape(g) && i < |g| && l < MAX_LEVEL
  {
    g[i].nbrs[l]
  }

  /** An edge of layer l joins two different nodes of level at least l. */
  ghost predicate EdgeOk(g: seq<Node>, i: nat, l: nat, j: nat) {
    i < |g| && j < |g| && i != j && l <= g[i].level && l <= g[j].level
  }

  ghost predicate ListOk(g: seq<Node>, i: nat, l: nat)
    requires Shape(g) && i < |g| && l < MAX_LEVEL
  {
    var s := Nbrs(g, i, l);
    |s| <= Cap(l) && Distinct(s) && forall k | 0 <= k < |s| :: EdgeOk(g, i, l, s[k])
  }

  ghost predicate GraphOk(g: seq<Node>) {
    Shape(g) && forall i: nat, l: nat | i < |g| && l < MAX_LEVEL :: ListOk(g, i, l)
  }

  /** The entry point of the first `count` nodes has the highest level among them. */
  ghost predicate EntryOk(g: seq<Node>, count: nat, entry: nat, top: nat) {
    && count <= |g| && (count > 0 ==> entry < count && g[entry].level == top)
    && forall i | 0 <= i < count :: g[i].level <= top
  }

  // ----- Linking.

  function SetNbrs(g: seq<Node>, i: nat, l: nat, s: seq<nat>): (r: seq<Node>)
    requires i < |g| && l < |g[i].nbrs|
    ensures |r| == |g|
  {
    g[i := g[i].(nbrs := g[i].nbrs[l := s])]
  }

  /** s' is the list s of node i after hnsw_add_neighbor has offered it j. */
  ghost predicate Offered(s: seq<nat>, s': seq<nat>, i: nat, j: nat, cap: nat, d: Metric) {
    if j in s then s' == s
    else if |s| < cap then s' == s + [j]
    else exists w: nat | w < |s| :: FirstFarthest(s, i, w, d) && s' == if d(i, j) < d(i, s[w]) then s[w := j] else s
  }

  ghost predicate FirstFarthest(s: seq<nat>, i: nat, w: nat, d: Metric)
    requires w < |s|
  {
    && (forall k | 0 <= k < |s| :: d(i, s[k]) <= d(i, s[w]))
    && (forall k | 0 <= k < w :: d(i, s[k]) < d(i, s[w]))
  }

  /** An offer keeps the list sound, and nothing the list turned down is nearer than what it kept. */
  lemma OfferKeeps(s: seq<nat>, s': seq<nat>, i: nat, j: nat, cap: nat, d: Metric)
    requires Offered(s, s', i, j, cap, d) && Distinct(s) && |s| <= cap && cap > 0
    ensures Distinct(s') && |s'| <= cap && (forall x | x in s' :: x in s || x == j)
    ensures forall x, y | (x in s || x == j) && x !in s' && y in s' :: d(i, y) <= d(i, x)
    ensures j in s' || |s'| == cap
  {
    if j !in s && |s| == cap {
      var w: nat :| w < |s| && FirstFarthest(s, i, w, d) && s' == if d(i, j) < d(i, s[w]) then s[w := j] else s;
      if s' != s { assert s'[w] == j; }
      forall k | 0 <= k < |s| && k != w ensures s[k] in s' {
        assert s'[k] == s[k];
      }
    } else if j !in s {
      assert s'[|s|] == j;
      forall x | x in s ensures x in s' {
        var k :| 0 <= k < |s| && s[k] == x;
        assert s'[k] == x;
      }
    }
  }

  lemma LinkKeepsList(g: seq<Node>, i: nat, l: nat, j: nat, s': seq<nat>, d: Metric, a: nat, m: nat)
    requires GraphOk(g) && l < MAX_LEVEL && EdgeOk(g, i, l, j) && Offered(Nbrs(g, i, l), s', i, j, Cap(l), d)
    requires a < |g| && m < MAX_LEVEL && Shape(SetNbrs(g, i, l, s'))
    ensures ListOk(SetNbrs(g, i, l, s'), a, m)
  {
    var g' := SetNbrs(g, i, l, s');
    assert ListOk(g, a, m);
    if a == i && m == l {
      hide Offered;
      OfferKeeps(Nbrs(g, i, l), s', i, j, Cap(l), d);
      forall k | 0 <= k < |s'| ensures EdgeOk(g', i, l, s'[k]) {
        assert s'[k] in s';
        if s'[k] != j {
          assert s'[k] in Nbrs(g, i, l);
        }
      }
      assert Nbrs(g', a, m) == s';
    } else {
      assert Nbrs(g', a, m) == Nbrs(g, a, m);
      forall k | 0 <= k < |Nbrs(g, a, m)| ensures EdgeOk(g', a, m, Nbrs(g, a, m)[k]) {
        assert EdgeOk(g, a, m, Nbrs(g, a, m)[k]);
      }
    }
  }

  /** hnsw_add_neighbor keeps the graph sound. */
  lemma LinkKeeps(g: seq<Node>, i: nat, l: nat, j: nat, s': seq<nat>, d: Metric)
    requires GraphOk(g) && l < MAX_LEVEL && EdgeOk(g, i, l, j) && Offered(Nbrs(g, i, l), s', i, j, Cap(l), d)
    ensures GraphOk(SetNbrs(g, i, l, s'))
  {
    hide Offered;
    var g' := SetNbrs(g, i, l, s');
    assert Shape(g');
    forall a: nat, m: nat | a < |g'| && m < MAX_LEVEL ensures ListOk(g', a, m) {
      LinkKeepsList(g, i, l, j, s', d, a, m);
    }
  }

  function Bare(level: nat): Node { Node(level, seq(MAX_LEVEL, _ => [])) }

  /** A new node without edges keeps the graph sound. */
  lemma AddBareKeeps(g: seq<Node>, level: nat)
    requires GraphOk(g) && level < MAX_LEVEL
    ensures GraphOk(g + [Bare(level)])
  {
    var g' := g + [Bare(level)];
    assert Shape(g');
    forall a: nat, m: nat | a < |g'| && m < MAX_LEVEL ensures ListOk(g', a, m) {
      if a < |g| {
        assert ListOk(g, a, m);
        var s := Nbrs(g, a, m);
        assert Nbrs(g', a, m) == s;
        forall k | 0 <= k < |s| ensures EdgeOk(g', a, m, s[k]) {
          assert EdgeOk(g, a, m, s[k]);
        }
      } else {
        assert Nbrs(g', a, m) == [];
      }
    }
  }

  // ----- Descent.

  /** No neighbour of v on layer l is strictly nearer. */
  ghost predicate LocalMin(g: seq<Node>, q: Query, count: nat, v: nat, l: nat)
    requires Shape(g) && v < |g| && l < MAX_LEVEL
  {
    forall k | 0 <= k < |Nbrs(g, v, l)| && Nbrs(g, v, l)[k] < count :: q(v) <= q(Nbrs(g, v, l)[k])
  }

  ghost function Nearer(q: Query, count: nat, x: int): set<nat> {
    set v | v in Range(count) && q(v) < x
  }

  /** Every step of the descent leaves fewer nodes that are nearer still. */
  lemma NearerShrinks(q: Query, count: nat, v: nat, x: int)
    requires v < count && q(v) < x
    ensures |Nearer(q, count, q(v))| < |Nearer(q, count, x)|
  {
    assert v in Nearer(q, count, x);
    assert Nearer(q, count, q(v)) <= Nearer(q, count, x) - {v};
    SubsetSize(Nearer(q, count, q(v)), Nearer(q, count, x) - {v});
  }

  // ----- What a layer search has seen.

  /** The visited nodes with their distances. */
  ghost function Items(vs: seq<nat>, q: Query): (m: multiset<Item>)
    ensures |m| == |vs|
  {
    if vs == [] then multiset{} else Items(vs[..|vs| - 1], q) + multiset{Item(vs[|vs| - 1], q(vs[|vs| - 1]))}
  }

  lemma {:induction false} ItemsAre(vs: seq<nat>, q: Query, x: Item)
    ensures x in Items(vs, q) <==> x.id in vs && x.dist == q(x.id)
  {
    if vs != [] {
      var n := |vs| - 1;
      ItemsAre(vs[..n], q, x);
      assert vs == vs[..n] + [vs[n]];
    }
  }

  lemma ItemsSnoc(vs: seq<nat>, q: Query, v: nat)
    ensures Items(vs + [v], q) == Items(vs, q) + multiset{Item(v, q(v))}
  {
    assert (vs + [v])[..|vs|] == vs;
  }

  lemma {:induction false} ItemsOnce(vs: seq<nat>, q: Query, x: Item)
    requires Distinct(vs)
    ensures Items(vs, q)[x] <= 1
  {
    if vs != [] {
      var n := |vs| - 1;
      ItemsOnce(vs[..n], q, x);
      ItemsAre(vs[..n], q, Item(vs[n], q(vs[n])));
    }
  }

  lemma TwiceCounted(s: seq<Item>, i: nat, j: nat)
    requires i < j < |s| && s[i] == s[j]
    ensures multiset(s)[s[i]] >= 2
  {
    var x := s[i];
    assert s == s[..j] + [x] + s[j + 1..];
    assert x == s[..j][i];
    assert x in multiset(s[..j]);
  }

  function Ids(items: seq<Item>): (r: seq<nat>)
    ensures |r| == |items| && forall k | 0 <= k < |r| :: r[k] == items[k].id
  {
    seq(|items|, k requires 0 <= k < |items| => items[k].id)
  }

  /** Items of different nodes name each node once. */
  lemma PartOfItems(vs: seq<nat>, q: Query, s: seq<Item>)
    requires Distinct(vs) && multiset(s) <= Items(vs, q)
    ensures Distinct(Ids(s)) && forall i | 0 <= i < |s| :: s[i].id in vs && s[i].dist == q(s[i].id)
  {
    forall i | 0 <= i < |s| ensures s[i].id in vs && s[i].dist == q(s[i].id) {
      assert s[i] in multiset(s);
      ItemsAre(vs, q, s[i]);
    }
    forall i, j | 0 <= i < j < |s| ensures s[i].id != s[j].id {
      if s[i].id == s[j].id {
        TwiceCounted(s, i, j);
        ItemsOnce(vs, q, s[i]);
      }
    }
  }

  /** What a search returns are different visited nodes with their own distances. */
  lemma ResultsAreVisited(vs: seq<nat>, q: Query, s: seq<Item>, k: nat)
    requires Distinct(vs) && Best(Items(vs, q), s, k, true)
    ensures Distinct(Ids(s)) && forall i | 0 <= i < |s| :: s[i].id in vs && s[i].dist == q(s[i].id)
  {
    PartOfItems(vs, q, s);
  }

  ghost predicate Reached(g: seq<Node>, l: nat, vs: seq<nat>, k: nat)
    requires Shape(g) && l < MAX_LEVEL && k < |vs| && forall j | 0 <= j < |vs| :: vs[j] < |g|
  {
    exists j | 0 <= j < k :: vs[k] in Nbrs(g, vs[j], l)
  }

  /** A search trail on layer l: distinct nodes of that layer, each but the first a neighbour of an earlier one. */
  ghost predicate Trail(g: seq<Node>, l: nat, count: nat, vs: seq<nat>)
    requires Shape(g) && l < MAX_LEVEL && count <= |g|
  {
    && Distinct(vs) && |vs| > 0
    && (forall j | 0 <= j < |vs| :: vs[j] < count && l <= g[vs[j]].level)
    && forall k: nat | 1 <= k < |vs| :: Reached(g, l, vs, k)
  }

  lemma TrailGrows(g: seq<Node>, l: nat, count: nat, vs: seq<nat>, from: nat, v: nat)
    requires GraphOk(g) && l < MAX_LEVEL && count <= |g| && Trail(g, l, count, vs)
    requires from in vs && from < |g| && v in Nbrs(g, from, l) && v < count && v !in vs
    ensures Trail(g, l, count, vs + [v])
  {
    var ws := vs + [v];
    assert ListOk(g, from, l);
    var m :| 0 <= m < |Nbrs(g, from, l)| && Nbrs(g, from, l)[m] == v;
    assert EdgeOk(g, from, l, v);
    assert forall j | 0 <= j < |ws| :: ws[j] < count && l <= g[ws[j]].level;
    forall k: nat | 1 <= k < |ws| ensures Reached(g, l, ws, k) {
      if k < |vs| {
        assert Reached(g, l, vs, k);
        var j :| 0 <= j < k && vs[k] in Nbrs(g, vs[j], l);
        assert ws[k] in Nbrs(g, ws[j], l);
      } else {
        var j :| 0 <= j < |vs| && vs[j] == from;
        assert ws[k] in Nbrs(g, ws[j], l);
      }
    }
  }

  /** Every neighbour of v on layer l has been visited. */
  ghost predicate Explored(g: seq<Node>, l: nat, count: nat, vs: seq<nat>, v: nat, upto: nat)
    requires Shape(g) && l < MAX_LEVEL && v < |g| && upto <= |Nbrs(g, v, l)|
  {
    forall k | 0 <= k < upto && Nbrs(g, v, l)[k] < count :: Nbrs(g, v, l)[k] in vs
  }

  /** All the kept nodes have been explored: what a finished search guarantees. */
  ghost predicate Closed(g: seq<Node>, l: nat, count: nat, vs: seq<nat>, kept: seq<Item>)
    requires Shape(g) && l < MAX_LEVEL
  {
    forall r | r in kept :: r.id < |g| && Explored(g, l, count, vs, r.id, |Nbrs(g, r.id, l)|)
  }

  /** A kept node's neighbour that was not returned is no nearer than anything returned. */
  lemma ClosedMeansNoNearerNeighbour(g: seq<Node>, l: nat, count: nat, vs: seq<nat>, q: Query, kept: seq<Item>, k: nat,
                                     r: Item, v: nat, y: Item)
    requires Shape(g) && l < MAX_LEVEL && Closed(g, l, count, vs, kept) && Best(Items(vs, q), kept, k, true)
    requires r in kept && r.id < |g| && v in Nbrs(g, r.id, l) && v < count && y in kept
    ensures Item(v, q(v)) in kept || y.dist <= q(v)
  {
    var m :| 0 <= m < |Nbrs(g, r.id, l)| && Nbrs(g, r.id, l)[m] == v;
    var x := Item(v, q(v));
    ItemsAre(vs, q, x);
    if x !in kept {
      assert x in Items(vs, q) - multiset(kept);
      assert y in multiset(kept);
      assert Key(y, true) <= Key(x, true);
    }
  }
}
