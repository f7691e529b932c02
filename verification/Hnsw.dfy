/** Building and searching the layered neighbour graph of memory.c. */
module Hnsw {
  import opened Counting
  import opened Heap
  import opened TopK
  import opened HnswSpec
  import opened HnswRun
  import opened HnswSearch

  // ----- From a layer search to links.

  lemma SplitAt(s: seq<Item>, m: nat)
    requires m <= |s|
    ensures multiset(s) == multiset(s[..m]) + multiset(s[m..])
  {
    assert s == s[..m] + s[m..];
  }

  lemma RestOf(cands: multiset<Item>, a: multiset<Item>, b: multiset<Item>, x: Item)
    requires a + b <= cands && x in cands - a
    ensures x in b || x in cands - (a + b)
  {
  }

  /** The first c of the sorted results are the c best. */
  lemma BestPrefix(cands: multiset<Item>, s: seq<Item>, ef: nat, c: nat)
    requires Best(cands, s, ef, true) && c <= ef && FrontSorted(s, Min(|s|, c))
    ensures Best(cands, s[..Min(|s|, c)], c, true) && Sorted(s[..Min(|s|, c)], true)
  {
    var m := Min(|s|, c);
    SplitAt(s, m);
    var p := s[..m];
    forall x, y | x in cands - multiset(p) && y in multiset(p) ensures Key(y, true) <= Key(x, true) {
      RestOf(cands, multiset(p), multiset(s[m..]), x);
      PrefixBefore(s, m, x, y);
      assert y in multiset(s);
    }
  }

  /** The same after the results were put in order. */
  lemma TopOf(cands: multiset<Item>, raw: seq<Item>, s: seq<Item>, ef: nat, c: nat)
    requires Best(cands, raw, ef, true) && multiset(s) == multiset(raw) && c <= ef && FrontSorted(s, Min(|s|, c))
    ensures Best(cands, s[..Min(|s|, c)], c, true) && Sorted(s[..Min(|s|, c)], true)
  {
    hide Best, Sorted, FrontSorted;
    BestOfPermutation(cands, raw, s, ef, ef, true);
    BestPrefix(cands, s, ef, c);
  }

  lemma PrefixBefore(s: seq<Item>, m: nat, x: Item, y: Item)
    requires y in multiset(s[..Min(m, |s|)]) && FrontSorted(s, m)
    ensures x in multiset(s[m..]) ==> y.dist <= x.dist
  {
    assert y in s[..m];
    if x in multiset(s[m..]) {
      assert x in s[m..];
    }
  }

  /** The links name the Cap(m) nearest of the nodes that the search of layer m of g0 from `start` visits, nearest
      first. */
  ghost predicate LinkedTo(g0: seq<Node>, count: nat, q: Query, links: seq<nat>, m: nat, start: nat, xs: seq<nat>,
      vs: seq<nat>, items: seq<Item>)
    requires Shape(g0) && m < MAX_LEVEL && count <= |g0|
  {
    && links == Ids(items) && items != [] && SearchRun(g0, m, count, start, q, EF_CONSTRUCT, xs, vs)
    && Best(Items(vs, q), items, Cap(m), true) && Sorted(items, true)
  }

  ghost predicate LinkedToNearest(g0: seq<Node>, count: nat, q: Query, links: seq<nat>, m: nat, start: nat)
    requires Shape(g0) && m < MAX_LEVEL && count <= |g0|
  {
    exists xs, vs, items :: LinkedTo(g0, count, q, links, m, start, xs, vs, items)
  }

  /** The lists of the nodes below id on layer l: those that id links to have been offered id, the others are as they
      were. */
  ghost predicate ListsOffered(g0: seq<Node>, g: seq<Node>, d: Metric, id: nat, l: nat, links: seq<nat>)
    requires Shape(g0) && Shape(g) && |g0| == |g| && id <= |g| && l < MAX_LEVEL
  {
    forall a: nat | a < id ::
      if a in links then Offered(Nbrs(g0, a, l), Nbrs(g, a, l), a, id, Cap(l), d) else Nbrs(g, a, l) == Nbrs(g0, a, l)
  }

  /** Node i has an edge to j unless its list is full of nodes at least as near. */
  ghost predicate LinksBack(g: seq<Node>, d: Metric, i: nat, j: nat, l: nat)
    requires Shape(g) && i < |g| && l < MAX_LEVEL
  {
    var s := Nbrs(g, i, l);
    j in s || (|s| == Cap(l) && forall x | x in s :: d(i, x) <= d(i, j))
  }

  ghost predicate SameLevels(g: seq<Node>, g': seq<Node>) {
    |g| == |g'| && forall i | 0 <= i < |g| :: g[i].level == g'[i].level
  }

  lemma SameNbrs(g: seq<Node>, g': seq<Node>, m: nat, i: nat)
    requires Shape(g) && Shape(g') && |g| == |g'| && m < MAX_LEVEL && SameLayer(g, g', m) && i < |g|
    ensures Nbrs(g, i, m) == Nbrs(g', i, m)
  {
  }

  lemma SameLayerAsItself(g: seq<Node>)
    requires Shape(g)
    ensures forall m: nat | m < MAX_LEVEL :: SameLayer(g, g, m)
  {
  }

  lemma SameLayerTrans(a: seq<Node>, b: seq<Node>, c: seq<Node>, m: nat)
    requires Shape(a) && Shape(b) && Shape(c) && |a| == |b| == |c| && m < MAX_LEVEL
    requires SameLayer(a, b, m) && SameLayer(b, c, m)
    ensures SameLayer(a, c, m)
  {
    forall i: nat | i < |a| ensures Nbrs(a, i, m) == Nbrs(c, i, m) {
      assert Nbrs(a, i, m) == Nbrs(b, i, m);
    }
  }

  /** The greedy walk of one layer: it stops at a node none of whose neighbours is nearer. */
  method Descend(g: seq<Node>, count: nat, q: Query, start: nat, l: nat) returns (cur: nat)
    requires GraphOk(g) && l < MAX_LEVEL && start < count <= |g| && l <= g[start].level
    ensures cur < count && l <= g[cur].level && q(cur) <= q(start)
    ensures Shape(g) && WalksTo(g, l, count, q, start, cur)
  {
    hide GreedyStep;
    cur := start;
    var improved := true;
    ghost var ps := [start];
    while improved
      invariant cur < count && l <= g[cur].level && q(cur) <= q(start)
      invariant !improved ==> LocalMin(g, q, count, cur, l)
      invariant GreedyWalk(g, l, count, q, ps) && ps[0] == start && ps[|ps| - 1] == cur
      decreases if improved then |Nearer(q, count, q(cur))| + 1 else 0
    {
      var base := cur;
      cur, improved := NearestOf(g, count, q, base, l);
      if improved {
        NearerShrinks(q, count, cur, q(base));
        ps := ps + [cur];
      }
    }
  }

  /** One pass over the neighbours of base: the first nearest one, if it is nearer than base. */
  method NearestOf(g: seq<Node>, count: nat, q: Query, base: nat, l: nat) returns (cur: nat, improved: bool)
    requires GraphOk(g) && l < MAX_LEVEL && base < count <= |g| && l <= g[base].level
    ensures cur < count && l <= g[cur].level
    ensures if improved then GreedyStep(g, l, count, q, base, cur) && q(cur) < q(base)
            else cur == base && LocalMin(g, q, count, base, l)
  {
    cur, improved := base, false;
    var curDist := q(base);
    var ns := g[base].nbrs[l];
    assert ListOk(g, base, l);
    ghost var at: nat := 0;
    for ni := 0 to |ns|
      invariant cur < count && l <= g[cur].level && curDist == q(cur) <= q(base)
      invariant if improved then at < ni && ns[at] == cur && q(cur) < q(base) else cur == base
      invariant forall k | 0 <= k < ni && ns[k] < count ::
                  curDist <= q(ns[k]) && (improved && k < at ==> curDist < q(ns[k]))
    {
      assert EdgeOk(g, base, l, ns[ni]);
      if ns[ni] < count && q(ns[ni]) < curDist {
        cur, curDist, improved, at := ns[ni], q(ns[ni]), true, ni;
      }
    }
    if improved { assert NearestNbr(g, l, count, q, base, at); }
  }

  /** The greedy walks of the layers from `top` down to the one above `stop`. */
  method DescendTo(g: seq<Node>, count: nat, q: Query, start: nat, top: nat, stop: nat) returns (cur: nat)
    requires GraphOk(g) && start < count <= |g| && g[start].level == top
    ensures cur < count && q(cur) <= q(start) && Min(top, stop) <= g[cur].level < MAX_LEVEL
    ensures Shape(g) && top < MAX_LEVEL && DescendsTo(g, count, q, start, top, stop, cur)
    ensures stop < top ==> LocalMin(g, q, count, cur, stop + 1)
  {
    hide WalksTo, GraphOk, LocalMin;
    Graph.ShapeOf(g);
    cur := start;
    var l := top;
    ghost var cs := [start];
    while l > stop
      invariant Min(top, stop) <= l <= top < MAX_LEVEL && cur < count && l <= g[cur].level && q(cur) <= q(start)
      invariant l == stop < top ==> LocalMin(g, q, count, cur, stop + 1)
      invariant |cs| == 1 + top - l && Descent(g, count, q, top, cs) && cs[0] == start && cs[|cs| - 1] == cur
    {
      cur := Descend(g, count, q, cur, l);
      WalkEnds(g, l, count, q, cs[|cs| - 1], cur);
      cs := cs + [cur];
      l := l - 1;
    }
  }

  lemma WalkEnds(g: seq<Node>, l: nat, count: nat, q: Query, a: nat, b: nat)
    requires Shape(g) && l < MAX_LEVEL && WalksTo(g, l, count, q, a, b)
    ensures b < |g| && LocalMin(g, q, count, b, l)
  {
  }

  class Graph {
    const capacity: nat
    const dist: Metric
    var nodes: seq<Node>
    var count: nat
    var entry: nat
    var top: nat

    ghost predicate Valid()
      reads this
    {
      count == |nodes| <= capacity && GraphOk(nodes) && EntryOk(nodes, count, entry, top)
    }

    constructor (capacity: nat, dist: Metric)
      ensures Valid() && count == 0 && this.capacity == capacity && this.dist == dist
    {
      this.capacity, this.dist := capacity, dist;
      nodes, count, entry, top := [], 0, 0, 0;
    }

    method FarthestOf(s: seq<nat>, i: nat) returns (w: nat)
      requires |s| > 0
      ensures w < |s| && FirstFarthest(s, i, w, dist)
    {
      w := 0;
      for k := 1 to |s|
        invariant w < k
        invariant forall a | 0 <= a < k :: dist(i, s[a]) <= dist(i, s[w])
        invariant forall a | 0 <= a < w :: dist(i, s[a]) < dist(i, s[w])
      {
        if dist(i, s[k]) > dist(i, s[w]) { w := k; }
      }
    }

    method OfferTo(s: seq<nat>, i: nat, j: nat, cap: nat) returns (after: seq<nat>)
      requires |s| <= cap && cap > 0
      ensures Offered(s, after, i, j, cap, dist)
    {
      for k := 0 to |s|
        invariant j !in s[..k]
      {
        if s[k] == j { return s; }
      }
      assert s[..|s|] == s;
      if |s| < cap {
        after := s + [j];
      } else {
        var w := FarthestOf(s, i);
        after := if dist(i, j) < dist(i, s[w]) then s[w := j] else s;
      }
    }

    /** hnsw_add_neighbor. */
    method AddNeighbor(i: nat, j: nat, l: nat) returns (ghost after: seq<nat>)
      requires GraphOk(nodes) && l < MAX_LEVEL && EdgeOk(nodes, i, l, j)
      modifies this`nodes
      ensures Offered(old(nodes[i].nbrs[l]), after, i, j, Cap(l), dist)
      ensures nodes == SetNbrs(old(nodes), i, l, after) && GraphOk(nodes)
    {
      hide Offered;
      assert ListOk(nodes, i, l);
      var s := OfferTo(nodes[i].nbrs[l], i, j, Cap(l));
      LinkKeeps(nodes, i, l, j, s, dist);
      nodes := SetNbrs(nodes, i, l, s);
      after := s;
    }

    /** The new node and one chosen neighbour are linked both ways. */
    method LinkPair(id: nat, j: nat, l: nat)
      requires GraphOk(nodes) && l < MAX_LEVEL && EdgeOk(nodes, id, l, j)
      requires j !in Nbrs(nodes, id, l) && |Nbrs(nodes, id, l)| < Cap(l)
      modifies this`nodes
      ensures GraphOk(nodes) && SameLevels(old(nodes), nodes)
      ensures Nbrs(nodes, id, l) == old(nodes[id].nbrs[l]) + [j]
      ensures Offered(old(nodes[j].nbrs[l]), Nbrs(nodes, j, l), j, id, Cap(l), dist)
      ensures forall a: nat | a < |nodes| && a != id && a != j :: nodes[a] == old(nodes)[a]
      ensures forall m: nat | m < MAX_LEVEL && m != l :: SameLayer(old(nodes), nodes, m)
    {
      ghost var a := AddNeighbor(id, j, l);
      ghost var b := AddNeighbor(j, id, l);
      hide Offered;
    }

    /** The new node is linked both ways with the chosen neighbours. */
    method Connect(items: seq<Item>, id: nat, l: nat)
      requires GraphOk(nodes) && l < MAX_LEVEL && |nodes| == id + 1 && Nbrs(nodes, id, l) == []
      requires |items| <= Cap(l) && Distinct(Ids(items))
      requires forall k | 0 <= k < |items| :: EdgeOk(nodes, id, l, items[k].id)
      modifies this`nodes
      ensures GraphOk(nodes) && SameLevels(old(nodes), nodes)
      ensures Nbrs(nodes, id, l) == Ids(items) && ListsOffered(old(nodes), nodes, dist, id, l, Ids(items))
      ensures forall m: nat | m < MAX_LEVEL && m != l :: SameLayer(old(nodes), nodes, m)
    {
      hide GraphOk, Offered, SameLayer;
      ghost var g0 := nodes;
      ShapeOf(nodes);
      SameLayerAsItself(g0);
      for k := 0 to |items|
        invariant GraphOk(nodes) && Shape(nodes) && SameLevels(g0, nodes)
        invariant Nbrs(nodes, id, l) == Ids(items)[..k]
        invariant ListsOffered(g0, nodes, dist, id, l, Ids(items)[..k])
        invariant forall m: nat | m < MAX_LEVEL && m != l :: SameLayer(g0, nodes, m)
      {
        ghost var before := nodes;
        assert EdgeOk(g0, id, l, items[k].id);
        assert EdgeOk(nodes, id, l, items[k].id);
        NotYet(Ids(items), k);
        LinkPair(id, items[k].id, l);
        ShapeOf(nodes);
        OfferedOne(g0, before, nodes, dist, id, l, Ids(items), k);
        forall m: nat | m < MAX_LEVEL && m != l ensures SameLayer(g0, nodes, m) {
          SameLayerTrans(g0, before, nodes, m);
        }
      }
      assert Ids(items)[..|items|] == Ids(items);
    }

    static lemma OfferedOne(g0: seq<Node>, g: seq<Node>, g': seq<Node>, d: Metric, id: nat, l: nat,
        links: seq<nat>, k: nat)
      requires Shape(g0) && Shape(g) && Shape(g') && |g0| == |g| == |g'| == id + 1 && l < MAX_LEVEL
      requires k < |links| && Distinct(links) && links[k] < id && ListsOffered(g0, g, d, id, l, links[..k])
      requires Offered(Nbrs(g, links[k], l), Nbrs(g', links[k], l), links[k], id, Cap(l), d)
      requires forall a: nat | a < |g| && a != id && a != links[k] :: g'[a] == g[a]
      ensures ListsOffered(g0, g', d, id, l, links[..k + 1])
    {
      hide Offered;
      NotYet(links, k);
    }

    /** One layer of hnsw_insert: search it, choose the nearest, link. */
    method InsertLayer(id: nat, q: Query, cur: nat, l: nat) returns (next: nat)
      requires GraphOk(nodes) && |nodes| == count + 1 && id == count && l < MAX_LEVEL && l <= nodes[id].level
      requires cur < count && l <= nodes[cur].level && Nbrs(nodes, id, l) == []
      modifies this`nodes
      ensures GraphOk(nodes) && SameLevels(old(nodes), nodes)
      ensures next < count && l <= nodes[next].level && Nbrs(nodes, id, l) != [] && next == Nbrs(nodes, id, l)[0]
      ensures LinkedToNearest(old(nodes), count, q, Nbrs(nodes, id, l), l, cur)
      ensures ListsOffered(old(nodes), nodes, dist, id, l, Nbrs(nodes, id, l))
      ensures forall m: nat | m < MAX_LEVEL && m != l :: SameLayer(old(nodes), nodes, m)
    {
      hide GraphOk, Best, Items, Trail, ListsOffered, Sorted, FrontSorted, SearchRun, Admitted, SameLayer;
      ShapeOf(nodes);
      ghost var g0 := nodes;
      var h := new Item[EF_CONSTRUCT](_ => Item(0, 0));
      ghost var xs, vs;
      var found;
      found, xs, vs := SearchLevel(h, nodes, count, cur, l, q);
      var m := Min(found, Cap(l));
      ghost var raw := h[..found];
      SelectNearest(h, found, m);
      var items := h[..m];
      Chosen(g0, count, q, l, vs, raw, h[..found], EF_CONSTRUCT);
      assert h[..found][..m] == items;
      Connect(items, id, l);
      ShapeOf(nodes);
      next := h[0].id;
      assert items[0].id == next;
      assert LinkedTo(g0, count, q, Nbrs(nodes, id, l), l, cur, xs, vs, items);
    }

    /** hnsw_insert of the next id, on a level that was drawn for it; `starts` are where the searches of the shared
        layers begin, from the highest one down. */
    method Insert(q: Query, level: nat) returns (ok: bool, ghost starts: seq<nat>)
      requires Valid() && level < MAX_LEVEL
      modifies this
      ensures Valid() && ok == (old(count) < capacity)
      ensures !ok ==> nodes == old(nodes) && count == old(count) && entry == old(entry) && top == old(top)
      ensures ok ==> SameLevels(old(nodes) + [Bare(level)], nodes) && count == old(count) + 1
      ensures ok && old(count) == 0 ==> nodes == [Bare(level)] && entry == 0 && top == level
      ensures ok && old(count) > 0 ==>
                && Inserted(old(nodes) + [Bare(level)], nodes, q, dist, old(count), old(entry), level, old(top), starts)
                && (if level > old(top) then entry == old(count) && top == level
                    else entry == old(entry) && top == old(top))
    {
      starts := [];
      if count >= capacity {
        return false, [];
      }
      ok := true;
      var id := count;
      AddBareKeeps(nodes, level);
      nodes := nodes + [Bare(level)];
      ghost var g1 := nodes;
      if count == 0 {
        entry, top, count := id, level, 1;
        return;
      }
      starts := LinkAll(id, q, level);
      if level > top {
        top, entry := level, id;
      }
      count := id + 1;
    }

    /** The descent to the node's level and the linking of every layer it shares with the graph. */
    method LinkAll(id: nat, q: Query, level: nat) returns (ghost starts: seq<nat>)
      requires GraphOk(nodes) && |nodes| == count + 1 && id == count > 0 && nodes[id] == Bare(level)
      requires EntryOk(nodes, count, entry, top)
      modifies this`nodes
      ensures GraphOk(nodes) && SameLevels(old(nodes), nodes)
      ensures Inserted(old(nodes), nodes, q, dist, id, entry, level, top, starts)
    {
      hide GraphOk, Inserting, SameLayer, DescendsTo;
      ghost var g1 := nodes;
      ShapeOf(g1);
      var cur: nat := DescendTo(nodes, count, q, entry, top, level);
      ghost var high := Min(level, top);
      var l := Min(level, top) + 1;
      starts := [];
      ghost var end := cur;
      NothingInserted(g1, q, dist, id, high, end);
      while l > 0
        invariant 0 <= l <= high + 1 <= MAX_LEVEL && |starts| == high + 1 - l
        invariant GraphOk(nodes) && SameLevels(g1, nodes) && cur < count && l - 1 <= nodes[cur].level
        invariant Inserting(g1, nodes, q, dist, id, high, l, end, starts + [cur])
      {
        l := l - 1;
        ghost var before := nodes;
        ShapeOf(nodes);
        StillBare(g1, nodes, q, dist, id, high, l, end, starts + [cur]);
        starts := starts + [cur];
        cur := InsertLayer(id, q, cur, l);
        ShapeOf(nodes);
        OneLayer(g1, before, nodes, q, dist, id, high, l, end, starts, cur);
      }
      AllLayers(g1, nodes, q, dist, id, high, end, starts, cur);
    }

    /** The layers from l up to the highest shared one are done; starts are where their searches began, and the next. */
    static ghost predicate Inserting(g1: seq<Node>, g: seq<Node>, q: Query, d: Metric, id: nat, high: nat, l: nat,
        end: nat, starts: seq<nat>)
      requires Shape(g1)
    {
      && Shape(g) && |g1| == |g| == id + 1 && high < MAX_LEVEL && l <= high + 1 && |starts| == high + 2 - l
      && Chained(g, id, high, end, starts)
      && (forall m: nat | l <= m <= high :: DoneFrom(g1, g, q, d, id, high, m, starts))
      && (forall m: nat | m < MAX_LEVEL && (m < l || high < m) :: SameLayer(g1, g, m))
    }

    static lemma NothingInserted(g1: seq<Node>, q: Query, d: Metric, id: nat, high: nat, end: nat)
      requires Shape(g1) && |g1| == id + 1 && high < MAX_LEVEL
      ensures Inserting(g1, g1, q, d, id, high, high + 1, end, [] + [end])
    {
      SameLayerAsItself(g1);
    }

    static lemma StillBare(g1: seq<Node>, g: seq<Node>, q: Query, d: Metric, id: nat, high: nat, l: nat, end: nat,
        starts: seq<nat>)
      requires Shape(g1) && Shape(g) && Inserting(g1, g, q, d, id, high, l + 1, end, starts) && l < MAX_LEVEL
      requires id < |g1| && Nbrs(g1, id, l) == []
      ensures id < |g| && Nbrs(g, id, l) == []
    {
      hide SameLayer;
      SameNbrs(g1, g, l, id);
    }

    static lemma OneLayer(g1: seq<Node>, before: seq<Node>, g: seq<Node>, q: Query, d: Metric, id: nat, high: nat,
        l: nat, end: nat, starts: seq<nat>, cur: nat)
      requires Shape(g1) && Shape(before) && Shape(g) && Inserting(g1, before, q, d, id, high, l + 1, end, starts)
      requires |g| == |before| == id + 1 && l < MAX_LEVEL && starts != []
      requires LinkedToNearest(before, id, q, Nbrs(g, id, l), l, starts[|starts| - 1])
      requires ListsOffered(before, g, d, id, l, Nbrs(g, id, l))
      requires Nbrs(g, id, l) != [] && cur == Nbrs(g, id, l)[0]
      requires forall m: nat | m < MAX_LEVEL && m != l :: SameLayer(before, g, m)
      ensures Inserting(g1, g, q, d, id, high, l, end, starts + [cur])
    {
      hide SameLayer, LayerDone, LinkedToNearest, ListsOffered, Chained;
      var ss := starts + [cur];
      DoneHere(g1, before, g, q, d, id, l, starts[high - l]);
      forall m: nat | m < MAX_LEVEL && (m < l || high < m) ensures SameLayer(g1, g, m) {
        SameLayerTrans(g1, before, g, m);
      }
      forall m: nat | l <= m <= high ensures DoneFrom(g1, g, q, d, id, high, m, ss) {
        if m > l {
          assert DoneFrom(g1, before, q, d, id, high, m, starts);
          DoneStays(g1, before, g, q, d, id, m, starts[high - m]);
        }
      }
      ChainGrows(before, g, id, high, end, starts, l, cur);
    }

    static lemma AllLayers(g1: seq<Node>, g: seq<Node>, q: Query, d: Metric, id: nat, high: nat, end: nat,
        starts: seq<nat>, cur: nat)
      requires Shape(g1) && Inserting(g1, g, q, d, id, high, 0, end, starts + [cur])
      ensures Chained(g, id, high, end, starts)
      ensures forall m: nat | m <= high :: DoneFrom(g1, g, q, d, id, high, m, starts)
      ensures Shape(g) && |g1| == |g| == id + 1 && |starts| == high + 1 && starts[0] == end
      ensures forall m: nat | high < m < MAX_LEVEL :: SameLayer(g1, g, m)
    {
      hide LayerDone, SameLayer;
      ChainEnds(g, id, high, end, starts, cur);
      forall m: nat | m <= high ensures DoneFrom(g1, g, q, d, id, high, m, starts) {
        assert DoneFrom(g1, g, q, d, id, high, m, starts + [cur]);
      }
    }

    /** The search of a shared layer starts at the nearest node found on the one above, that of the highest at `end`. */
    static ghost predicate Chained(g: seq<Node>, id: nat, high: nat, end: nat, starts: seq<nat>) {
      && Shape(g) && id < |g| && high < MAX_LEVEL && 0 < |starts| <= high + 2 && starts[0] == end
      && forall i: nat | 0 < i < |starts| :: FirstOf(g, id, high - i + 1, starts[i])
    }

    static ghost predicate FirstOf(g: seq<Node>, id: nat, m: nat, v: nat)
      requires Shape(g) && id < |g| && m < MAX_LEVEL
    {
      Nbrs(g, id, m) != [] && v == Nbrs(g, id, m)[0]
    }

    static lemma ChainGrows(g: seq<Node>, g': seq<Node>, id: nat, high: nat, end: nat, starts: seq<nat>, l: nat,
        cur: nat)
      requires Chained(g, id, high, end, starts) && Shape(g') && |g'| == |g|
      requires l < MAX_LEVEL && |starts| == high + 1 - l
      requires (forall m: nat | m < MAX_LEVEL && m != l :: SameLayer(g, g', m)) && l <= high
      requires Nbrs(g', id, l) != [] && cur == Nbrs(g', id, l)[0]
      ensures Chained(g', id, high, end, starts + [cur])
    {
      var ss := starts + [cur];
      forall i: nat | 0 < i < |ss| ensures FirstOf(g', id, high - i + 1, ss[i]) {
        if i < |starts| {
          assert FirstOf(g, id, high - i + 1, starts[i]);
          SameNbrs(g, g', high - i + 1, id);
        }
      }
    }

    static lemma ChainEnds(g: seq<Node>, id: nat, high: nat, end: nat, starts: seq<nat>, cur: nat)
      requires Chained(g, id, high, end, starts + [cur]) && starts != []
      ensures Chained(g, id, high, end, starts)
    {
      forall i: nat | 0 < i < |starts| ensures FirstOf(g, id, high - i + 1, starts[i]) {
        assert FirstOf(g, id, high - i + 1, (starts + [cur])[i]);
      }
    }

    /** All that an insertion of node id does to the layers. */
    static ghost predicate Inserted(g1: seq<Node>, g: seq<Node>, q: Query, d: Metric, id: nat, entry: nat, level: nat,
        top: nat, starts: seq<nat>) {
      var high := Min(level, top);
      && Shape(g1) && Shape(g) && |g1| == |g| == id + 1 && top < MAX_LEVEL && |starts| == high + 1
      && DescendsTo(g1, id, q, entry, top, level, starts[0]) && Chained(g, id, high, starts[0], starts)
      && (forall m: nat | m <= high :: DoneFrom(g1, g, q, d, id, high, m, starts))
      && (forall m: nat | high < m < MAX_LEVEL :: SameLayer(g1, g, m))
    }

    /** Node id is linked on layer m to the nearest nodes found there from `start`, they have been offered id, and no
        other list of the layer has changed. */
    static ghost predicate LayerDone(g1: seq<Node>, g: seq<Node>, q: Query, d: Metric, id: nat, m: nat, start: nat) {
      && Shape(g1) && Shape(g) && m < MAX_LEVEL && |g1| == |g| == id + 1
      && LinkedToNearest(g1, id, q, Nbrs(g, id, m), m, start) && ListsOffered(g1, g, d, id, m, Nbrs(g, id, m))
    }

    static ghost predicate DoneFrom(g1: seq<Node>, g: seq<Node>, q: Query, d: Metric, id: nat, high: nat, m: nat,
        starts: seq<nat>) {
      m <= high < m + |starts| && LayerDone(g1, g, q, d, id, m, starts[high - m])
    }

    /** So each of them links back unless its list is full of nodes at least as near. */
    static lemma DoneLinksBack(g1: seq<Node>, g: seq<Node>, q: Query, d: Metric, id: nat, m: nat, start: nat, a: nat)
      requires LayerDone(g1, g, q, d, id, m, start) && GraphOk(g1) && a in Nbrs(g, id, m) && a < id
      ensures LinksBack(g, d, a, id, m)
    {
      hide LinkedToNearest, Offered;
      assert ListOk(g1, a, m);
      OfferKeeps(Nbrs(g1, a, m), Nbrs(g, a, m), a, id, Cap(m), d);
    }

    static lemma DoneHere(g1: seq<Node>, before: seq<Node>, g: seq<Node>, q: Query, d: Metric, id: nat, l: nat,
        start: nat)
      requires Shape(g1) && Shape(before) && Shape(g) && l < MAX_LEVEL && id + 1 == |g| == |before| == |g1|
      requires SameLayer(g1, before, l) && LinkedToNearest(before, id, q, Nbrs(g, id, l), l, start)
      requires ListsOffered(before, g, d, id, l, Nbrs(g, id, l))
      ensures LayerDone(g1, g, q, d, id, l, start)
    {
      hide SearchRun, Best, Sorted, Items, Offered;
      var xs, vs, items :| LinkedTo(before, id, q, Nbrs(g, id, l), l, start, xs, vs, items);
      RunSame(before, g1, l, id, start, q, EF_CONSTRUCT, xs, vs);
      assert LinkedTo(g1, id, q, Nbrs(g, id, l), l, start, xs, vs, items);
    }

    static lemma DoneStays(g1: seq<Node>, g: seq<Node>, g': seq<Node>, q: Query, d: Metric, id: nat, m: nat, start: nat)
      requires LayerDone(g1, g, q, d, id, m, start) && Shape(g') && |g'| == |g| && SameLayer(g, g', m)
      ensures LayerDone(g1, g', q, d, id, m, start)
    {
      hide LinkedToNearest, Offered;
      assert Nbrs(g', id, m) == Nbrs(g, id, m);
      forall a: nat | a < id ensures Nbrs(g', a, m) == Nbrs(g, a, m) { }
    }

    static function Width(topK: nat): nat { if topK > EF_SEARCH then topK else EF_SEARCH }

    /** hnsw_search: a greedy descent to layer 1, then the top k of what a best-first search of layer 0 from there
        visits, nearest first. */
    method Search(q: Query, topK: nat) returns (out: seq<Item>, ghost xs: seq<nat>, ghost vs: seq<nat>)
      requires Valid()
      ensures count == 0 ==> out == []
      ensures count > 0 ==>
                && Shape(nodes) && vs != [] && top < MAX_LEVEL && DescendsTo(nodes, count, q, entry, top, 0, vs[0])
                && SearchRun(nodes, 0, count, vs[0], q, Width(topK), xs, vs)
                && Trail(nodes, 0, count, vs) && Best(Items(vs, q), out, topK, true) && Sorted(out, true)
                && (forall y | y in out :: y.id in Admitted(vs, q, Width(topK)))
      ensures count > 0 ==> q(vs[0]) <= q(entry) && (top > 0 ==> LocalMin(nodes, q, count, vs[0], 1))
      ensures count > 0 && |Admitted(vs, q, Width(topK))| <= 4 * Width(topK) ==> Closed(nodes, 0, count, vs, out)
    {
      if count == 0 {
        return [], [], [];
      }
      hide GraphOk, Trail, Best, Sorted, Items, Closed, LocalMin, SearchRun, DescendsTo, Admitted;
      ShapeOf(nodes);
      var cur := DescendTo(nodes, count, q, entry, top, 0);
      out, xs, vs := SearchBase(cur, q, topK);
    }

    /** The search of layer 0 with ef_search width, in order. */
    method SearchBase(cur: nat, q: Query, topK: nat) returns (out: seq<Item>, ghost xs: seq<nat>, ghost vs: seq<nat>)
      requires GraphOk(nodes) && cur < count <= |nodes|
      ensures Shape(nodes) && SearchRun(nodes, 0, count, cur, q, Width(topK), xs, vs)
      ensures vs != [] && vs[0] == cur && Trail(nodes, 0, count, vs)
      ensures Best(Items(vs, q), out, topK, true) && Sorted(out, true)
      ensures forall y | y in out :: y.id in Admitted(vs, q, Width(topK))
      ensures |Admitted(vs, q, Width(topK))| <= 4 * Width(topK) ==> Closed(nodes, 0, count, vs, out)
    {
      hide GraphOk, Trail, Best, Sorted, Items, Closed, FrontSorted, SearchRun, Admitted;
      ShapeOf(nodes);
      var ef := Width(topK);
      var h := new Item[ef](_ => Item(0, 0));
      var found;
      found, xs, vs := SearchLevel(h, nodes, count, cur, 0, q);
      EntryIsVisited(nodes, 0, count, cur, q, ef, xs, vs);
      ghost var raw := h[..found];
      SelectNearest(h, found, found);
      ghost var s := h[..found];
      var m := Min(found, topK);
      out := h[..m];
      assert s[..m] == out;
      FrontOfAll(s, m);
      SameItems(raw, s);
      TopOf(Items(vs, q), raw, s, ef, topK);
      if |Admitted(vs, q, ef)| <= 4 * ef {
        RunIsClosed(nodes, 0, count, cur, q, ef, xs, vs, raw);
        ClosedSubset(nodes, 0, count, vs, raw, s, m);
      }
    }

    static lemma FrontOfAll(s: seq<Item>, m: nat)
      requires FrontSorted(s, |s|) && m <= |s|
      ensures FrontSorted(s, m)
    {
    }

    static lemma ClosedSubset(g: seq<Node>, l: nat, count: nat, vs: seq<nat>, a: seq<Item>, b: seq<Item>, m: nat)
      requires Shape(g) && l < MAX_LEVEL && Closed(g, l, count, vs, a) && multiset(a) == multiset(b) && m <= |b|
      ensures Closed(g, l, count, vs, b[..m])
    {
      SameItems(a, b);
    }

    static lemma Chosen(g: seq<Node>, count: nat, q: Query, l: nat, vs: seq<nat>, raw: seq<Item>, s: seq<Item>, ef: nat)
      requires GraphOk(g) && l < MAX_LEVEL && |g| == count + 1 && l <= g[count].level && Trail(g, l, count, vs)
      requires Best(Items(vs, q), raw, ef, true) && multiset(s) == multiset(raw) && |s| == |raw| && Cap(l) <= ef
      requires FrontSorted(s, Min(|s|, Cap(l)))
      ensures var items := s[..Min(|s|, Cap(l))];
              && items != [] && Best(Items(vs, q), items, Cap(l), true) && Sorted(items, true) && Distinct(Ids(items))
              && forall k | 0 <= k < |items| :: EdgeOk(g, count, l, items[k].id)
    {
      hide Sorted, Items, NoneBetter;
      var items := s[..Min(|s|, Cap(l))];
      TopOf(Items(vs, q), raw, s, ef, Cap(l));
      ResultsAreVisited(vs, q, items, Cap(l));
      forall k | 0 <= k < |items| ensures EdgeOk(g, count, l, items[k].id) {
        assert items[k].id in vs;
      }
    }

    static lemma ShapeOf(g: seq<Node>)
      requires GraphOk(g)
      ensures Shape(g)
    {
    }

    static lemma NotYet(ids: seq<nat>, k: nat)
      requires Distinct(ids) && k < |ids|
      ensures ids[k] !in ids[..k] && ids[..k + 1] == ids[..k] + [ids[k]]
    {
    }
  }
}
