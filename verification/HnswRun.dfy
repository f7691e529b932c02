/** The search of one layer of the neighbour graph as a best-first search by ranks, and what every such search finds. */
module HnswRun {
  import opened Counting
  import opened Heap
  import opened TopK
  import opened HnswSpec

  // ----- The search of one layer, by ranks: what the heap and the candidate buffer work out to.

  /** The visited nodes that are nearer than d, or as near. */
  ghost function Ahead(vs: seq<nat>, q: Query, d: int, ties: bool): set<nat> {
    set v | v in vs && (q(v) < d || (ties && q(v) == d))
  }

  /** Visiting the neighbours ns of a node: those that are new, in list order. */
  ghost function VisitList(vs: seq<nat>, ns: seq<nat>, count: nat): (r: seq<nat>)
    ensures vs <= r
  {
    if ns == [] then vs
    else
      var n := |ns| - 1;
      var w := VisitList(vs, ns[..n], count);
      if ns[n] < count && ns[n] !in w then w + [ns[n]] else w
  }

  ghost predicate InGraph(g: seq<Node>, xs: seq<nat>) { forall i | 0 <= i < |xs| :: xs[i] < |g| }

  /** What has been visited once the nodes xs have been explored in this order. */
  ghost function Visited(g: seq<Node>, l: nat, count: nat, entry: nat, xs: seq<nat>): (r: seq<nat>)
    requires Shape(g) && l < MAX_LEVEL && InGraph(g, xs)
    ensures [entry] <= r
  {
    if xs == [] then [entry]
    else
      var n := |xs| - 1;
      VisitList(Visited(g, l, count, entry, xs[..n]), Nbrs(g, xs[n], l), count)
  }

  /** The visited nodes that were among the ef nearest when they were met. */
  ghost function Admitted(vs: seq<nat>, q: Query, ef: nat): seq<nat> {
    if vs == [] then []
    else
      var n := |vs| - 1;
      Admitted(vs[..n], q, ef) + if |Ahead(vs[..n], q, q(vs[n]), true)| < ef then [vs[n]] else []
  }

  /** The first 4 * ef of those become candidates. */
  ghost function Queue(vs: seq<nat>, q: Query, ef: nat): seq<nat> {
    Take(Admitted(vs, q, ef), 4 * ef)
  }

  ghost predicate Waiting(vs: seq<nat>, q: Query, ef: nat, xs: seq<nat>, v: nat) {
    v in Queue(vs, q, ef) && v !in xs
  }

  /** x is explored next: a nearest waiting candidate, with fewer than ef visited nodes nearer. */
  ghost predicate IsNext(vs: seq<nat>, q: Query, ef: nat, xs: seq<nat>, x: nat) {
    && Waiting(vs, q, ef, xs, x) && |Ahead(vs, q, q(x), false)| < ef
    && forall y | Waiting(vs, q, ef, xs, y) :: q(x) <= q(y)
  }

  /** A best-first search: every node explored was next in its turn. */
  ghost predicate Steps(g: seq<Node>, l: nat, count: nat, entry: nat, q: Query, ef: nat, xs: seq<nat>)
    requires Shape(g) && l < MAX_LEVEL && InGraph(g, xs)
  {
    forall i | 0 <= i < |xs| :: IsNext(Visited(g, l, count, entry, xs[..i]), q, ef, xs[..i], xs[i])
  }

  /** It goes on until ef visited nodes are nearer than every waiting candidate. */
  ghost predicate SearchRun(g: seq<Node>, l: nat, count: nat, entry: nat, q: Query, ef: nat, xs: seq<nat>, vs: seq<nat>)
    requires Shape(g) && l < MAX_LEVEL
  {
    && InGraph(g, xs) && vs == Visited(g, l, count, entry, xs) && Steps(g, l, count, entry, q, ef, xs)
    && forall y | Waiting(vs, q, ef, xs, y) :: ef <= |Ahead(vs, q, q(y), false)|
  }

  /** What a search returns: ef nearest visited nodes, each of them met as one. */
  ghost predicate Returned(vs: seq<nat>, q: Query, kept: seq<Item>, ef: nat) {
    Best(Items(vs, q), kept, ef, true) && forall y | y in kept :: y.id in Admitted(vs, q, ef)
  }

  // ----- What every such search has seen.

  lemma {:induction false} EntryIsExplored(g: seq<Node>, l: nat, count: nat, entry: nat, q: Query, ef: nat,
      xs: seq<nat>, vs: seq<nat>)
    requires Shape(g) && l < MAX_LEVEL && SearchRun(g, l, count, entry, q, ef, xs, vs) && ef > 0
    ensures xs != [] && xs[0] == entry
  {
    FirstQueue(entry, q, ef);
    if xs != [] {
      assert xs[..0] == [];
      assert IsNext(Visited(g, l, count, entry, xs[..0]), q, ef, xs[..0], xs[0]);
    }
  }

  lemma {:induction false} FirstQueue(entry: nat, q: Query, ef: nat)
    requires ef > 0
    ensures Admitted([entry], q, ef) == [entry] && Queue([entry], q, ef) == [entry]
    ensures Waiting([entry], q, ef, [], entry) && |Ahead([entry], q, q(entry), false)| < ef
  {
    assert Ahead([entry], q, q(entry), false) == {};
    assert [entry][..0] == [];
    assert Admitted([], q, ef) == [];
    assert Ahead([], q, q(entry), true) == {};
  }

  lemma {:induction false} VisitListHas(vs: seq<nat>, ns: seq<nat>, count: nat)
    ensures forall k | 0 <= k < |ns| && ns[k] < count :: ns[k] in VisitList(vs, ns, count)
  {
    if ns != [] {
      var n := |ns| - 1;
      VisitListHas(vs, ns[..n], count);
      forall k | 0 <= k < |ns| && ns[k] < count ensures ns[k] in VisitList(vs, ns, count) {
        if k < n { assert ns[..n][k] in VisitList(vs, ns[..n], count); }
      }
    }
  }

  lemma {:induction false} VisitListDistinct(vs: seq<nat>, ns: seq<nat>, count: nat)
    requires Distinct(vs)
    ensures Distinct(VisitList(vs, ns, count))
  {
    if ns != [] { VisitListDistinct(vs, ns[..|ns| - 1], count); }
  }

  lemma {:induction false} RunDistinct(g: seq<Node>, l: nat, count: nat, entry: nat, xs: seq<nat>)
    requires Shape(g) && l < MAX_LEVEL && InGraph(g, xs)
    ensures Distinct(Visited(g, l, count, entry, xs))
  {
    if xs != [] {
      var n := |xs| - 1;
      RunDistinct(g, l, count, entry, xs[..n]);
      VisitListDistinct(Visited(g, l, count, entry, xs[..n]), Nbrs(g, xs[n], l), count);
    }
  }

  /** Every explored node has all its neighbours visited. */
  lemma {:induction false} ExploredAll(g: seq<Node>, l: nat, count: nat, entry: nat, xs: seq<nat>, i: nat)
    requires Shape(g) && l < MAX_LEVEL && InGraph(g, xs) && i < |xs|
    ensures Explored(g, l, count, Visited(g, l, count, entry, xs), xs[i], |Nbrs(g, xs[i], l)|)
    decreases |xs|
  {
    var n := |xs| - 1;
    var before := Visited(g, l, count, entry, xs[..n]);
    var vs := Visited(g, l, count, entry, xs);
    if i == n {
      VisitListHas(before, Nbrs(g, xs[n], l), count);
    } else {
      ExploredAll(g, l, count, entry, xs[..n], i);
      assert xs[..n][i] == xs[i];
      forall k | 0 <= k < |Nbrs(g, xs[i], l)| && Nbrs(g, xs[i], l)[k] < count ensures Nbrs(g, xs[i], l)[k] in vs {
        assert Nbrs(g, xs[i], l)[k] in before;
      }
    }
  }

  lemma LeftOutIsFar(cands: multiset<Item>, kept: seq<Item>, ef: nat, x: Item, y: Item)
    requires Best(cands, kept, ef, true) && x in cands && y in kept
    ensures x in kept || y.dist <= x.dist
  {
    if x !in kept {
      assert x in cands - multiset(kept);
      assert y in multiset(kept);
      assert Key(y, true) <= Key(x, true);
    }
  }

  /** No more than ef - 1 visited nodes are nearer than a returned one. */
  lemma ReturnedIsNear(vs: seq<nat>, q: Query, kept: seq<Item>, ef: nat, y: Item)
    requires Distinct(vs) && Returned(vs, q, kept, ef) && y in kept
    ensures y.id in vs && y.dist == q(y.id) && |Ahead(vs, q, y.dist, false)| < ef
  {
    hide Items, Admitted;
    ResultsAreVisited(vs, q, kept, ef);
    var k :| 0 <= k < |kept| && kept[k] == y;
    var near, ids := Ahead(vs, q, y.dist, false), Ids(kept);
    forall v | v in near ensures v in Elems(ids) - {y.id} {
      var x := Item(v, q(v));
      ItemsAre(vs, q, x);
      LeftOutIsFar(Items(vs, q), kept, ef, x, y);
      var j :| 0 <= j < |kept| && kept[j] == x;
      assert ids[j] == v;
    }
    DistinctSize(ids);
    assert ids[k] == y.id;
    SubsetSize(near, Elems(ids) - {y.id});
  }

  /** Every node returned was explored, or was not queued because 4 * ef candidates were there before it. */
  lemma ReturnedIsExplored(g: seq<Node>, l: nat, count: nat, entry: nat, q: Query, ef: nat, xs: seq<nat>, vs: seq<nat>,
      kept: seq<Item>, y: Item)
    requires Shape(g) && l < MAX_LEVEL && SearchRun(g, l, count, entry, q, ef, xs, vs)
    requires Returned(vs, q, kept, ef) && y in kept
    ensures y.id in xs || (y.id !in Queue(vs, q, ef) && 4 * ef < |Admitted(vs, q, ef)|)
  {
    hide Returned, Visited, Admitted;
    RunDistinct(g, l, count, entry, xs);
    ReturnedIsNear(vs, q, kept, ef, y);
    AdmittedOf(vs, q, kept, ef, y);
    assert y.id !in xs ==> (Waiting(vs, q, ef, xs, y.id) <==> y.id in Queue(vs, q, ef));
  }

  lemma AdmittedOf(vs: seq<nat>, q: Query, kept: seq<Item>, ef: nat, y: Item)
    requires Returned(vs, q, kept, ef) && y in kept
    ensures y.id in Admitted(vs, q, ef)
  {
  }

  lemma {:induction false} AdmittedSize(vs: seq<nat>, q: Query, ef: nat)
    ensures |Admitted(vs, q, ef)| <= |vs| && forall v | v in Admitted(vs, q, ef) :: v in vs
  {
    if vs != [] { AdmittedSize(vs[..|vs| - 1], q, ef); }
  }

  /** Unless more than 4 * ef candidates turn up, all neighbours of everything returned were visited. */
  lemma RunIsClosed(g: seq<Node>, l: nat, count: nat, entry: nat, q: Query, ef: nat, xs: seq<nat>, vs: seq<nat>,
      kept: seq<Item>)
    requires Shape(g) && l < MAX_LEVEL && SearchRun(g, l, count, entry, q, ef, xs, vs)
    requires Returned(vs, q, kept, ef) && |Admitted(vs, q, ef)| <= 4 * ef
    ensures Closed(g, l, count, vs, kept)
  {
    hide Returned, Steps, Admitted;
    forall y | y in kept ensures y.id < |g| && Explored(g, l, count, vs, y.id, |Nbrs(g, y.id, l)|) {
      ReturnedIsExplored(g, l, count, entry, q, ef, xs, vs, kept, y);
      var i :| 0 <= i < |xs| && xs[i] == y.id;
      ExploredAll(g, l, count, entry, xs, i);
    }
  }

  /** A path along the edges of layer l. */
  ghost predicate Path(g: seq<Node>, l: nat, count: nat, ps: seq<nat>)
    requires Shape(g) && l < MAX_LEVEL
  {
    && ps != [] && InGraph(g, ps)
    && forall i | 0 < i < |ps| :: ps[i] < count && ps[i] in Nbrs(g, ps[i - 1], l)
  }

  lemma {:induction false} AllAdmitted(vs: seq<nat>, q: Query, ef: nat)
    requires |vs| <= ef
    ensures Admitted(vs, q, ef) == vs
  {
    hide Ahead, Admitted;
    AdmittedStep(vs, q, ef);
    if vs != [] {
      var n := |vs| - 1;
      AllAdmitted(vs[..n], q, ef);
      AheadSize(vs[..n], q, q(vs[n]), true);
      assert vs == vs[..n] + [vs[n]];
    }
  }

  lemma {:induction false} AdmittedStep(vs: seq<nat>, q: Query, ef: nat)
    ensures vs == [] ==> Admitted(vs, q, ef) == []
    ensures vs != [] ==>
              var n := |vs| - 1;
              |Ahead(vs[..n], q, q(vs[n]), true)| < ef ==> Admitted(vs, q, ef) == Admitted(vs[..n], q, ef) + [vs[n]]
  {
    hide Ahead;
  }

  lemma AheadSize(vs: seq<nat>, q: Query, d: int, ties: bool)
    ensures |Ahead(vs, q, d, ties)| <= |vs|
  {
    ElemsSize(vs);
    SubsetSize(Ahead(vs, q, d, ties), Elems(vs));
  }

  lemma {:induction false} ElemsSize(vs: seq<nat>)
    ensures |Elems(vs)| <= |vs|
  {
    if vs == [] {
      assert Elems(vs) == {};
    } else {
      var n := |vs| - 1;
      ElemsSize(vs[..n]);
      assert vs == vs[..n] + [vs[n]];
      assert Elems(vs) == Elems(vs[..n]) + {vs[n]};
    }
  }

  /** A search that visits no more than ef nodes explores them all. */
  lemma SmallRunExploresAll(g: seq<Node>, l: nat, count: nat, entry: nat, q: Query, ef: nat, xs: seq<nat>, vs: seq<nat>,
      v: nat)
    requires Shape(g) && l < MAX_LEVEL && SearchRun(g, l, count, entry, q, ef, xs, vs)
    requires |vs| <= ef && v in vs
    ensures v in xs
  {
    hide Visited, Steps;
    RunDistinct(g, l, count, entry, xs);
    AllAdmitted(vs, q, ef);
    assert Queue(vs, q, ef) == vs;
    if v !in xs {
      assert Waiting(vs, q, ef, xs, v);
      var near := Ahead(vs, q, q(v), false);
      DistinctSize(vs);
      assert near <= Elems(vs) - {v} && v in Elems(vs);
      SubsetSize(near, Elems(vs) - {v});
    }
  }

  /** Such a search has visited everything that can be reached from its entry, so that it is exact. */
  lemma {:induction false} SmallRunIsExact(g: seq<Node>, l: nat, count: nat, entry: nat, q: Query, ef: nat,
      xs: seq<nat>, vs: seq<nat>, ps: seq<nat>)
    requires Shape(g) && l < MAX_LEVEL && SearchRun(g, l, count, entry, q, ef, xs, vs)
    requires |vs| <= ef && Path(g, l, count, ps) && ps[0] == entry
    ensures ps[|ps| - 1] in vs
    decreases |ps|
  {
    hide SearchRun;
    if |ps| == 1 {
      EntryIsVisited(g, l, count, entry, q, ef, xs, vs);
    } else {
      var front := ps[..|ps| - 1];
      SmallRunIsExact(g, l, count, entry, q, ef, xs, vs, front);
      var v, w := front[|front| - 1], ps[|ps| - 1];
      SmallRunExploresAll(g, l, count, entry, q, ef, xs, vs, v);
      var i :| 0 <= i < |xs| && xs[i] == v;
      NeighboursVisited(g, l, count, entry, q, ef, xs, vs, i, w);
    }
  }

  lemma EntryIsVisited(g: seq<Node>, l: nat, count: nat, entry: nat, q: Query, ef: nat, xs: seq<nat>, vs: seq<nat>)
    requires Shape(g) && l < MAX_LEVEL && SearchRun(g, l, count, entry, q, ef, xs, vs)
    ensures vs != [] && vs[0] == entry
  {
  }

  lemma NeighboursVisited(g: seq<Node>, l: nat, count: nat, entry: nat, q: Query, ef: nat, xs: seq<nat>, vs: seq<nat>,
      i: nat, w: nat)
    requires Shape(g) && l < MAX_LEVEL && SearchRun(g, l, count, entry, q, ef, xs, vs)
    requires i < |xs| && xs[i] < |g| && w in Nbrs(g, xs[i], l) && w < count
    ensures w in vs
  {
    ExploredAll(g, l, count, entry, xs, i);
    var k :| 0 <= k < |Nbrs(g, xs[i], l)| && Nbrs(g, xs[i], l)[k] == w;
  }

  // ----- The greedy descent.

  /** Neighbour k is the first nearest of the neighbours of v. */
  ghost predicate NearestNbr(g: seq<Node>, l: nat, count: nat, q: Query, v: nat, k: nat)
    requires Shape(g) && l < MAX_LEVEL && v < |g|
  {
    var ns := Nbrs(g, v, l);
    && k < |ns| && ns[k] < count
    && forall j | 0 <= j < |ns| && ns[j] < count :: q(ns[k]) <= q(ns[j]) && (j < k ==> q(ns[k]) < q(ns[j]))
  }

  ghost predicate GreedyStep(g: seq<Node>, l: nat, count: nat, q: Query, v: nat, w: nat)
    requires Shape(g) && l < MAX_LEVEL && v < |g|
  {
    q(w) < q(v) && exists k: nat :: NearestNbr(g, l, count, q, v, k) && Nbrs(g, v, l)[k] == w
  }

  /** A steepest walk of layer l: always to the nearest neighbour, as long as it is nearer. */
  ghost predicate GreedyWalk(g: seq<Node>, l: nat, count: nat, q: Query, ps: seq<nat>)
    requires Shape(g) && l < MAX_LEVEL
  {
    && ps != [] && InGraph(g, ps)
    && forall i | 0 < i < |ps| :: GreedyStep(g, l, count, q, ps[i - 1], ps[i])
  }

  /** The walk of layer l from a ends at b. */
  ghost predicate WalksTo(g: seq<Node>, l: nat, count: nat, q: Query, a: nat, b: nat)
    requires Shape(g) && l < MAX_LEVEL
  {
    && b < |g| && LocalMin(g, q, count, b, l)
    && exists ps :: GreedyWalk(g, l, count, q, ps) && ps[0] == a && ps[|ps| - 1] == b
  }

  /** The walks of the layers from top down, each from where the one above ended. */
  ghost predicate Descent(g: seq<Node>, count: nat, q: Query, top: nat, cs: seq<nat>)
    requires Shape(g) && top < MAX_LEVEL
  {
    0 < |cs| <= top + 1 && forall i | 0 < i < |cs| :: WalksTo(g, top - i + 1, count, q, cs[i - 1], cs[i])
  }

  ghost predicate DescendsTo(g: seq<Node>, count: nat, q: Query, start: nat, top: nat, stop: nat, end: nat)
    requires Shape(g) && top < MAX_LEVEL
  {
    exists cs :: && Descent(g, count, q, top, cs) && cs[0] == start && cs[|cs| - 1] == end
                 && |cs| == 1 + if stop < top then top - stop else 0
  }

  // ----- Only the layer itself matters.

  ghost predicate SameLayer(g: seq<Node>, g': seq<Node>, m: nat)
    requires Shape(g) && Shape(g') && |g| == |g'| && m < MAX_LEVEL
  {
    forall i: nat | i < |g| :: Nbrs(g, i, m) == Nbrs(g', i, m)
  }

  lemma {:induction false} VisitedSame(g: seq<Node>, g': seq<Node>, l: nat, count: nat, entry: nat, xs: seq<nat>)
    requires Shape(g) && Shape(g') && |g| == |g'| && l < MAX_LEVEL && SameLayer(g, g', l) && InGraph(g, xs)
    ensures Visited(g', l, count, entry, xs) == Visited(g, l, count, entry, xs)
  {
    if xs != [] { VisitedSame(g, g', l, count, entry, xs[..|xs| - 1]); }
  }

  lemma RunSame(g: seq<Node>, g': seq<Node>, l: nat, count: nat, entry: nat, q: Query, ef: nat, xs: seq<nat>,
      vs: seq<nat>)
    requires Shape(g) && Shape(g') && |g| == |g'| && l < MAX_LEVEL && SameLayer(g, g', l)
    requires SearchRun(g, l, count, entry, q, ef, xs, vs)
    ensures SearchRun(g', l, count, entry, q, ef, xs, vs)
  {
    hide IsNext, Visited, Waiting;
    VisitedSame(g, g', l, count, entry, xs);
    forall i | 0 <= i < |xs| ensures IsNext(Visited(g', l, count, entry, xs[..i]), q, ef, xs[..i], xs[i]) {
      VisitedSame(g, g', l, count, entry, xs[..i]);
    }
  }
}
