/** The bounded max-heap and the search of one layer, from memory.c. */
module HnswSearch {
  import opened Counting
  import opened Heap
  import opened TopK
  import opened HnswSpec
  import opened HnswRun

  /** The result buffer: the nearest of what was seen, always in heap order. */
  ghost predicate Kept(s: seq<Item>, seen: multiset<Item>, k: nat) {
    Held(s, seen, k, true) && IsHeap(s, true)
  }

  lemma PushedIsKept(s: seq<Item>, t: seq<Item>, seen: multiset<Item>, x: Item, k: nat)
    requires Kept(s, seen, k) && |s| < k && |t| == |s| + 1 && multiset(t) == multiset(s + [x]) && IsHeap(t, true)
    ensures Kept(t, seen + multiset{x}, k) && forall y | y in t :: y in s || y == x
  {
    hide HeapFrom;
    assert multiset(t) == seen + multiset{x};
    if |t| == k { FullIsHeld(t, seen + multiset{x}, k, true); }
    forall y | y in t ensures y in s || y == x {
      assert y in multiset(t);
    }
  }

  lemma ReplacedIsKept(s: seq<Item>, t: seq<Item>, seen: multiset<Item>, x: Item, k: nat)
    requires Kept(s, seen, k) && |s| == k > 0 && x.dist < s[0].dist
    requires |t| == k && multiset(t) == multiset(s[0 := x]) && IsHeap(t, true)
    ensures Kept(t, seen + multiset{x}, k) && forall y | y in t :: y in s || y == x
  {
    TakeRoot(s, seen, k, x, true, t);
    forall y | y in t ensures y in s || y == x {
      assert y in multiset(t);
      assert y in s[0 := x];
    }
  }

  /** heap_push_max. */
  method HeapPushMax(h: array<Item>, size: nat, x: Item, ghost seen: multiset<Item>) returns (size': nat)
    requires size <= h.Length && h.Length > 0 && Kept(h[..size], seen, h.Length)
    modifies h
    ensures size' == Min(size + 1, h.Length) && Kept(h[..size'], seen + multiset{x}, h.Length)
    ensures forall y | y in h[..size'] :: y in old(h[..size]) || y == x
  {
    hide Held, HeapFrom;
    if size < h.Length {
      PushLast(h, size, x, seen);
      size' := size + 1;
    } else {
      size' := size;
      if x.dist < h[0].dist {
        ReplaceTop(h, x, seen);
      } else {
        PassOver(h[..size], seen, size, x, true);
      }
    }
  }

  method PushLast(h: array<Item>, size: nat, x: Item, ghost seen: multiset<Item>)
    requires size < h.Length && Kept(h[..size], seen, h.Length)
    modifies h
    ensures Kept(h[..size + 1], seen + multiset{x}, h.Length)
    ensures forall y | y in h[..size + 1] :: y in old(h[..size]) || y == x
  {
    hide Held, HeapFrom;
    ghost var s := h[..size];
    h[size] := x;
    assert h[..size + 1] == s + [x];
    assert h[..size + 1 - 1] == s;
    SiftUp(h, size + 1);
    PushedIsKept(s, h[..size + 1], seen, x, h.Length);
  }

  method ReplaceTop(h: array<Item>, x: Item, ghost seen: multiset<Item>)
    requires h.Length > 0 && Kept(h[..h.Length], seen, h.Length) && x.dist < h[0].dist
    modifies h
    ensures Kept(h[..h.Length], seen + multiset{x}, h.Length)
    ensures forall y | y in h[..h.Length] :: y in old(h[..h.Length]) || y == x
  {
    hide Held, HeapFrom;
    ghost var s := h[..h.Length];
    h[0] := x;
    assert h[..h.Length] == s[0 := x];
    RestIsHeap(s, x, true);
    SiftDown(h, h.Length, 0, true);
    ReplacedIsKept(s, h[..h.Length], seen, x, h.Length);
  }

  /** The nearest unprocessed candidate comes first. */
  method PickClosest(cands: seq<Item>, from: nat) returns (c: seq<Item>)
    requires from < |cands|
    ensures multiset(c) == multiset(cands) && |c| == |cands| && c[..from] == cands[..from]
    ensures forall k | from <= k < |c| :: c[from].dist <= c[k].dist
  {
    var best := from;
    for ci := from + 1 to |cands|
      invariant from <= best < ci
      invariant forall k | from <= k < ci :: cands[best].dist <= cands[k].dist
    {
      if cands[ci].dist < cands[best].dist { best := ci; }
    }
    c := Swapped(cands, from, best);
    SwapKeeps(cands, from, best);
    assert c[..from] == cands[..from];
  }

  lemma SameItems(a: seq<Item>, b: seq<Item>)
    requires multiset(a) == multiset(b)
    ensures forall x :: x in a <==> x in b
  {
    forall x ensures x in a <==> x in b {
      assert x in multiset(a) <==> x in multiset(b);
    }
  }

  /** The visited flags say what is on the trail. */
  ghost predicate Flags(visited: seq<bool>, count: nat, vs: seq<nat>) {
    |visited| == count && forall v: nat | v < count :: visited[v] <==> v in vs
  }

  // ----- What the buffers hold.

  /** The heap holds the nearest of the visited nodes, all of them met as such. */
  ghost predicate Heaped(s: seq<Item>, vs: seq<nat>, q: Query, ef: nat) {
    && |s| == Min(|vs|, ef) && Kept(s, Items(vs, q), ef)
    && forall y | y in s :: y.id in Admitted(vs, q, ef)
  }

  /** The candidate buffer holds the queue. */
  ghost predicate Queued(cands: seq<Item>, vs: seq<nat>, q: Query, ef: nat) {
    multiset(cands) == Items(Queue(vs, q, ef), q)
  }

  lemma QueuedSize(cands: seq<Item>, vs: seq<nat>, q: Query, ef: nat)
    requires Queued(cands, vs, q, ef)
    ensures |cands| == |Queue(vs, q, ef)| <= 4 * ef
  {
    hide Items, Admitted;
    assert |multiset(cands)| == |cands|;
  }

  /** The root of a full heap tells how many visited nodes are nearer. */
  lemma RankOfRoot(s: seq<Item>, vs: seq<nat>, q: Query, ef: nat, d: int)
    requires Distinct(vs) && Heaped(s, vs, q, ef) && ef > 0 && |s| == ef
    ensures d < s[0].dist <==> |Ahead(vs, q, d, true)| < ef
    ensures s[0].dist < d <==> ef <= |Ahead(vs, q, d, false)|
  {
    hide Items, Admitted;
    KeptIsBest(s, Items(vs, q), ef);
    PartOfItems(vs, q, s);
    DistinctSize(Ids(s));
    if s[0].dist <= d { AllAhead(s, vs, q, d, true); }
    if s[0].dist < d { AllAhead(s, vs, q, d, false); }
    if d < s[0].dist { RootIsNotAhead(s, vs, q, ef, d, true); }
    if d <= s[0].dist { RootIsNotAhead(s, vs, q, ef, d, false); }
  }

  /** Nothing in the heap is farther than its root. */
  lemma AllAhead(s: seq<Item>, vs: seq<nat>, q: Query, d: int, ties: bool)
    requires |s| > 0 && IsHeap(s, true) && (s[0].dist < d || (ties && s[0].dist == d))
    requires Distinct(Ids(s)) && forall i | 0 <= i < |s| :: s[i].id in vs && s[i].dist == q(s[i].id)
    ensures |s| <= |Ahead(vs, q, d, ties)|
  {
    var ids := Ids(s);
    forall v | v in Elems(ids) ensures v in Ahead(vs, q, d, ties) {
      var i :| 0 <= i < |ids| && ids[i] == v;
      RootIsLargest(s, i, true);
    }
    DistinctSize(ids);
    SubsetSize(Elems(ids), Ahead(vs, q, d, ties));
  }

  /** All that is nearer is in the heap, and the root is not. */
  lemma RootIsNotAhead(s: seq<Item>, vs: seq<nat>, q: Query, ef: nat, d: int, ties: bool)
    requires |s| > 0 && Best(Items(vs, q), s, ef, true) && (d < s[0].dist || (!ties && d == s[0].dist))
    requires Distinct(Ids(s)) && forall i | 0 <= i < |s| :: s[i].id in vs && s[i].dist == q(s[i].id)
    ensures |Ahead(vs, q, d, ties)| < |s|
  {
    hide Items;
    var ids := Ids(s);
    forall v | v in Ahead(vs, q, d, ties) ensures v in Elems(ids) - {ids[0]} {
      var x := Item(v, q(v));
      ItemsAre(vs, q, x);
      LeftOutIsFar(Items(vs, q), s, ef, x, s[0]);
      var i :| 0 <= i < |s| && s[i] == x;
      assert ids[i] == v;
    }
    DistinctSize(ids);
    assert ids[0] in Elems(ids);
    SubsetSize(Ahead(vs, q, d, ties), Elems(ids) - {ids[0]});
  }

  lemma KeptIsBest(s: seq<Item>, seen: multiset<Item>, k: nat)
    requires Kept(s, seen, k)
    ensures Best(seen, s, k, true)
  {
    HeldIsBest(s, seen, k, true);
  }

  /** The test of a newly met node: among the ef nearest or not. */
  lemma TestIsRank(s: seq<Item>, vs: seq<nat>, q: Query, ef: nat, d: int)
    requires Distinct(vs) && Heaped(s, vs, q, ef) && ef > 0
    ensures |s| < ef || d < s[0].dist <==> |Ahead(vs, q, d, true)| < ef
  {
    hide Items, Admitted, Kept;
    if |s| < ef {
      AheadSize(vs, q, d, true);
    } else {
      RankOfRoot(s, vs, q, ef, d);
    }
  }

  lemma AdmittedSnoc(vs: seq<nat>, q: Query, ef: nat, v: nat)
    ensures Admitted(vs + [v], q, ef) ==
            Admitted(vs, q, ef) + if |Ahead(vs, q, q(v), true)| < ef then [v] else []
  {
    assert (vs + [v])[..|vs|] == vs;
  }

  lemma QueueSnoc(vs: seq<nat>, q: Query, ef: nat, v: nat)
    ensures Queue(vs + [v], q, ef) ==
            if |Ahead(vs, q, q(v), true)| < ef && |Queue(vs, q, ef)| < 4 * ef then Queue(vs, q, ef) + [v]
            else Queue(vs, q, ef)
  {
    hide Admitted;
    AdmittedSnoc(vs, q, ef, v);
  }

  /** A newly visited node enters the result if it is among the ef nearest, and then also the candidates. */
  method Admit(h: array<Item>, size: nat, cands: seq<Item>, v: nat, q: Query, ghost vs: seq<nat>)
    returns (size': nat, cands': seq<Item>)
    requires size <= h.Length && h.Length > 0 && Distinct(vs) && Heaped(h[..size], vs, q, h.Length)
    requires Queued(cands, vs, q, h.Length)
    modifies h
    ensures size' <= h.Length && Heaped(h[..size'], vs + [v], q, h.Length)
    ensures Queued(cands', vs + [v], q, h.Length) && cands <= cands'
  {
    hide Kept, Items, Admitted, Queue;
    var x := Item(v, q(v));
    size', cands' := size, cands;
    ItemsSnoc(vs, q, v);
    AdmittedSnoc(vs, q, h.Length, v);
    QueueSnoc(vs, q, h.Length, v);
    QueuedSize(cands, vs, q, h.Length);
    TestIsRank(h[..size], vs, q, h.Length, x.dist);
    if size < h.Length || x.dist < h[0].dist {
      size' := HeapPushMax(h, size, x, Items(vs, q));
      if |cands| < 4 * h.Length {
        cands' := cands + [x];
        ItemsSnoc(Queue(vs, q, h.Length), q, v);
      }
    } else {
      KeptPassOver(h[..size], Items(vs, q), size, x);
    }
  }

  lemma KeptPassOver(s: seq<Item>, seen: multiset<Item>, k: nat, x: Item)
    requires Kept(s, seen, k) && |s| == k > 0 && s[0].dist <= x.dist
    ensures Kept(s, seen + multiset{x}, k)
  {
    PassOver(s, seen, k, x, true);
  }

  /** The visit of all neighbours of one node. */
  method Explore(h: array<Item>, size0: nat, cands0: seq<Item>, visited0: seq<bool>, g: seq<Node>, count: nat, cur: nat,
                 l: nat, q: Query, ghost vs0: seq<nat>)
    returns (size: nat, cands: seq<Item>, visited: seq<bool>, ghost vs: seq<nat>)
    requires GraphOk(g) && l < MAX_LEVEL && count <= |g| && cur in vs0 && Trail(g, l, count, vs0)
    requires Flags(visited0, count, vs0) && size0 <= h.Length && h.Length > 0
    requires Heaped(h[..size0], vs0, q, h.Length) && Queued(cands0, vs0, q, h.Length)
    modifies h
    ensures Trail(g, l, count, vs) && Flags(visited, count, vs) && cur < |g|
    ensures vs == VisitList(vs0, Nbrs(g, cur, l), count)
    ensures size <= h.Length && Heaped(h[..size], vs, q, h.Length) && Queued(cands, vs, q, h.Length)
    ensures cands0 <= cands
  {
    hide GraphOk, Trail, Queued, Heaped, VisitList;
    size, cands, visited, vs := size0, cands0, visited0, vs0;
    TrailIn(g, l, count, vs0, cur);
    var ns := g[cur].nbrs[l];
    VisitNone(vs0, ns, count);
    for ni := 0 to |ns|
      invariant Trail(g, l, count, vs) && Flags(visited, count, vs) && vs0 <= vs
      invariant vs == VisitList(vs0, ns[..ni], count)
      invariant size <= h.Length && Heaped(h[..size], vs, q, h.Length) && Queued(cands, vs, q, h.Length)
      invariant cands0 <= cands
    {
      var v := ns[ni];
      VisitOne(vs0, ns, ni, count);
      if v < count && !visited[v] {
        visited := visited[v := true];
        assert v in Nbrs(g, cur, l) && cur in vs;
        TrailGrows(g, l, count, vs, cur, v);
        TrailIn(g, l, count, vs, cur);
        size, cands := Admit(h, size, cands, v, q, vs);
        vs := vs + [v];
      }
    }
    assert ns[..|ns|] == ns;
  }

  lemma VisitNone(vs: seq<nat>, ns: seq<nat>, count: nat)
    ensures VisitList(vs, ns[..0], count) == vs
  {
  }

  lemma VisitOne(vs: seq<nat>, ns: seq<nat>, k: nat, count: nat)
    requires k < |ns|
    ensures VisitList(vs, ns[..k + 1], count) ==
            var w := VisitList(vs, ns[..k], count); if ns[k] < count && ns[k] !in w then w + [ns[k]] else w
  {
    assert ns[..k + 1][..k] == ns[..k];
  }

  lemma TrailIn(g: seq<Node>, l: nat, count: nat, vs: seq<nat>, v: nat)
    requires GraphOk(g) && l < MAX_LEVEL && count <= |g| && Trail(g, l, count, vs) && v in vs
    ensures Shape(g) && v < count && l <= g[v].level && |vs| > 0 && Distinct(vs)
  {
  }

  // ----- The search.

  /** Between two turns of the search: xs have been explored, and the buffer holds the queue with xs in front. */
  ghost predicate Searching(g: seq<Node>, l: nat, count: nat, entry: nat, q: Query, ef: nat, cands: seq<Item>,
      xs: seq<nat>, vs: seq<nat>)
    requires Shape(g) && l < MAX_LEVEL
  {
    && InGraph(g, xs) && vs == Visited(g, l, count, entry, xs) && Steps(g, l, count, entry, q, ef, xs)
    && Queued(cands, vs, q, ef) && |xs| <= |cands| && forall i | 0 <= i < |xs| :: cands[i].id == xs[i]
  }

  lemma {:induction false} AdmittedDistinct(vs: seq<nat>, q: Query, ef: nat)
    requires Distinct(vs)
    ensures Distinct(Admitted(vs, q, ef))
  {
    if vs != [] {
      var n := |vs| - 1;
      AdmittedDistinct(vs[..n], q, ef);
      AdmittedSize(vs[..n], q, ef);
      assert vs[n] !in vs[..n];
    }
  }

  /** The unprocessed part of the buffer is what waits. */
  lemma WaitingIs(cands: seq<Item>, vs: seq<nat>, q: Query, ef: nat, xs: seq<nat>)
    requires Distinct(vs) && Queued(cands, vs, q, ef) && |xs| <= |cands|
    requires forall i | 0 <= i < |xs| :: cands[i].id == xs[i]
    ensures forall k | |xs| <= k < |cands| :: Waiting(vs, q, ef, xs, cands[k].id)
    ensures forall k | 0 <= k < |cands| :: cands[k].id in vs && cands[k].dist == q(cands[k].id)
    ensures forall v | Waiting(vs, q, ef, xs, v) :: exists k | |xs| <= k < |cands| :: cands[k].id == v
  {
    hide Items, Admitted;
    var w := Queue(vs, q, ef);
    AdmittedDistinct(vs, q, ef);
    AdmittedSize(vs, q, ef);
    PartOfItems(w, q, cands);
    assert Ids(cands) == Ids(cands);
    forall v | Waiting(vs, q, ef, xs, v) ensures exists k | |xs| <= k < |cands| :: cands[k].id == v {
      var x := Item(v, q(v));
      ItemsAre(w, q, x);
      assert x in multiset(cands);
      var k :| 0 <= k < |cands| && cands[k] == x;
      if k < |xs| { assert false; }
    }
    forall k | |xs| <= k < |cands| ensures Waiting(vs, q, ef, xs, cands[k].id) {
      forall i | 0 <= i < |xs| ensures xs[i] != cands[k].id { assert Ids(cands)[i] != Ids(cands)[k]; }
    }
  }

  /** hnsw_search_level: the ef nearest of the nodes that a best-first search from `entry` on layer l visits. */
  method SearchLevel(h: array<Item>, g: seq<Node>, count: nat, entry: nat, l: nat, q: Query)
    returns (size: nat, ghost xs: seq<nat>, ghost vs: seq<nat>)
    requires GraphOk(g) && l < MAX_LEVEL && entry < count <= |g| && l <= g[entry].level && h.Length > 0
    modifies h
    ensures Shape(g) && SearchRun(g, l, count, entry, q, h.Length, xs, vs)
    ensures Trail(g, l, count, vs) && vs[0] == entry && size == Min(|vs|, h.Length)
    ensures Returned(vs, q, h[..size], h.Length)
    ensures count <= 4 * h.Length ==> Closed(g, l, count, vs, h[..size])
  {
    hide GraphOk, Trail, Queued, Heaped, Searching, Returned, Closed, SearchRun, Flags;
    var visited := seq(count, v => v == entry);
    xs, vs := [], [entry];
    var first := Item(entry, q(entry));
    var cands := [first];
    StartOfSearch(g, l, count, entry, q, h.Length, visited);
    size := PushFirst(h, first, q);
    var idx := 0;
    while idx < |cands|
      invariant idx == |xs| <= |cands| && Shape(g) && Searching(g, l, count, entry, q, h.Length, cands, xs, vs)
      invariant Trail(g, l, count, vs) && Flags(visited, count, vs)
      invariant size <= h.Length && Heaped(h[..size], vs, q, h.Length)
      decreases 4 * h.Length - idx
    {
      SearchRoom(g, l, count, entry, q, h.Length, cands, xs, vs);
      ghost var was := cands;
      cands := PickClosest(cands, idx);
      var cur := cands[idx];
      NextIs(g, l, count, entry, q, h.Length, was, cands, xs, vs, h[..size]);
      if size >= h.Length && cur.dist > h[0].dist {
        StopIsRun(g, l, count, entry, q, h.Length, cands, xs, vs, h[..size]);
        break;
      }
      idx := idx + 1;
      ghost var vs0, cands0 := vs, cands;
      size, cands, visited, vs := Explore(h, size, cands, visited, g, count, cur.id, l, q, vs);
      xs := Step(g, l, count, entry, q, h.Length, cands0, cands, xs, vs0, vs);
    }
    if idx == |cands| { EmptyIsRun(g, l, count, entry, q, h.Length, cands, xs, vs); }
    Finish(g, l, count, entry, q, h.Length, xs, vs, h[..size]);
  }

  method PushFirst(h: array<Item>, first: Item, q: Query) returns (size: nat)
    requires h.Length > 0 && first.dist == q(first.id)
    modifies h
    ensures size <= h.Length && Heaped(h[..size], [first.id], q, h.Length)
  {
    hide HeapFrom;
    assert [first.id][..0] == [] && Items([], q) == multiset{};
    NothingKept(h[..0], h.Length);
    size := HeapPushMax(h, 0, first, multiset{});
    FirstQueue(first.id, q, h.Length);
    assert multiset{} + multiset{first} == multiset{first};
  }

  lemma NothingKept(s: seq<Item>, k: nat)
    requires s == [] && k > 0
    ensures Kept(s, multiset{}, k)
  {
  }

  lemma StartOfSearch(g: seq<Node>, l: nat, count: nat, entry: nat, q: Query, ef: nat, visited: seq<bool>)
    requires GraphOk(g) && l < MAX_LEVEL && entry < count <= |g| && l <= g[entry].level && ef > 0
    requires |visited| == count && forall v: nat | v < count :: visited[v] <==> v == entry
    ensures Shape(g) && Trail(g, l, count, [entry]) && Flags(visited, count, [entry])
    ensures Searching(g, l, count, entry, q, ef, [Item(entry, q(entry))], [], [entry])
  {
    FirstQueue(entry, q, ef);
    assert [entry][..0] == [] && Items([], q) == multiset{};
  }

  lemma SearchRoom(g: seq<Node>, l: nat, count: nat, entry: nat, q: Query, ef: nat, cands: seq<Item>, xs: seq<nat>,
      vs: seq<nat>)
    requires Shape(g) && l < MAX_LEVEL && Searching(g, l, count, entry, q, ef, cands, xs, vs)
    ensures |cands| <= 4 * ef
  {
    QueuedSize(cands, vs, q, ef);
  }

  /** The nearest unprocessed candidate is next, unless ef visited nodes are nearer. */
  lemma NextIs(g: seq<Node>, l: nat, count: nat, entry: nat, q: Query, ef: nat, was: seq<Item>, cands: seq<Item>,
      xs: seq<nat>, vs: seq<nat>, s: seq<Item>)
    requires GraphOk(g) && l < MAX_LEVEL && count <= |g| && Trail(g, l, count, vs) && ef > 0
    requires Searching(g, l, count, entry, q, ef, was, xs, vs) && Heaped(s, vs, q, ef)
    requires |xs| < |was| == |cands| && multiset(cands) == multiset(was) && cands[..|xs|] == was[..|xs|]
    requires forall k | |xs| <= k < |cands| :: cands[|xs|].dist <= cands[k].dist
    ensures Searching(g, l, count, entry, q, ef, cands, xs, vs) && Queued(cands, vs, q, ef)
    ensures cands[|xs|].id in vs && cands[|xs|].dist == q(cands[|xs|].id)
    ensures IsNext(vs, q, ef, xs, cands[|xs|].id) <==> !(|s| >= ef && s[0].dist < cands[|xs|].dist)
  {
    hide Kept, Items, Admitted, GraphOk, Steps, Visited, Waiting;
    var n, cur := |xs|, cands[|xs|];
    assert forall i | 0 <= i < n :: cands[i] == cands[..n][i] == was[..n][i] == was[i];
    WaitingIs(cands, vs, q, ef, xs);
    forall y | Waiting(vs, q, ef, xs, y) ensures q(cur.id) <= q(y) {
      var k :| n <= k < |cands| && cands[k].id == y;
    }
    if |s| >= ef {
      RankOfRoot(s, vs, q, ef, cur.dist);
    } else {
      AheadSize(vs, q, cur.dist, false);
    }
  }

  /** If it is not next, nothing is. */
  lemma StopIsRun(g: seq<Node>, l: nat, count: nat, entry: nat, q: Query, ef: nat, cands: seq<Item>, xs: seq<nat>,
      vs: seq<nat>, s: seq<Item>)
    requires GraphOk(g) && l < MAX_LEVEL && count <= |g| && Trail(g, l, count, vs) && ef > 0
    requires Searching(g, l, count, entry, q, ef, cands, xs, vs) && Heaped(s, vs, q, ef)
    requires |xs| < |cands| && |s| >= ef && s[0].dist < cands[|xs|].dist
    requires forall k | |xs| <= k < |cands| :: cands[|xs|].dist <= cands[k].dist
    ensures SearchRun(g, l, count, entry, q, ef, xs, vs)
  {
    hide Kept, Items, Admitted, GraphOk, Steps, Visited, Waiting;
    WaitingIs(cands, vs, q, ef, xs);
    forall y | Waiting(vs, q, ef, xs, y) ensures ef <= |Ahead(vs, q, q(y), false)| {
      var k :| |xs| <= k < |cands| && cands[k].id == y;
      RankOfRoot(s, vs, q, ef, q(y));
    }
  }

  lemma EmptyIsRun(g: seq<Node>, l: nat, count: nat, entry: nat, q: Query, ef: nat, cands: seq<Item>, xs: seq<nat>,
      vs: seq<nat>)
    requires GraphOk(g) && l < MAX_LEVEL && count <= |g| && Trail(g, l, count, vs)
    requires Searching(g, l, count, entry, q, ef, cands, xs, vs) && |xs| == |cands|
    ensures SearchRun(g, l, count, entry, q, ef, xs, vs)
  {
    hide Items, Admitted, GraphOk, Steps, Visited, Waiting;
    WaitingIs(cands, vs, q, ef, xs);
  }

  /** One more node explored. */
  lemma Step(g: seq<Node>, l: nat, count: nat, entry: nat, q: Query, ef: nat, cands: seq<Item>, cands': seq<Item>,
      xs: seq<nat>, vs: seq<nat>, vs': seq<nat>) returns (xs': seq<nat>)
    requires Shape(g) && l < MAX_LEVEL && Searching(g, l, count, entry, q, ef, cands, xs, vs)
    requires |xs| < |cands| && IsNext(vs, q, ef, xs, cands[|xs|].id) && cands[|xs|].id < |g|
    requires vs' == VisitList(vs, Nbrs(g, cands[|xs|].id, l), count) && Queued(cands', vs', q, ef) && cands <= cands'
    ensures |xs'| == |xs| + 1 <= |cands'| && Searching(g, l, count, entry, q, ef, cands', xs', vs')
  {
    hide Queued, IsNext, VisitList;
    xs' := xs + [cands[|xs|].id];
    assert xs'[..|xs|] == xs;
    forall i | 0 <= i < |xs'| ensures IsNext(Visited(g, l, count, entry, xs'[..i]), q, ef, xs'[..i], xs'[i]) {
      if i < |xs| { assert xs'[..i] == xs[..i]; }
    }
  }

  lemma Finish(g: seq<Node>, l: nat, count: nat, entry: nat, q: Query, ef: nat, xs: seq<nat>, vs: seq<nat>,
      s: seq<Item>)
    requires GraphOk(g) && l < MAX_LEVEL && count <= |g| && Trail(g, l, count, vs) && ef > 0
    requires SearchRun(g, l, count, entry, q, ef, xs, vs) && Heaped(s, vs, q, ef)
    ensures vs[0] == entry && |s| == Min(|vs|, ef) && Returned(vs, q, s, ef)
    ensures count <= 4 * ef ==> Closed(g, l, count, vs, s)
  {
    hide Items, Admitted, Steps, Visited, Closed, Kept;
    EntryIsVisited(g, l, count, entry, q, ef, xs, vs);
    KeptIsBest(s, Items(vs, q), ef);
    if count <= 4 * ef {
      AdmittedSize(vs, q, ef);
      FewVisited(vs, count);
      RunIsClosed(g, l, count, entry, q, ef, xs, vs, s);
    }
  }

  lemma FewVisited(vs: seq<nat>, count: nat)
    requires Distinct(vs) && forall j | 0 <= j < |vs| :: vs[j] < count
    ensures |vs| <= count
  {
    DistinctSize(vs);
    SubsetSize(Elems(vs), Range(count));
  }

  method Nearest(h: array<Item>, from: nat, n: nat) returns (k: nat)
    requires from < n <= h.Length
    ensures from <= k < n && forall b | from <= b < n :: h[k].dist <= h[b].dist
  {
    k := from;
    for j := from + 1 to n
      invariant from <= k < n
      invariant forall b | from <= b < j :: h[k].dist <= h[b].dist
    {
      if h[j].dist < h[k].dist { k := j; }
    }
  }

  /** The first m are in order, and nothing after them is nearer. */
  ghost predicate FrontSorted(s: seq<Item>, m: nat) {
    m <= |s| && forall i, j | 0 <= i < m && i < j < |s| :: s[i].dist <= s[j].dist
  }

  /** Selection sort of the first m of n results. */
  method SelectNearest(h: array<Item>, n: nat, m: nat)
    requires m <= n <= h.Length
    modifies h
    ensures multiset(h[..n]) == multiset(old(h[..n]))
    ensures FrontSorted(h[..n], m)
  {
    hide FrontSorted;
    NoneSorted(h[..n]);
    for i := 0 to m
      invariant multiset(h[..n]) == multiset(old(h[..n]))
      invariant FrontSorted(h[..n], i)
    {
      var k := Nearest(h, i, n);
      ghost var s := h[..n];
      SwapKeeps(s, i, k);
      SelectStep(s, i, k);
      h[i], h[k] := h[k], h[i];
      assert h[..n] == Swapped(s, i, k);
    }
  }

  lemma NoneSorted(s: seq<Item>)
    ensures FrontSorted(s, 0)
  {
  }

  lemma SelectStep(s: seq<Item>, i: nat, k: nat)
    requires FrontSorted(s, i) && i <= k < |s| && forall b | i <= b < |s| :: s[k].dist <= s[b].dist
    ensures FrontSorted(Swapped(s, i, k), i + 1)
  {
  }
}
