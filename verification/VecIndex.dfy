/** The vector index of vecindex.c: distances, flat search, and search of an inverted file. */
module VecIndex {
  import opened Counting
  import opened Heap
  import opened TopK

  type int8 = x: int | -128 <= x < 128

  datatype Entry = Entry(id: nat, vec: seq<int8>)

  const INT32_MAX: int := 0x7FFF_FFFF

  /** int32_t arithmetic. */
  function W32(x: int): (r: int)
    ensures -0x8000_0000 <= r <= INT32_MAX
  {
    (x + 0x8000_0000) % 0x1_0000_0000 - 0x8000_0000
  }

  // ----- Distances.

  /** The exact squared distance, or inner product, of the first n coordinates. */
  function Exact(a: seq<int8>, b: seq<int8>, n: nat, l2: bool): int
    requires n <= |a| && n <= |b|
  {
    if n == 0 then 0 else Exact(a, b, n - 1, l2) + Term(a[n - 1], b[n - 1], l2)
  }

  function Term(x: int, y: int, l2: bool): int {
    if l2 then (x - y) * (x - y) else x * y
  }

  /** dist_l2_sq and dist_ip. */
  function Dist(a: seq<int8>, b: seq<int8>, n: nat, l2: bool): int
    requires n <= |a| && n <= |b|
  {
    if n == 0 then 0 else W32(Dist(a, b, n - 1, l2) + Term(a[n - 1], b[n - 1], l2))
  }

  lemma TermBounds(x: int8, y: int8)
    ensures 0 <= Term(x, y, true) <= 65025 && -16384 <= Term(x, y, false) <= 16384
  {
    var d: int := x as int - y as int;
    assert -255 <= d <= 255;
    SquareBound(d, 255);
    ProductBound(x, y);
  }

  lemma SquareBound(d: int, m: nat)
    requires -(m as int) <= d <= m
    ensures 0 <= d * d <= m * m
  {
    var e := if d < 0 then -d else d;
    assert d * d == e * e;
    assert e * e <= e * m <= m * m;
  }

  lemma ProductBound(x: int, y: int)
    requires -128 <= x <= 128 && -128 <= y <= 128
    ensures -16384 <= x * y <= 16384
  {
    SquareBound(x + y, 256);
    SquareBound(x - y, 256);
    assert (x + y) * (x + y) - (x - y) * (x - y) == 4 * (x * y);
  }

  /** Up to 33025 dimensions no squared distance overflows, and none reaches INT32_MAX; up to 131071 dimensions no
      inner product does. */
  lemma {:induction false} DistIsExact(a: seq<int8>, b: seq<int8>, n: nat, l2: bool)
    requires n <= |a| && n <= |b| && n <= if l2 then 33025 else 131071
    ensures Dist(a, b, n, l2) == Exact(a, b, n, l2)
    ensures if l2 then 0 <= Exact(a, b, n, l2) <= 65025 * n < INT32_MAX
        else -16384 * n <= Exact(a, b, n, l2) <= 16384 * n
  {
    hide Term, W32;
    if n > 0 {
      InRange(Exact(a, b, n, l2));
      DistIsExact(a, b, n - 1, l2);
      TermBounds(a[n - 1], b[n - 1]);
    }
  }

  lemma InRange(x: int)
    ensures -0x8000_0000 <= x <= INT32_MAX ==> W32(x) == x
  {
  }

  /** The squared distance is |a|^2 + |b|^2 - 2 a.b, and 0 exactly for equal vectors. */
  lemma {:induction false} ExactLaws(a: seq<int8>, b: seq<int8>, n: nat)
    requires n <= |a| && n <= |b|
    ensures Exact(a, b, n, true) == Exact(a, a, n, false) + Exact(b, b, n, false) - 2 * Exact(a, b, n, false)
    ensures Exact(a, b, n, true) >= 0 && (Exact(a, b, n, true) == 0 <==> a[..n] == b[..n])
  {
    if n > 0 {
      ExactLaws(a, b, n - 1);
      TermLaws(a[n - 1], b[n - 1]);
      hide Term;
      assert a[..n] == a[..n - 1] + [a[n - 1]] && b[..n] == b[..n - 1] + [b[n - 1]];
    }
  }

  lemma TermLaws(x: int, y: int)
    ensures Term(x, y, true) == Term(x, x, false) + Term(y, y, false) - 2 * Term(x, y, false)
    ensures Term(x, y, true) >= 0 && (Term(x, y, true) == 0 <==> x == y)
  {
    var d := x - y;
    assert d * d == x * x + y * y - 2 * (x * y);
    SquareBound(d, if d < 0 then -d else d);
    if d > 0 { assert d * d >= d; } else if d < 0 { assert d * d >= -d; }
  }

  method ComputeDist(a: seq<int8>, b: seq<int8>, n: nat, l2: bool) returns (sum: int)
    requires n <= |a| && n <= |b|
    ensures sum == Dist(a, b, n, l2)
  {
    sum := 0;
    for i := 0 to n
      invariant sum == Dist(a, b, i, l2)
    {
      var x: int, y: int := a[i], b[i];
      if l2 {
        var d := x - y;
        sum := W32(sum + d * d);
      } else {
        sum := W32(sum + x * y);
      }
    }
  }

  // ----- Candidates.

  function Scored(e: Entry, query: seq<int8>, l2: bool): Item
    requires |e.vec| == |query|
  {
    Item(e.id, Dist(query, e.vec, |query|, l2))
  }

  ghost predicate SameDim(es: seq<Entry>, dim: nat) {
    forall i | 0 <= i < |es| :: |es[i].vec| == dim
  }

  /** The (id, distance) pairs of a list of entries. */
  ghost function Candidates(es: seq<Entry>, query: seq<int8>, l2: bool): (m: multiset<Item>)
    requires SameDim(es, |query|)
    ensures |m| == |es|
  {
    if es == [] then multiset{}
    else Candidates(es[..|es| - 1], query, l2) + multiset{Scored(es[|es| - 1], query, l2)}
  }

  /** The same pairs in scan order. */
  ghost function ScoredAll(es: seq<Entry>, query: seq<int8>, l2: bool): (r: seq<Item>)
    requires SameDim(es, |query|)
    ensures |r| == |es| && forall i | 0 <= i < |es| :: r[i] == Scored(es[i], query, l2)
  {
    seq(|es|, i requires 0 <= i < |es| => Scored(es[i], query, l2))
  }

  lemma CandidatesSnoc(es: seq<Entry>, i: nat, query: seq<int8>, l2: bool)
    requires SameDim(es, |query|) && i < |es|
    ensures Candidates(es[..i + 1], query, l2) == Candidates(es[..i], query, l2) + multiset{Scored(es[i], query, l2)}
  {
    assert es[..i + 1][..i] == es[..i];
  }

  lemma {:induction false} CandidatesAppend(a: seq<Entry>, b: seq<Entry>, query: seq<int8>, l2: bool)
    requires SameDim(a, |query|) && SameDim(b, |query|)
    ensures SameDim(a + b, |query|)
    ensures Candidates(a + b, query, l2) == Candidates(a, query, l2) + Candidates(b, query, l2)
    decreases |b|
  {
    hide Dist, Candidates;
    if b == [] {
      assert a + b == a;
      NoCandidates(b, query, l2, Candidates(a, query, l2));
    } else {
      var n := |b| - 1;
      CandidatesAppend(a, b[..n], query, l2);
      CandidatesSnoc(b, n, query, l2);
      CandidatesSnoc(a + b, |a| + n, query, l2);
      assert b[..n + 1] == b && (a + b)[..|a| + n + 1] == a + b && (a + b)[..|a| + n] == a + b[..n];
      Regroup(Candidates(a, query, l2), Candidates(b[..n], query, l2), multiset{Scored(b[n], query, l2)});
    }
  }

  lemma Regroup(a: multiset<Item>, b: multiset<Item>, c: multiset<Item>)
    ensures a + (b + c) == (a + b) + c
  {
  }

  /** The scan of one list of entries into the heap. */
  method ScanList(h: array<Item>, size0: nat, es: seq<Entry>, query: seq<int8>, l2: bool,
      ghost seen: multiset<Item>) returns (size: nat)
    requires size0 <= h.Length && h.Length > 0 && SameDim(es, |query|) && Held(h[..size0], seen, h.Length, l2)
    modifies h
    ensures size == Min(size0 + |es|, h.Length) && Held(h[..size], seen + Candidates(es, query, l2), h.Length, l2)
    ensures size0 + |es| < h.Length ==> h[..size] == old(h[..size0]) + ScoredAll(es, query, l2)
  {
    hide Held, Dist, Candidates, ScoredAll;
    ghost var s0 := h[..size0];
    assert s0 + ScoredAll(es[..0], query, l2) == s0;
    size := size0;
    NoCandidates(es[..0], query, l2, seen);
    for i := 0 to |es|
      invariant size == Min(size0 + i, h.Length)
      invariant Held(h[..size], seen + Candidates(es[..i], query, l2), h.Length, l2)
      invariant size0 + i < h.Length ==> h[..size] == s0 + ScoredAll(es[..i], query, l2)
    {
      var d := ComputeDist(query, es[i].vec, |query|, l2);
      CandidatesSnoc(es, i, query, l2);
      Regroup(seen, Candidates(es[..i], query, l2), multiset{Item(es[i].id, d)});
      ScoredSnoc(s0, es, i, query, l2);
      size := Offer(h, size, h.Length, Item(es[i].id, d), l2, seen + Candidates(es[..i], query, l2));
    }
    assert es[..|es|] == es;
  }

  lemma ScoredSnoc(s: seq<Item>, es: seq<Entry>, i: nat, query: seq<int8>, l2: bool)
    requires SameDim(es, |query|) && i < |es|
    ensures s + ScoredAll(es[..i + 1], query, l2) == s + ScoredAll(es[..i], query, l2) + [Scored(es[i], query, l2)]
  {
    hide Dist, ScoredAll;
  }

  lemma ScoredJoin(a: seq<Entry>, b: seq<Entry>, query: seq<int8>, l2: bool)
    requires SameDim(a, |query|) && SameDim(b, |query|)
    ensures SameDim(a + b, |query|)
    ensures ScoredAll(a + b, query, l2) == ScoredAll(a, query, l2) + ScoredAll(b, query, l2)
  {
    hide Dist, ScoredAll;
  }

  lemma NoCandidates(es: seq<Entry>, query: seq<int8>, l2: bool, seen: multiset<Item>)
    requires es == []
    ensures seen + Candidates(es, query, l2) == seen
  {
  }

  /** flat_search: the k best of all stored vectors, best first.  L2 keeps a max-heap, inner product a min-heap. */
  method FlatSearch(es: seq<Entry>, query: seq<int8>, k0: nat, l2: bool) returns (out: seq<Item>)
    requires SameDim(es, |query|)
    ensures Best(Candidates(es, query, l2), out, k0, l2) && Sorted(out, l2)
  {
    if k0 == 0 || |es| == 0 {
      out := [];
      return;
    }
    hide Best, Sorted;
    var k := if k0 > |es| then |es| else k0;
    var h := new Item[k](_ => Item(0, 0));
    NothingHeld(h[..0], k, l2);
    var size := ScanList(h, 0, es, query, l2, multiset{});
    ghost var cands := Candidates(es, query, l2);
    assert multiset{} + cands == cands;
    assert h[..size] == h[..k];
    HeldIsBest(h[..size], cands, k, l2);
    FullHeldIsHeap(h[..size], cands, k, l2);
    ghost var kept := h[..size];
    out := Drain(h, size, l2);
    BestOfPermutation(cands, kept, out, k, k0, l2);
  }

  // ----- The inverted file.

  /** The probed lists are distinct and no list left out is nearer. */
  ghost predicate NearestProbes(cdist: seq<int>, probe: seq<nat>) {
    && (forall i | 0 <= i < |probe| :: probe[i] < |cdist|)
    && (forall i, j | 0 <= i < j < |probe| :: probe[i] != probe[j])
    && forall i, c: nat | 0 <= i < |probe| && c < |cdist| && c !in probe :: cdist[probe[i]] <= cdist[c]
  }

  /** The marking of find-the-next-nearest: a chosen list gets distance INT32_MAX. */
  ghost predicate Marked(cdist: seq<int>, cd: seq<int>, probe: seq<nat>) {
    |cd| == |cdist| && forall c: nat | c < |cd| :: cd[c] == if c in probe then INT32_MAX else cdist[c]
  }

  method ArgMin(cd: seq<int>) returns (best: nat)
    requires |cd| > 0
    ensures best < |cd| && forall c | 0 <= c < |cd| :: cd[best] <= cd[c]
    ensures forall c | 0 <= c < best :: cd[best] < cd[c]
  {
    best := 0;
    for c := 1 to |cd|
      invariant best < c
      invariant forall j | 0 <= j < c :: cd[best] <= cd[j]
      invariant forall j | 0 <= j < best :: cd[best] < cd[j]
    {
      if cd[c] < cd[best] {
        best := c;
      }
    }
  }

  /** A list that has not been chosen is still there to choose. */
  lemma SomeListLeft(probe: seq<nat>, n: nat) returns (c: nat)
    requires |probe| < n && (forall i, j | 0 <= i < j < |probe| :: probe[i] != probe[j])
    requires forall i | 0 <= i < |probe| :: probe[i] < n
    ensures c < n && c !in probe
  {
    if forall x: nat | x < n :: x in probe {
      DistinctSize(probe);
      assert Range(n) <= Elems(probe);
      SubsetSize(Range(n), Elems(probe));
    }
    c :| c < n && c !in probe;
  }

  lemma OneMoreProbe(cdist: seq<int>, cd: seq<int>, probe: seq<nat>, best: nat)
    requires NearestProbes(cdist, probe) && Marked(cdist, cd, probe) && |probe| < |cdist|
    requires forall c | 0 <= c < |cdist| :: cdist[c] < INT32_MAX
    requires best < |cd| && forall c | 0 <= c < |cd| :: cd[best] <= cd[c]
    ensures NearestProbes(cdist, probe + [best]) && Marked(cdist, cd[best := INT32_MAX], probe + [best])
  {
    var left := SomeListLeft(probe, |cdist|);
    assert cd[left] < INT32_MAX;
    assert best !in probe;
    var p := probe + [best];
    forall i, c: nat | 0 <= i < |p| && c < |cdist| && c !in p ensures cdist[p[i]] <= cdist[c] {
      if i < |probe| { assert c !in probe; }
    }
  }

  /** The nprobe nearest centroids. */
  method PickProbes(cdist: seq<int>, nprobe: nat) returns (probe: seq<nat>)
    requires nprobe <= |cdist|
    ensures |probe| == nprobe && forall i | 0 <= i < nprobe :: probe[i] < |cdist|
    ensures (forall c | 0 <= c < |cdist| :: cdist[c] < INT32_MAX) ==> NearestProbes(cdist, probe)
  {
    probe := [];
    var cd := cdist;
    while |probe| < nprobe
      invariant |probe| <= nprobe && |cd| == |cdist| && forall i | 0 <= i < |probe| :: probe[i] < |cdist|
      invariant (forall c | 0 <= c < |cdist| :: cdist[c] < INT32_MAX) ==>
                  NearestProbes(cdist, probe) && Marked(cdist, cd, probe)
    {
      var best := ArgMin(cd);
      if forall c | 0 <= c < |cdist| :: cdist[c] < INT32_MAX {
        OneMoreProbe(cdist, cd, probe, best);
      }
      probe, cd := probe + [best], cd[best := INT32_MAX];
    }
  }

  /** An index trained with a full table of centroids. */
  class Ivf {
    const dim: nat
    const l2: bool
    const centroids: seq<seq<int8>>
    const nprobe: nat
    var lists: seq<seq<Entry>>

    ghost predicate Valid()
      reads this
    {
      && 0 < |centroids| == |lists|
      && (forall c | 0 <= c < |centroids| :: |centroids[c]| == dim)
      && (forall c | 0 <= c < |lists| :: SameDim(lists[c], dim))
    }

    constructor (centroids: seq<seq<int8>>, dim: nat, nprobe: nat, l2: bool)
      requires |centroids| > 0 && forall c | 0 <= c < |centroids| :: |centroids[c]| == dim
      ensures Valid() && this.centroids == centroids && this.dim == dim && this.nprobe == nprobe && this.l2 == l2
      ensures forall c | 0 <= c < |lists| :: lists[c] == []
    {
      this.centroids, this.dim, this.nprobe, this.l2 := centroids, dim, nprobe, l2;
      lists := seq(|centroids|, _ => []);
    }

    method CentroidDists(query: seq<int8>) returns (cdist: seq<int>)
      requires Valid() && |query| == dim
      ensures |cdist| == |centroids| && forall c | 0 <= c < |cdist| :: cdist[c] == Dist(query, centroids[c], dim, true)
    {
      cdist := [];
      for c := 0 to |centroids|
        invariant |cdist| == c && forall j | 0 <= j < c :: cdist[j] == Dist(query, centroids[j], dim, true)
      {
        var d := ComputeDist(query, centroids[c], dim, true);
        cdist := cdist + [d];
      }
    }

    /** ivf_add: the vector joins the list of its nearest centroid, the first of several. */
    method Add(id: nat, vec: seq<int8>)
      requires Valid() && |vec| == dim
      modifies this
      ensures Valid()
      ensures exists c: nat | c < |centroids| ::
                && lists == old(lists)[c := old(lists)[c] + [Entry(id, vec)]]
                && (forall j | 0 <= j < |centroids|
                    :: Dist(vec, centroids[c], dim, true) <= Dist(vec, centroids[j], dim, true))
                && (forall j | 0 <= j < c :: Dist(vec, centroids[c], dim, true) < Dist(vec, centroids[j], dim, true))
    {
      hide Dist;
      var cdist := CentroidDists(vec);
      var c := ArgMin(cdist);
      lists := lists[c := lists[c] + [Entry(id, vec)]];
      assert c < |centroids| && lists == old(lists)[c := old(lists)[c] + [Entry(id, vec)]];
    }

    /** ivf_search: the k best of the probed lists; sorted once at least k candidates were seen.  With fewer the heap is
        never built: the first candidate scanned comes last, and only candidates that happen to be scanned in heap order
        are sure to come out sorted. */
    method Search(query: seq<int8>, k: nat) returns (out: seq<Item>, probe: seq<nat>)
      requires Valid() && |query| == dim
      ensures |probe| == (if k == 0 then 0 else Min(nprobe, |centroids|))
          && (forall i | 0 <= i < |probe| :: probe[i] < |lists|)
      ensures SameDim(Gather(lists, probe), dim)
      ensures Best(Candidates(Gather(lists, probe), query, l2), out, k, l2)
      ensures k <= |Gather(lists, probe)| || IsHeap(ScoredAll(Gather(lists, probe), query, l2), l2) ==> Sorted(out, l2)
      ensures 0 < |Gather(lists, probe)| < k ==>
                |out| > 0 && out[|out| - 1] == Scored(Gather(lists, probe)[0], query, l2)
      ensures k > 0 && dim <= 33025 ==>
                exists cdist :: && |cdist| == |centroids| && NearestProbes(cdist, probe)
                                && forall c | 0 <= c < |cdist| :: cdist[c] == Exact(query, centroids[c], dim, true)
    {
      hide Best, Sorted, Held, Dist, Candidates, Exact, NearestProbes, HeapFrom, ScoredAll;
      if k == 0 {
        NoneWanted(Gather(lists, []), query, l2);
        return [], [];
      }
      probe := ChooseProbes(query);
      GatherSameDim(lists, probe, dim);
      var h := new Item[k](_ => Item(0, 0));
      var size := ScanProbes(h, probe, query);
      out := Extract(h, size, l2, Candidates(Gather(lists, probe), query, l2));
    }

    /** The selection of the nprobe nearest lists. */
    method ChooseProbes(query: seq<int8>) returns (probe: seq<nat>)
      requires Valid() && |query| == dim
      ensures |probe| == Min(nprobe, |centroids|) && forall i | 0 <= i < |probe| :: probe[i] < |lists|
      ensures dim <= 33025 ==>
                exists cdist :: && |cdist| == |centroids| && NearestProbes(cdist, probe)
                                && forall c | 0 <= c < |cdist| :: cdist[c] == Exact(query, centroids[c], dim, true)
    {
      hide Dist, Exact, NearestProbes;
      var cdist := CentroidDists(query);
      if dim <= 33025 {
        forall c | 0 <= c < |cdist| ensures cdist[c] == Exact(query, centroids[c], dim, true) && cdist[c] < INT32_MAX {
          DistIsExact(query, centroids[c], dim, true);
        }
      }
      probe := PickProbes(cdist, Min(nprobe, |centroids|));
    }

    method ScanProbes(h: array<Item>, probe: seq<nat>, query: seq<int8>) returns (size: nat)
      requires Valid() && |query| == dim && h.Length > 0 && forall i | 0 <= i < |probe| :: probe[i] < |lists|
      requires SameDim(Gather(lists, probe), dim)
      modifies h
      ensures size == Min(|Gather(lists, probe)|, h.Length)
      ensures Held(h[..size], Candidates(Gather(lists, probe), query, l2), h.Length, l2)
      ensures |Gather(lists, probe)| < h.Length ==> h[..size] == ScoredAll(Gather(lists, probe), query, l2)
    {
      hide Held, Dist, Candidates, ScoredAll;
      size := 0;
      GatherSameDim(lists, probe[..0], dim);
      NoCandidates(Gather(lists, probe[..0]), query, l2, multiset{});
      NothingHeld(h[..0], h.Length, l2);
      for p := 0 to |probe|
        invariant SameDim(Gather(lists, probe[..p]), dim)
        invariant size == Min(|Gather(lists, probe[..p])|, h.Length)
        invariant Held(h[..size], Candidates(Gather(lists, probe[..p]), query, l2), h.Length, l2)
        invariant |Gather(lists, probe[..p])| < h.Length ==>
                    h[..size] == ScoredAll(Gather(lists, probe[..p]), query, l2)
      {
        ghost var before := Gather(lists, probe[..p]);
        assert probe[..p + 1][..p] == probe[..p];
        CandidatesAppend(before, lists[probe[p]], query, l2);
        ScoredJoin(before, lists[probe[p]], query, l2);
        size := ScanList(h, size, lists[probe[p]], query, l2, Candidates(before, query, l2));
      }
      assert probe[..|probe|] == probe;
    }
  }

  /** The extraction loop on what the scan has kept. */
  method Extract(h: array<Item>, size: nat, l2: bool, ghost cands: multiset<Item>) returns (out: seq<Item>)
    requires size <= h.Length && Held(h[..size], cands, h.Length, l2)
    modifies h
    ensures Best(cands, out, h.Length, l2) && (size == h.Length || IsHeap(old(h[..size]), l2) ==> Sorted(out, l2))
    ensures size > 0 ==> out != [] && out[|out| - 1] == old(h[0])
  {
    hide Best, Sorted, Held, HeapFrom;
    ghost var kept := h[..size];
    HeldIsBest(kept, cands, h.Length, l2);
    if size == h.Length { FullHeldIsHeap(kept, cands, h.Length, l2); }
    out := Drain(h, size, l2);
    BestOfPermutation(cands, kept, out, h.Length, h.Length, l2);
  }

  /** Two candidates, the nearer scanned first, and more than two wanted: what comes out is not in order. */
  lemma NearerFirstComesLast(es: seq<Entry>, query: seq<int8>, k: nat, out: seq<Item>)
    requires |es| == 2 < k && SameDim(es, |query|) && Scored(es[0], query, true).dist < Scored(es[1], query, true).dist
    requires Best(Candidates(es, query, true), out, k, true)
    requires out != [] && out[|out| - 1] == Scored(es[0], query, true)
    ensures out == [Scored(es[1], query, true), Scored(es[0], query, true)] && !Sorted(out, true)
  {
    hide Dist;
    var a, b := Scored(es[0], query, true), Scored(es[1], query, true);
    assert es[..1][..0] == [];
    assert Candidates(es, query, true) == multiset{} + multiset{a} + multiset{b};
    assert |out| == 2;
    assert out == [out[0]] + [out[1]];
    assert multiset(out) <= multiset{a, b};
    assert out[0] in multiset(out) && multiset(out)[a] <= 1;
    assert Key(out[0], true) > Key(out[1], true);
  }

  lemma NoneWanted(es: seq<Entry>, query: seq<int8>, l2: bool)
    requires SameDim(es, |query|)
    ensures Best(Candidates(es, query, l2), [], 0, l2) && Sorted([], l2)
  {
  }

  /** The entries of the probed lists, in scan order. */
  ghost function Gather(lists: seq<seq<Entry>>, probe: seq<nat>): seq<Entry>
    requires forall i | 0 <= i < |probe| :: probe[i] < |lists|
  {
    if probe == [] then [] else Gather(lists, probe[..|probe| - 1]) + lists[probe[|probe| - 1]]
  }

  lemma {:induction false} GatherSameDim(lists: seq<seq<Entry>>, probe: seq<nat>, dim: nat)
    requires (forall i | 0 <= i < |probe| :: probe[i] < |lists|)
        && forall c | 0 <= c < |lists| :: SameDim(lists[c], dim)
    ensures SameDim(Gather(lists, probe), dim)
  {
    if probe != [] { GatherSameDim(lists, probe[..|probe| - 1], dim); }
  }
}
