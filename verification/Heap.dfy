/** The array heaps of vecindex.c and memory.c. */
module Heap {

  datatype Item = Item(id: nat, dist: int)

  /** What the heap is ordered by: the distance in a max-heap, its negation in a min-heap. */
  function Key(x: Item, max: bool): int { if max then x.dist else -x.dist }

  ghost predicate Under(s: seq<Item>, c: nat, max: bool)
    requires 1 <= c < |s|
  {
    Key(s[c], max) <= Key(s[(c - 1) / 2], max)
  }

  /** Every node whose parent is at least `from` is under its parent. */
  ghost predicate HeapFrom(s: seq<Item>, from: nat, max: bool) {
    forall c: nat | 1 <= c < |s| && from <= (c - 1) / 2 :: Under(s, c, max)
  }

  ghost predicate IsHeap(s: seq<Item>, max: bool) { HeapFrom(s, 0, max) }

  /** The root of a heap has the largest key. */
  lemma {:induction false} RootIsLargest(s: seq<Item>, i: nat, max: bool)
    requires IsHeap(s, max) && i < |s|
    ensures Key(s[i], max) <= Key(s[0], max)
    decreases i
  {
    if i > 0 {
      assert Under(s, i, max);
      RootIsLargest(s, (i - 1) / 2, max);
    }
  }

  function Swapped(s: seq<Item>, i: nat, j: nat): (r: seq<Item>)
    requires i < |s| && j < |s|
    ensures |r| == |s|
  {
    s[i := s[j]][j := s[i]]
  }

  lemma SwapKeeps(s: seq<Item>, i: nat, j: nat)
    requires i < |s| && j < |s|
    ensures multiset(Swapped(s, i, j)) == multiset(s)
  {
  }

  /** All is in order except that the node at `at` may be too small for its children. */
  ghost predicate Sinking(s: seq<Item>, from: nat, at: nat, max: bool) {
    && (forall c: nat | 1 <= c < |s| && from <= (c - 1) / 2 && (c - 1) / 2 != at :: Under(s, c, max))
    && (from < at ==> forall c: nat | 1 <= c < |s| && (c - 1) / 2 == at :: Key(s[c], max) <= Key(s[(at - 1) / 2], max))
  }

  lemma SinkOneLevel(s: seq<Item>, from: nat, at: nat, t: nat, max: bool)
    requires from <= at < t < |s| && (t - 1) / 2 == at && Sinking(s, from, at, max)
    requires Key(s[at], max) < Key(s[t], max)
    requires forall c: nat | 1 <= c < |s| && (c - 1) / 2 == at :: Key(s[c], max) <= Key(s[t], max)
    ensures Sinking(Swapped(s, at, t), from, t, max)
  {
    var r := Swapped(s, at, t);
    forall c: nat | 1 <= c < |s| && from <= (c - 1) / 2 && (c - 1) / 2 != t ensures Under(r, c, max) {
      if (c - 1) / 2 != at { assert Under(s, c, max); }
    }
    forall c: nat | 1 <= c < |r| && (c - 1) / 2 == t ensures Key(r[c], max) <= Key(r[(t - 1) / 2], max) {
      assert Under(s, c, max);
    }
  }

  lemma SinkDone(s: seq<Item>, from: nat, at: nat, max: bool)
    requires from <= at < |s| && Sinking(s, from, at, max)
    requires forall c: nat | 1 <= c < |s| && (c - 1) / 2 == at :: Key(s[c], max) <= Key(s[at], max)
    ensures HeapFrom(s, from, max)
  {
  }

  /** The child the node at i has to sink below, or i itself. */
  method PickTarget(h: array<Item>, n: nat, i: nat, max: bool) returns (t: nat)
    requires i < n <= h.Length
    ensures i <= t < n && (t != i ==> (t - 1) / 2 == i && Key(h[i], max) < Key(h[t], max))
    ensures forall c: nat | 1 <= c < n && (c - 1) / 2 == i :: Key(h[c], max) <= Key(h[t], max)
  {
    t := i;
    var l, r := 2 * i + 1, 2 * i + 2;
    if max {
      if l < n && h[l].dist > h[t].dist { t := l; }
      if r < n && h[r].dist > h[t].dist { t := r; }
    } else {
      if l < n && h[l].dist < h[t].dist { t := l; }
      if r < n && h[r].dist < h[t].dist { t := r; }
    }
    forall c: nat | 1 <= c < n && (c - 1) / 2 == i ensures Key(h[c], max) <= Key(h[t], max) {
      assert c == 2 * i + 1 || c == 2 * i + 2;
    }
  }

  /** heap_swap. */
  method SwapAt(h: array<Item>, n: nat, i: nat, j: nat)
    requires i < n <= h.Length && j < n
    modifies h
    ensures h[..n] == Swapped(old(h[..n]), i, j) && h[n..] == old(h[n..])
    ensures multiset(h[..n]) == multiset(old(h[..n]))
  {
    ghost var s := h[..n];
    SwapKeeps(s, i, j);
    h[i], h[j] := h[j], h[i];
    assert h[..n] == Swapped(s, i, j);
  }

  /** heap_sift_down on the first n elements, and the same loop of heap_push_max. */
  method SiftDown(h: array<Item>, n: nat, from: nat, max: bool)
    requires from < n <= h.Length
    modifies h
    ensures multiset(h[..n]) == multiset(old(h[..n])) && h[n..] == old(h[n..])
    ensures HeapFrom(old(h[..n]), from + 1, max) ==> HeapFrom(h[..n], from, max)
  {
    hide Swapped, Key;
    ghost var s0 := h[..n];
    ghost var fine := HeapFrom(s0, from + 1, max);
    var i := from;
    assert fine ==> Sinking(s0, from, from, max);
    while true
      invariant from <= i < n
      invariant multiset(h[..n]) == multiset(s0) && h[n..] == old(h[n..])
      invariant fine ==> Sinking(h[..n], from, i, max)
      decreases n - i
    {
      var t := PickTarget(h, n, i, max);
      ghost var s := h[..n];
      if t == i {
        if fine { SinkDone(s, from, i, max); }
        break;
      }
      if fine { SinkOneLevel(s, from, i, t, max); }
      SwapAt(h, n, i, t);
      i := t;
    }
  }

  /** All is in order except that the node at `at` may be too large for its parent. */
  ghost predicate Rising(s: seq<Item>, at: nat, max: bool) {
    && (forall c: nat | 1 <= c < |s| && c != at :: Under(s, c, max))
    && (1 <= at ==> forall c: nat | 1 <= c < |s| && (c - 1) / 2 == at :: Key(s[c], max) <= Key(s[(at - 1) / 2], max))
  }

  lemma {:induction false} RiseUnder(s: seq<Item>, at: nat, max: bool, c: nat)
    requires 1 <= at < |s| && Rising(s, at, max) && Key(s[(at - 1) / 2], max) < Key(s[at], max)
    requires 1 <= c < |s| && c != (at - 1) / 2
    ensures Under(Swapped(s, at, (at - 1) / 2), c, max)
  {
    hide Key;
    if c != at { assert Under(s, c, max); }
  }

  lemma {:induction false} RiseGrandchild(s: seq<Item>, at: nat, max: bool, c: nat)
    requires 1 <= at < |s| && Rising(s, at, max) && Key(s[(at - 1) / 2], max) < Key(s[at], max)
    requires 1 <= (at - 1) / 2 && 1 <= c < |s| && (c - 1) / 2 == (at - 1) / 2
    ensures var p, r := (at - 1) / 2, Swapped(s, at, (at - 1) / 2); Key(r[c], max) <= Key(r[(p - 1) / 2], max)
  {
    hide Key;
    assert Under(s, (at - 1) / 2, max);
    if c != at { assert Under(s, c, max); }
  }

  lemma {:induction false} RiseOneLevel(s: seq<Item>, at: nat, max: bool)
    requires 1 <= at < |s| && Rising(s, at, max) && Key(s[(at - 1) / 2], max) < Key(s[at], max)
    ensures Rising(Swapped(s, at, (at - 1) / 2), (at - 1) / 2, max)
  {
    hide Under, Swapped, Key;
    var p := (at - 1) / 2;
    var r := Swapped(s, at, p);
    forall c: nat | 1 <= c < |r| && c != p ensures Under(r, c, max) {
      RiseUnder(s, at, max, c);
    }
    if 1 <= p {
      forall c: nat | 1 <= c < |r| && (c - 1) / 2 == p ensures Key(r[c], max) <= Key(r[(p - 1) / 2], max) {
        RiseGrandchild(s, at, max, c);
      }
    }
  }

  /** The sift-up loop of heap_push_max: the last of n elements finds its place. */
  method SiftUp(h: array<Item>, n: nat)
    requires 0 < n <= h.Length && IsHeap(h[..n - 1], true)
    modifies h
    ensures multiset(h[..n]) == multiset(old(h[..n])) && h[n..] == old(h[n..]) && IsHeap(h[..n], true)
  {
    hide Rising, HeapFrom;
    var i := n - 1;
    assert h[..n][..n - 1] == h[..n - 1];
    AppendedRises(h[..n], true);
    while i > 0
      invariant 0 <= i < n
      invariant multiset(h[..n]) == multiset(old(h[..n])) && h[n..] == old(h[n..])
      invariant Rising(h[..n], i, true)
    {
      var parent := (i - 1) / 2;
      if h[parent].dist >= h[i].dist {
        break;
      }
      RiseOneLevel(h[..n], i, true);
      SwapAt(h, n, i, parent);
      i := parent;
    }
    RiseDone(h[..n], i, true);
  }

  lemma AppendedRises(s: seq<Item>, max: bool)
    requires |s| > 0 && IsHeap(s[..|s| - 1], max)
    ensures Rising(s, |s| - 1, max)
  {
    var t := s[..|s| - 1];
    forall c: nat | 1 <= c < |s| && c != |s| - 1 ensures Under(s, c, max) {
      assert Under(t, c, max);
    }
  }

  lemma RiseDone(s: seq<Item>, at: nat, max: bool)
    requires at < |s| && Rising(s, at, max) && (at > 0 ==> Under(s, at, max))
    ensures IsHeap(s, max)
  {
  }
}
