/** Top-k selection with a bounded heap, as flat_search and ivf_search of vecindex.c do it. */
module TopK {
  import opened Counting
  import opened Heap

  /** No item of `rest` is better (has a smaller key) than one of `kept`. */
  ghost predicate NoneBetter(rest: multiset<Item>, kept: multiset<Item>, max: bool) {
    forall x, y | x in rest && y in kept :: Key(y, max) <= Key(x, max)
  }

  /** r holds the k best of the candidates. */
  ghost predicate Best(cands: multiset<Item>, r: seq<Item>, k: nat, max: bool) {
    && |r| == Min(k, |cands|)
    && multiset(r) <= cands
    && NoneBetter(cands - multiset(r), multiset(r), max)
  }

  /** Best first. */
  ghost predicate Sorted(r: seq<Item>, max: bool) {
    forall i, j | 0 <= i < j < |r| :: Key(r[i], max) <= Key(r[j], max)
  }

  /** What the selection keeps: everything seen until k items are there, then the k best, as a heap. */
  ghost predicate Held(s: seq<Item>, seen: multiset<Item>, k: nat, max: bool) {
    && |s| <= k
    && (|s| < k ==> multiset(s) == seen)
    && (|s| == k ==> multiset(s) <= seen && IsHeap(s, max) && NoneBetter(seen - multiset(s), multiset(s), max))
  }

  lemma HeldIsBest(s: seq<Item>, seen: multiset<Item>, k: nat, max: bool)
    requires Held(s, seen, k, max)
    ensures Best(seen, s, k, max)
  {
    if |s| < k {
      assert seen - multiset(s) == multiset{};
    } else {
      assert seen == multiset(s) + (seen - multiset(s));
    }
  }

  lemma RootIsWorst(s: seq<Item>, y: Item, max: bool)
    requires IsHeap(s, max) && y in multiset(s)
    ensures |s| > 0 && Key(y, max) <= Key(s[0], max)
  {
    assert y in s;
    var i :| 0 <= i < |s| && s[i] == y;
    RootIsLargest(s, i, max);
  }

  /** A candidate no better than the root is passed over. */
  lemma PassOver(s: seq<Item>, seen: multiset<Item>, k: nat, x: Item, max: bool)
    requires Held(s, seen, k, max) && |s| == k > 0 && Key(s[0], max) <= Key(x, max)
    ensures Held(s, seen + multiset{x}, k, max)
  {
    var m := multiset(s);
    assert (seen + multiset{x}) - m == (seen - m) + multiset{x};
    forall a, b | a in (seen - m) + multiset{x} && b in m ensures Key(b, max) <= Key(a, max) {
      RootIsWorst(s, b, max);
    }
  }

  lemma HeadAndTail(s: seq<Item>)
    requires |s| > 0
    ensures multiset(s) == multiset{s[0]} + multiset(s[1..])
  {
    assert s == [s[0]] + s[1..];
  }

  /** Replacing one kept item moves it to the rest. */
  lemma ReplaceItem(a: Item, x: Item, tail: multiset<Item>, rest: multiset<Item>)
    ensures (multiset{a} + tail + rest + multiset{x}) - (multiset{x} + tail) == rest + multiset{a}
  {
  }

  lemma ReplaceRootItems(s: seq<Item>, seen: multiset<Item>, x: Item)
    requires |s| > 0 && multiset(s) <= seen
    ensures var m' := multiset(s[0 := x]);
            && m' == multiset{x} + multiset(s[1..]) && m' <= seen + multiset{x}
            && (seen + multiset{x}) - m' == (seen - multiset(s)) + multiset{s[0]}
  {
    HeadAndTail(s);
    HeadAndTail(s[0 := x]);
    assert s[0 := x][1..] == s[1..];
    var rest := seen - multiset(s);
    assert seen == multiset(s) + rest;
    ReplaceItem(s[0], x, multiset(s[1..]), rest);
  }

  /** A better candidate takes the root's place, and the heap is mended. */
  lemma TakeRoot(s: seq<Item>, seen: multiset<Item>, k: nat, x: Item, max: bool, t: seq<Item>)
    requires Held(s, seen, k, max) && |s| == k > 0 && Key(x, max) < Key(s[0], max)
    requires |t| == k && IsHeap(t, max) && multiset(t) == multiset(s[0 := x])
    ensures Held(t, seen + multiset{x}, k, max)
  {
    hide HeapFrom, Key;
    ReplaceRootItems(s, seen, x);
    var root, m', rest := s[0], multiset(t), seen - multiset(s);
    assert root in multiset(s);
    forall a, b | a in rest + multiset{root} && b in m' ensures Key(b, max) <= Key(a, max) {
      HeadAndTail(s);
      if b in multiset(s) { RootIsWorst(s, b, max); } else { assert b == x; }
      if a in rest { assert Key(root, max) <= Key(a, max); }
    }
  }

  lemma HeapBelowHalf(s: seq<Item>, max: bool)
    ensures HeapFrom(s, |s| / 2, max)
  {
  }

  /** The heapify loop. */
  method Build(h: array<Item>, k: nat, max: bool)
    requires 0 < k <= h.Length
    modifies h
    ensures multiset(h[..k]) == multiset(old(h[..k])) && h[k..] == old(h[k..]) && IsHeap(h[..k], max)
  {
    HeapBelowHalf(h[..k], max);
    var j := k / 2;
    while j > 0
      invariant 0 <= j <= k / 2
      invariant multiset(h[..k]) == multiset(old(h[..k])) && h[k..] == old(h[k..])
      invariant HeapFrom(h[..k], j, max)
    {
      j := j - 1;
      SiftDown(h, k, j, max);
    }
  }

  /** One candidate: fill the heap, heapify when it is full, then keep only what beats the root. */
  method Offer(h: array<Item>, size: nat, k: nat, x: Item, max: bool, ghost seen: multiset<Item>) returns (size': nat)
    requires size <= k == h.Length && k > 0 && Held(h[..size], seen, k, max)
    modifies h
    ensures size' == Min(size + 1, k) && Held(h[..size'], seen + multiset{x}, k, max)
    ensures size + 1 < k ==> h[..size'] == old(h[..size]) + [x]
  {
    hide Held;
    if size < k {
      size' := size + 1;
      FillOne(h, size, x, max, seen);
    } else {
      size' := size;
      if (if max then x.dist < h[0].dist else x.dist > h[0].dist) {
        BeatRoot(h, x, max, seen);
      } else {
        PassOver(h[..k], seen, k, x, max);
      }
    }
  }

  method FillOne(h: array<Item>, size: nat, x: Item, max: bool, ghost seen: multiset<Item>)
    requires size < h.Length && Held(h[..size], seen, h.Length, max)
    modifies h
    ensures Held(h[..size + 1], seen + multiset{x}, h.Length, max)
    ensures size + 1 < h.Length ==> h[..size + 1] == old(h[..size]) + [x]
  {
    hide HeapFrom;
    ghost var s := h[..size];
    h[size] := x;
    assert h[..size + 1] == s + [x];
    if size + 1 == h.Length {
      Build(h, size + 1, max);
      FullIsHeld(h[..size + 1], seen + multiset{x}, h.Length, max);
    }
  }

  method BeatRoot(h: array<Item>, x: Item, max: bool, ghost seen: multiset<Item>)
    requires h.Length > 0 && Held(h[..h.Length], seen, h.Length, max) && Key(x, max) < Key(h[0], max)
    modifies h
    ensures Held(h[..h.Length], seen + multiset{x}, h.Length, max)
  {
    hide HeapFrom, Key;
    ghost var s := h[..h.Length];
    FullHeldIsHeap(s, seen, h.Length, max);
    h[0] := x;
    assert h[..h.Length] == s[0 := x];
    RestIsHeap(s, x, max);
    hide Held;
    SiftDown(h, h.Length, 0, max);
    TakeRoot(s, seen, h.Length, x, max, h[..h.Length]);
  }

  lemma FullIsHeld(s: seq<Item>, seen: multiset<Item>, k: nat, max: bool)
    requires |s| == k && IsHeap(s, max) && multiset(s) == seen
    ensures Held(s, seen, k, max)
  {
    assert seen - multiset(s) == multiset{};
  }

  lemma RestIsHeap(s: seq<Item>, x: Item, max: bool)
    requires |s| > 0 && IsHeap(s, max)
    ensures HeapFrom(s[0 := x], 1, max)
  {
    var t := s[0 := x];
    forall c: nat | 1 <= c < |s| && 1 <= (c - 1) / 2 ensures Under(t, c, max) {
      assert Under(s, c, max);
    }
  }

  lemma NothingHeld(s: seq<Item>, k: nat, max: bool)
    requires s == [] && k > 0
    ensures Held(s, multiset{}, k, max)
  {
  }

  lemma FullHeldIsHeap(s: seq<Item>, seen: multiset<Item>, k: nat, max: bool)
    requires Held(s, seen, k, max) && |s| == k
    ensures IsHeap(s, max)
  {
  }

  lemma BestOfPermutation(cands: multiset<Item>, a: seq<Item>, b: seq<Item>, k: nat, k0: nat, max: bool)
    requires Best(cands, a, k, max) && multiset(a) == multiset(b) && Min(k, |cands|) == Min(k0, |cands|)
    ensures Best(cands, b, k0, max)
  {
    assert |multiset(a)| == |a| && |multiset(b)| == |b|;
  }

  // ----- Extraction.

  /** No item is worse than b. */
  ghost predicate Within(m: multiset<Item>, b: Item, max: bool) {
    forall y | y in m :: Key(y, max) <= Key(b, max)
  }

  /** Emptying the heap from the root fills the result from the back. */
  method Drain(h: array<Item>, n: nat, max: bool) returns (out: seq<Item>)
    requires n <= h.Length
    modifies h
    ensures multiset(out) == multiset(old(h[..n]))
    ensures IsHeap(old(h[..n]), max) ==> Sorted(out, max)
    ensures n > 0 ==> out != [] && out[|out| - 1] == old(h[0])
  {
    hide Draining, HeapFrom;
    ghost var s0 := h[..n];
    out := [];
    DrainStart(s0, max);
    var i := n;
    while i > 0
      invariant 0 <= i <= n && Draining(s0, h[..i], out, max)
    {
      ghost var s := h[..i];
      var root := PopRoot(h, i, max);
      DrainStep(s0, s, h[..i - 1], out, max);
      out := [root] + out;
      i := i - 1;
    }
    DrainEnd(s0, h[..i], out, max);
  }

  /** In the middle of the extraction: `rest` is still in the heap. */
  ghost predicate Draining(s0: seq<Item>, rest: seq<Item>, out: seq<Item>, max: bool) {
    && multiset(rest) + multiset(out) == multiset(s0)
    && (IsHeap(s0, max) ==>
          IsHeap(rest, max) && Sorted(out, max) && (out != [] ==> Within(multiset(rest), out[0], max)))
    && (if out == [] then rest == s0 else s0 != [] && out[|out| - 1] == s0[0])
  }

  lemma DrainStart(s0: seq<Item>, max: bool)
    ensures Draining(s0, s0, [], max)
  {
    hide HeapFrom;
    NothingIsSorted(max);
  }

  lemma DrainStep(s0: seq<Item>, s: seq<Item>, t: seq<Item>, out: seq<Item>, max: bool)
    requires Draining(s0, s, out, max) && |s| > 0
    requires multiset(t) + multiset{s[0]} == multiset(s) && multiset(t) == multiset(Popped(s))
    requires HeapFrom(Popped(s), 1, max) ==> IsHeap(t, max)
    ensures Draining(s0, t, [s[0]] + out, max)
  {
    hide HeapFrom, Key, Within, Sorted, Popped;
    if IsHeap(s0, max) { DrainOne(s, out, max); }
    MoveItem(multiset(t), s[0], multiset(out));
    Prepended(s[0], out);
  }

  lemma DrainEnd(s0: seq<Item>, rest: seq<Item>, out: seq<Item>, max: bool)
    requires Draining(s0, rest, out, max) && rest == []
    ensures multiset(out) == multiset(s0) && (IsHeap(s0, max) ==> Sorted(out, max))
    ensures s0 != [] ==> out != [] && out[|out| - 1] == s0[0]
  {
    hide HeapFrom, Key, Within, Sorted;
  }

  lemma NothingIsSorted(max: bool)
    ensures Sorted([], max)
  {
  }

  lemma MoveItem(a: multiset<Item>, x: Item, b: multiset<Item>)
    ensures (a + multiset{x}) + b == a + (multiset{x} + b)
  {
  }

  lemma Prepended(x: Item, s: seq<Item>)
    ensures multiset([x] + s) == multiset{x} + multiset(s)
  {
  }

  /** One turn of the extraction: the root leaves, the last item takes its place and sinks. */
  method PopRoot(h: array<Item>, i: nat, max: bool) returns (root: Item)
    requires 0 < i <= h.Length
    modifies h
    ensures root == old(h[0]) && multiset(h[..i - 1]) + multiset{root} == multiset(old(h[..i]))
    ensures multiset(h[..i - 1]) == multiset(Popped(old(h[..i])))
    ensures HeapFrom(Popped(old(h[..i])), 1, max) ==> IsHeap(h[..i - 1], max)
  {
    hide HeapFrom, Popped;
    ghost var s := h[..i];
    PoppedItems(s);
    root := h[0];
    h[0] := h[i - 1];
    PoppedIs(s, h[..i - 1]);
    if i > 1 {
      SiftDown(h, i - 1, 0, max);
    } else {
      NoItemsIsHeap(h[..0], max);
    }
  }

  /** The heap without its root, the last item in its place. */
  ghost function Popped(s: seq<Item>): seq<Item>
    requires |s| > 0
  {
    if |s| == 1 then [] else s[..|s| - 1][0 := s[|s| - 1]]
  }

  lemma PoppedIs(s: seq<Item>, t: seq<Item>)
    requires |s| > 0 && |t| == |s| - 1 && (|t| > 0 ==> t[0] == s[|s| - 1]) && forall i | 1 <= i < |t| :: t[i] == s[i]
    ensures t == Popped(s)
  {
  }

  lemma DrainOne(s: seq<Item>, out: seq<Item>, max: bool)
    requires |s| > 0 && IsHeap(s, max) && Sorted(out, max) && (out != [] ==> Within(multiset(s), out[0], max))
    ensures HeapFrom(Popped(s), 1, max) && Sorted([s[0]] + out, max) && Within(multiset(Popped(s)), s[0], max)
  {
    hide Popped, HeapFrom;
    PoppedItems(s);
    PoppedHeap(s, max);
    assert s[0] in multiset(s);
    forall y | y in multiset(Popped(s)) ensures Key(y, max) <= Key(s[0], max) {
      assert y in multiset(s);
      RootIsWorst(s, y, max);
    }
  }

  lemma NoItemsIsHeap(s: seq<Item>, max: bool)
    requires |s| == 0
    ensures IsHeap(s, max)
  {
  }

  lemma PoppedItems(s: seq<Item>)
    requires |s| > 0
    ensures multiset(Popped(s)) + multiset{s[0]} == multiset(s)
  {
    if |s| == 1 {
      assert s == [s[0]];
    } else {
      var mid := s[1..|s| - 1];
      assert s == [s[0]] + mid + [s[|s| - 1]];
      assert Popped(s) == [s[|s| - 1]] + mid;
    }
  }

  lemma PoppedHeap(s: seq<Item>, max: bool)
    requires |s| > 0 && IsHeap(s, max)
    ensures HeapFrom(Popped(s), 1, max)
  {
    var p := Popped(s);
    forall c: nat | 1 <= c < |p| && 1 <= (c - 1) / 2 ensures Under(p, c, max) {
      assert Under(s, c, max);
    }
  }
}
