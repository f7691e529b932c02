/** hist_bptree.c as it runs: the tree object, the climbing insertion and the range scan. */
module HistBPTree {
  import opened BPForest
  import opened Counting
  import opened Errno

  /** ks lists, in order, the keys of M that are at least min. */
  ghost predicate KeysFrom(M: map<nat, nat>, min: nat, ks: seq<nat>) {
    StrictlySorted(ks) && forall k :: k in ks <==> k in M && min <= k
  }

  lemma OnlyRange(M: map<nat, nat>, min: nat, ks: seq<nat>)
    requires KeysFrom(M, min, ks)
    ensures forall js | KeysFrom(M, min, js) :: js == ks
  {
    forall js | KeysFrom(M, min, js) ensures js == ks {
      SortedUnique(js, ks);
    }
  }

  ghost function ValuesAt(M: map<nat, nat>, ks: seq<nat>): (vs: seq<nat>)
    requires forall k | k in ks :: k in M
  {
    seq(|ks|, i requires 0 <= i < |ks| => M[ks[i]])
  }

  ghost predicate KeysBetween(M: map<nat, nat>, min: nat, hi: int, ks: seq<nat>) {
    StrictlySorted(ks) && forall k :: k in ks <==> k in M && min <= k < hi
  }

  lemma TakeMore(M: map<nat, nat>, ks: seq<nat>, k: nat, n: nat)
    requires k in M && forall j | j in ks :: j in M
    ensures forall j | j in ks + [k] :: j in M
    ensures Take(ValuesAt(M, ks + [k]), n) ==
            (if |Take(ValuesAt(M, ks), n)| < n then Take(ValuesAt(M, ks), n) + [M[k]] else Take(ValuesAt(M, ks), n))
  {
    assert ValuesAt(M, ks + [k]) == ValuesAt(M, ks) + [M[k]];
  }

  /** The keys of a leaf are all the keys of the index in the leaf's range. */
  lemma LeafHoldsRange(f: Forest, over: Ptr, p: Pending, x: nat, min: nat, ks0: seq<nat>)
    requires Inv(f, over, p) && x < |f.nodes| && f.nodes[x].isLeaf
    requires KeysBetween(f.M, min, f.spans[x].lo, ks0)
    ensures KeysBetween(f.M, min, f.spans[x].hi, ks0 + AtLeast(f.nodes[x].keys, min))
  {
    assert Sound(f, x, over, p);
    var mine := AtLeast(f.nodes[x].keys, min);
    var ks := ks0 + mine;
    AtLeastKeeps(f.nodes[x].keys, min);
    forall i, j | 0 <= i < j < |ks| ensures ks[i] < ks[j] {
      if i < |ks0| <= j {
        assert ks0[i] in ks0 && mine[j - |ks0|] in mine;
      }
    }
    forall k: nat ensures k in ks <==> k in f.M && min <= k < f.spans[x].hi {
      if f.spans[x].lo <= k < f.spans[x].hi {
        OnlyHome(f, over, p, x, k);
      }
    }
  }

  lemma AllKeysBelowTop(f: Forest, over: Ptr, p: Pending)
    requires Inv(f, over, p)
    ensures forall k | k in f.M :: k < TOP
  {
    forall k | k in f.M ensures k < TOP {
      assert Homed(f, k);
      assert Sound(f, f.home[k], over, p);
    }
  }

  /** A strictly sorted sequence is determined by its elements. */
  lemma {:induction false} SortedUnique(a: seq<nat>, b: seq<nat>)
    requires StrictlySorted(a) && StrictlySorted(b) && forall k :: k in a <==> k in b
    ensures a == b
    decreases |a|
  {
    if b != [] { assert b[0] in a; }
    if a != [] {
      var x := a[|a|-1];
      assert x in b;
      var y := b[|b|-1];
      assert y in a;
      assert x == y;
      var a', b' := a[..|a|-1], b[..|b|-1];
      forall k ensures k in a' <==> k in b' {
        assert k in a' <==> k in a && k != x;
        assert k in b' <==> k in b && k != x;
      }
      SortedUnique(a', b');
      assert a == a' + [x] && b == b' + [x];
    }
  }

  /** The shifting loop of leaf_insert_sorted, on the arrays of one leaf with their spare slot. */
  method ShiftIn(ks0: seq<nat>, vs0: seq<nat>, key: nat, val: nat) returns (i: nat, ks: seq<nat>, vs: seq<nat>)
    requires StrictlySorted(ks0) && |vs0| == |ks0| && key !in ks0
    ensures i <= |ks0| && ks == Insert1(ks0, i, key) && vs == Insert1(vs0, i, val)
    ensures (forall j | 0 <= j < i :: ks0[j] < key) && (forall j | i <= j < |ks0| :: key < ks0[j])
  {
    ks, vs := ks0 + [0], vs0 + [0];
    i := |ks0|;
    while i > 0 && ks[i-1] > key
      invariant 0 <= i <= |ks0| && |ks| == |vs| == |ks0| + 1
      invariant forall j | 0 <= j < i :: ks[j] == ks0[j] && vs[j] == vs0[j]
      invariant forall j | i < j < |ks| :: ks[j] == ks0[j-1] && vs[j] == vs0[j-1]
      invariant i < |ks0| ==> key < ks0[i]
    {
      ks, vs := ks[i := ks[i-1]], vs[i := vs[i-1]];
      i := i - 1;
    }
    ks, vs := ks[i := key], vs[i := val];
    assert ks == Insert1(ks0, i, key);
    assert vs == Insert1(vs0, i, val);
  }

  /** The shifting loop of internal_insert, on the arrays of one inner node with their spare slots. */
  method ShiftChild(ks0: seq<nat>, cs0: seq<nat>, pos: nat, sep: nat, right: nat) returns (ks: seq<nat>, cs: seq<nat>)
    requires pos <= |ks0| && |cs0| == |ks0| + 1
    ensures ks == Insert1(ks0, pos, sep) && cs == Insert1(cs0, pos + 1, right)
  {
    ks, cs := ks0 + [0], cs0 + [0];
    var i := |ks0|;
    while i > pos
      invariant pos <= i <= |ks0| && |ks| == |ks0| + 1 && |cs| == |ks0| + 2
      invariant ks[..i] == ks0[..i] && ks[i + 1..] == ks0[i..]
      invariant cs[..i + 1] == cs0[..i + 1] && cs[i + 2..] == cs0[i + 1..]
    {
      ks, cs := ks[i := ks[i - 1]], cs[i + 1 := cs[i]];
      i := i - 1;
    }
    ks, cs := ks[pos := sep], cs[pos + 1 := right];
    assert ks == Insert1(ks0, pos, sep);
    assert cs == Insert1(cs0, pos + 1, right);
  }

  /** The moving loop of split_internal_node. */
  method MoveUpperHalf(ns: seq<Node>, u: nat) returns (ms: seq<Node>)
    requires u < |ns| && 2 <= |ns[u].keys| && |ns[u].children| == |ns[u].keys| + 1
    requires u !in ns[u].children && forall i | 0 <= i < |ns[u].children| :: ns[u].children[i] < |ns|
    ensures ms == SplitInnerNodes(ns, u)
  {
    var x, r := ns[u], |ns|;
    var mid := |x.keys| / 2;
    var ks, cs;
    ks, cs, ms := MoveChildren(ns, x.keys, x.children, mid + 1, r);
    assert u !in cs;
    ms := ms[u := x.(keys := x.keys[..mid], children := x.children[..mid + 1])]
          + [Node(false, ks, [], x.parent, cs, Null)];
  }

  /** Keys and children from `from` on go to a new node r, and the children are told. */
  method MoveChildren(ns: seq<Node>, keys: seq<nat>, children: seq<nat>, from: nat, r: nat)
    returns (ks: seq<nat>, cs: seq<nat>, ms: seq<Node>)
    requires from <= |keys| && |children| == |keys| + 1 && forall i | 0 <= i < |children| :: children[i] < |ns|
    ensures ks == keys[from..] && cs == children[from..] && |ms| == |ns|
    ensures forall n | 0 <= n < |ns| :: ms[n] == if n in cs then ns[n].(parent := At(r)) else ns[n]
  {
    ks, cs, ms := [], [], ns;
    var j := from;
    while j < |keys|
      invariant from <= j <= |keys| && |ms| == |ns|
      invariant ks == keys[from..j] && cs == children[from..j]
      invariant forall n | 0 <= n < |ns| :: ms[n] == if n in cs then ns[n].(parent := At(r)) else ns[n]
    {
      ks, cs := ks + [keys[j]], cs + [children[j]];
      ms := ms[children[j] := ms[children[j]].(parent := At(r))];
      j := j + 1;
    }
    cs := cs + [children[|keys|]];
    ms := ms[children[|keys|] := ms[children[|keys|]].(parent := At(r))];
  }

  ghost function AtLeast(keys: seq<nat>, min: nat): seq<nat> {
    if keys == [] then []
    else
      var last := keys[|keys|-1];
      AtLeast(keys[..|keys|-1], min) + (if min <= last then [last] else [])
  }

  lemma {:induction false} AtLeastKeeps(keys: seq<nat>, min: nat)
    requires StrictlySorted(keys)
    ensures StrictlySorted(AtLeast(keys, min))
    ensures forall k :: k in AtLeast(keys, min) <==> k in keys && min <= k
  {
    if keys != [] {
      var front := keys[..|keys|-1];
      AtLeastKeeps(front, min);
      assert keys == front + [keys[|keys|-1]];
      var kept := AtLeast(front, min);
      forall i | 0 <= i < |kept| ensures kept[i] < keys[|keys|-1] {
        assert kept[i] in front;
      }
    }
  }

  /** out lists the values of the keys ks, up to maxOut. */
  ghost predicate Listed(M: map<nat, nat>, ks: seq<nat>, out: seq<nat>, maxOut: nat) {
    (forall k | k in ks :: k in M) && out == Take(ValuesAt(M, ks), maxOut)
  }

  lemma ListOne(M: map<nat, nat>, ks: seq<nat>, k: nat, out: seq<nat>, maxOut: nat)
    requires Listed(M, ks, out, maxOut) && k in M
    ensures Listed(M, ks + [k], if |out| < maxOut then out + [M[k]] else out, maxOut)
  {
    TakeMore(M, ks, k, maxOut);
  }

  lemma AtLeastSnoc(keys: seq<nat>, i: nat, min: nat, before: seq<nat>)
    requires i < |keys|
    ensures before + AtLeast(keys[..i + 1], min) ==
            before + AtLeast(keys[..i], min) + if min <= keys[i] then [keys[i]] else []
  {
    assert keys[..i + 1][..i] == keys[..i];
    assert before + AtLeast(keys[..i], min) + [] == before + AtLeast(keys[..i], min);
  }

  /** The inner loop of hist_bpt_range_from_seq. */
  method ScanKeys(keys: seq<nat>, vals: seq<nat>, min: nat, maxOut: nat, out0: seq<nat>,
                  ghost M: map<nat, nat>, ghost ks0: seq<nat>) returns (out: seq<nat>)
    requires |keys| == |vals| && forall i | 0 <= i < |keys| :: keys[i] in M && M[keys[i]] == vals[i]
    requires Listed(M, ks0, out0, maxOut)
    ensures Listed(M, ks0 + AtLeast(keys, min), out, maxOut)
  {
    hide Listed, AtLeast;
    out := out0;
    assert ks0 + AtLeast(keys[..0], min) == ks0 by { NoneAtLeast(min); }
    for i := 0 to |keys|
      invariant Listed(M, ks0 + AtLeast(keys[..i], min), out, maxOut)
    {
      AtLeastSnoc(keys, i, min, ks0);
      if keys[i] >= min {
        ListOne(M, ks0 + AtLeast(keys[..i], min), keys[i], out, maxOut);
        if |out| < maxOut {
          out := out + [vals[i]];
        }
      } else {
        assert ks0 + AtLeast(keys[..i], min) + [] == ks0 + AtLeast(keys[..i], min);
      }
    }
    assert keys[..|keys|] == keys;
  }

  lemma NoneAtLeast(min: nat)
    ensures AtLeast([], min) == []
  {
  }

  class Tree {
    var nodes: seq<Node>
    var root: Ptr
    var height: nat
    ghost var spans: seq<Span>
    ghost var M: map<nat, nat>
    ghost var home: map<nat, nat>

    ghost function State(): Forest
      requires root.At?
      reads this
    {
      Forest(nodes, spans, root.i, height, M, home)
    }

    ghost predicate Valid()
      reads this
    {
      if root.Null? then nodes == [] && M == map[] && height == 0
      else Inv(State(), Null, Settled)
    }

    /** Valid, or left by an insertion that ran out of memory with one node too full or one half not hung in. */
    ghost predicate Walkable()
      reads this
    {
      if root.Null? then nodes == [] && M == map[] && height == 0
      else exists over, p :: Inv(State(), over, p)
    }

    /** hist_bpt_init. */
    constructor ()
      ensures Valid() && M == map[]
    {
      nodes, root, height := [], Null, 0;
      spans, M, home := [], map[], map[];
    }

    /** hist_bpt_clear. */
    method Clear()
      modifies this
      ensures Valid() && M == map[]
    {
      nodes, root, height := [], Null, 0;
      spans, M, home := [], map[], map[];
    }

    /** leaf_search. */
    method LeafSearch(key: nat) returns (x: nat)
      requires Valid() && root.At? && key < TOP
      ensures x < |nodes| == |spans| && nodes[x].isLeaf && spans[x].lo <= key < spans[x].hi
    {
      x := root.i;
      while !nodes[x].isLeaf
        invariant x < |nodes| && spans[x].lo <= key < spans[x].hi
        decreases spans[x].h
      {
        assert Sound(State(), x, Null, Settled);
        var i := 0;
        while i < |nodes[x].keys| && key >= nodes[x].keys[i]
          invariant 0 <= i <= |nodes[x].keys|
          invariant i > 0 ==> nodes[x].keys[i-1] <= key
        {
          i := i + 1;
        }
        assert Kid(State(), x, i, Settled);
        x := nodes[x].children[i];
      }
    }

    /** leaf_insert_sorted: the larger keys move one place right, the new key drops in the gap. */
    method LeafInsertSorted(x: nat, key: nat, val: nat)
      requires root.At? && Inv(State(), Null, Settled)
      requires x < |nodes| && nodes[x].isLeaf && spans[x].lo <= key < spans[x].hi && key !in M
      requires key !in nodes[x].keys
      modifies this
      ensures root == old(root) && height == old(height) && |nodes| == old(|nodes|)
      ensures Inv(State(), At(x), Settled)
      ensures nodes[x].isLeaf && |nodes[x].keys| == old(|nodes[x].keys|) + 1
      ensures M == old(M)[key := val]
    {
      assert Sound(State(), x, Null, Settled);
      ghost var f := State();
      var i, ks, vs := ShiftIn(nodes[x].keys, nodes[x].vals, key, val);
      LeafInsertKeeps(f, x, i, key, val);
      nodes := nodes[x := nodes[x].(keys := ks, vals := vs)];
      M, home := M[key := val], home[key := x];
      assert State() == LeafInsert(f, x, i, key, val);
    }

    /** split_leaf_node: the upper half of an overfull leaf moves to a new leaf next to it. */
    method SplitLeafNode(x: nat) returns (r: nat)
      requires root.At? && FullLeaf(State(), x)
      modifies this
      ensures root == old(root) && height == old(height) && M == old(M)
      ensures r == old(|nodes|) && Inv(State(), Null, Split(x, r))
      ensures nodes[x].parent == old(nodes[x].parent)
      ensures x < r < |nodes| == |spans| && nodes[r].keys != [] && nodes[r].keys[0] == spans[r].lo && spans[x].h == 0
    {
      ghost var f := State();
      assert Sound(f, x, At(x), Settled);
      SplitLeafKeeps(f, x);
      r := |nodes|;
      var n := nodes[x];
      var mid := |n.keys| / 2;
      var right := Node(true, n.keys[mid..], n.vals[mid..], n.parent, [], n.next);
      nodes := nodes[x := n.(keys := n.keys[..mid], vals := n.vals[..mid], next := At(r))] + [right];
      spans := SplitLeaf(f, x).spans;
      home := SplitLeaf(f, x).home;
      assert State() == SplitLeaf(f, x);
    }

    /** The scan of the parent for the separator's place. */
    method FindSlot(u: nat, left: nat, right: nat, sep: nat) returns (pos: nat)
      requires root.At? && Inv(State(), Null, Split(left, right)) && nodes[left].parent == At(u)
      requires u < |nodes| && spans[right].lo == sep
      ensures Ready(State(), u, pos, left, right)
    {
      pos := 0;
      while pos < |nodes[u].keys| && nodes[u].keys[pos] <= sep
        invariant 0 <= pos <= |nodes[u].keys|
        invariant forall j | 0 <= j < pos :: nodes[u].keys[j] <= sep
      {
        pos := pos + 1;
      }
      ScanFindsLeft(State(), u, pos, left, right);
    }

    /** internal_insert: keys and children from pos on move one place right. */
    method InternalInsert(u: nat, pos: nat, sep: nat, ghost left: nat, right: nat)
      requires root.At? && Ready(State(), u, pos, left, right) && spans[right].lo == sep
      modifies this
      ensures root == old(root) && height == old(height) && M == old(M) && |nodes| == old(|nodes|)
      ensures Inv(State(), At(u), Settled)
      ensures !nodes[u].isLeaf && |nodes[u].keys| == old(|nodes[u].keys|) + 1
      ensures nodes[u].parent == old(nodes[u].parent) && spans == old(spans)
    {
      ghost var f := State();
      HangKeeps(f, u, pos, left, right);
      var ks, cs := ShiftChild(nodes[u].keys, nodes[u].children, pos, sep, right);
      nodes := nodes[u := nodes[u].(keys := ks, children := cs)];
      nodes := nodes[right := nodes[right].(parent := At(u))];
      assert State() == Hang(f, u, pos, right);
    }

    /** split_internal_node: the middle key is promoted, what lies right of it moves to a new node. */
    method SplitInternalNode(u: nat) returns (promo: nat, r: nat)
      requires root.At? && FullInner(State(), u)
      modifies this
      ensures root == old(root) && height == old(height) && M == old(M)
      ensures r == old(|nodes|) && Inv(State(), Null, Split(u, r)) && spans[r].lo == promo
      ensures nodes[u].parent == old(nodes[u].parent) && spans[u].h == old(spans[u].h)
    {
      ghost var f := State();
      ChildrenPointBack(f, u, At(u));
      SplitInnerKeeps(f, u);
      promo, r := nodes[u].keys[|nodes[u].keys| / 2], |nodes|;
      nodes := MoveUpperHalf(nodes, u);
      spans := SplitInner(f, u).spans;
      assert State() == SplitInner(f, u);
    }

    /** The root itself was split: a new root goes over the two halves. */
    method GrowRoot(left: nat, sep: nat, right: nat)
      requires root == At(left) && Inv(State(), Null, Split(left, right)) && spans[right].lo == sep
      modifies this
      ensures Valid() && M == old(M) && height == old(height) + 1
    {
      ghost var f := State();
      GrowKeeps(f, right);
      var r := |nodes|;
      nodes := nodes[left := nodes[left].(parent := At(r))];
      nodes := nodes[right := nodes[right].(parent := At(r))];
      nodes := nodes + [Node(false, [sep], [], Null, [left, right], Null)];
      spans := spans + [Span(0, TOP, height)];
      root, height := At(r), height + 1;
      assert State() == Grow(f, right);
    }

    method FirstLeaf(key: nat, val: nat)
      requires Valid() && root.Null? && key < TOP
      modifies this
      ensures Valid() && M == map[key := val]
    {
      nodes := [Node(true, [key], [val], Null, [], Null)];
      spans := [Span(0, TOP, 0)];
      root, height := At(0), 1;
      M, home := map[key := val], map[key := 0];
    }

    /** The search of the leaf for the key itself. */
    method FindInLeaf(x: nat, key: nat) returns (i: nat)
      requires x < |nodes|
      ensures i <= |nodes[x].keys|
      ensures i < |nodes[x].keys| ==> nodes[x].keys[i] == key
      ensures i == |nodes[x].keys| ==> key !in nodes[x].keys
    {
      i := 0;
      while i < |nodes[x].keys| && nodes[x].keys[i] != key
        invariant i <= |nodes[x].keys| && key !in nodes[x].keys[..i]
      {
        i := i + 1;
      }
    }

    /** The loop over the ancestors: hang the split-off node, split the parent if that overfills it.  `room` nodes can
        be allocated. */
    method Climb(leaf: nat, newRight: nat, newSep: nat, room: nat) returns (rc: int)
      requires root.At? && Inv(State(), Null, Split(leaf, newRight)) && spans[newRight].lo == newSep
      requires spans[leaf].h == 0
      modifies this
      ensures M == old(M) && (rc == 0 || rc == ENOMEM) && (rc == 0 ==> Valid()) && Walkable()
      ensures room >= old(height) ==> rc == 0
    {
      var left, right, sep := leaf, newRight, newSep;
      var free := room;
      var parent := nodes[left].parent;
      while parent.At?
        invariant root.At? && height == old(height) && M == old(M)
        invariant Inv(State(), Null, Split(left, right)) && spans[right].lo == sep
        invariant parent == nodes[left].parent && free + spans[left].h == room
        decreases height - spans[left].h
      {
        assert Sound(State(), left, Null, Split(left, right));
        var u := parent.i;
        var pos := FindSlot(u, left, right, sep);
        assert Kid(State(), u, pos, Split(left, right)) && Sound(State(), u, Null, Split(left, right));
        InternalInsert(u, pos, sep, left, right);
        if |nodes[u].keys| <= BP_MAX {
          Relax(State(), u);
          return 0;
        }
        assert Sound(State(), u, At(u), Settled);
        if free == 0 {
          return ENOMEM;
        }
        free := free - 1;
        left := u;
        sep, right := SplitInternalNode(u);
        parent := nodes[left].parent;
      }
      assert Sound(State(), left, Null, Split(left, right));
      if free == 0 {
        return ENOMEM;
      }
      GrowRoot(left, sep, right);
      return 0;
    }

    /** hist_bpt_insert when `room` nodes can be allocated.  Out of memory, the binding is made all the same unless it
        would have been the first, and range queries still find all bindings. */
    method Insert(key: nat, val: nat, room: nat) returns (rc: int)
      requires Valid() && key < TOP
      modifies this
      ensures Walkable() && (rc == 0 || rc == ENOMEM)
      ensures rc == 0 ==> Valid() && M == old(M)[key := val]
      ensures rc != 0 ==> room <= old(height) && M == if old(root).Null? then old(M) else old(M)[key := val]
    {
      hide Inv;
      if root.Null? {
        if room == 0 {
          return ENOMEM;
        }
        FirstLeaf(key, val);
        return 0;
      }
      var x := LeafSearch(key);
      OnlyHome(State(), Null, Settled, x, key);
      var i := FindInLeaf(x, key);
      if i < |nodes[x].keys| {
        OverwriteKeeps(State(), x, i, val);
        nodes := nodes[x := nodes[x].(vals := nodes[x].vals[i := val])];
        M := M[key := val];
        assert Inv(State(), Null, Settled);
        return 0;
      }
      LeafInsertSorted(x, key, val);
      if |nodes[x].keys| <= BP_MAX {
        Relax(State(), x);
        return 0;
      }
      if room == 0 {
        assert Inv(State(), At(x), Settled);
        return ENOMEM;
      }
      var right := SplitLeafNode(x);
      rc := Climb(x, right, nodes[right].keys[0], room - 1);
    }

    /** leftmost_leaf. */
    method LeftmostLeaf(ghost over: Ptr, ghost p: Pending) returns (x: nat)
      requires root.At? && Inv(State(), over, p)
      ensures x < |nodes| == |spans| && nodes[x].isLeaf && spans[x].lo == 0
    {
      x := root.i;
      while !nodes[x].isLeaf
        invariant x < |nodes| && spans[x].lo == 0
        decreases spans[x].h
      {
        assert Sound(State(), x, over, p) && Kid(State(), x, 0, p);
        x := nodes[x].children[0];
      }
    }

    /** The pass of hist_bpt_range_from_seq over one leaf. */
    method ScanLeaf(x: nat, min: nat, maxOut: nat, out0: seq<nat>, ghost ks0: seq<nat>,
                    ghost over: Ptr, ghost p: Pending)
      returns (out: seq<nat>, ghost ks: seq<nat>)
      requires root.At? && Inv(State(), over, p) && x < |nodes| && nodes[x].isLeaf
      requires KeysBetween(M, min, spans[x].lo, ks0) && out0 == Take(ValuesAt(M, ks0), maxOut)
      ensures KeysBetween(M, min, spans[x].hi, ks) && out == Take(ValuesAt(M, ks), maxOut)
    {
      assert Sound(State(), x, over, p);
      LeafHoldsRange(State(), over, p, x, min, ks0);
      ks := ks0 + AtLeast(nodes[x].keys, min);
      out := ScanKeys(nodes[x].keys, nodes[x].vals, min, maxOut, out0, M, ks0);
    }

    /** hist_bpt_range_from_seq: the slots of the keys at least min, in key order, up to maxOut. */
    method RangeFromSeq(min: nat, maxOut: nat) returns (out: seq<nat>, ghost ks: seq<nat>)
      requires Walkable()
      ensures KeysFrom(M, min, ks)
      ensures forall js | KeysFrom(M, min, js) :: out == Take(ValuesAt(M, js), maxOut)
    {
      out, ks := [], [];
      if root.Null? {
        assert forall js | KeysFrom(M, min, js) :: js == [] by { OnlyRange(M, min, ks); }
        return;
      }
      ghost var over, p :| Inv(State(), over, p);
      var x := LeftmostLeaf(over, p);
      ghost var bound: int := 0;
      var cur := At(x);
      while cur.At?
        invariant cur.At? ==> cur.i < |nodes| && nodes[cur.i].isLeaf && spans[cur.i].lo == bound
        invariant cur.Null? ==> bound == TOP
        invariant KeysBetween(M, min, bound, ks) && out == Take(ValuesAt(M, ks), maxOut)
        decreases TOP - bound
      {
        assert Sound(State(), cur.i, over, p);
        out, ks := ScanLeaf(cur.i, min, maxOut, out, ks, over, p);
        bound := spans[cur.i].hi;
        cur := nodes[cur.i].next;
      }
      AllKeysBelowTop(State(), over, p);
      OnlyRange(M, min, ks);
    }
  }
}
