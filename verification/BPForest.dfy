/** The invariant of the history index (hist_bptree.c), a B+ tree from sequence number to ring slot,
    and the five in-place steps an insertion is made of.  Nodes live in an arena and a pointer is an
    arena index; parent, child and next pointers are kept exactly as the source keeps them. */
module BPForest {
  import opened Counting

  const BP_MAX: nat := 3

  /** Keys are uint64_t: every key lies in [0, TOP). */
  const TOP: nat := 0x1_0000_0000_0000_0000

  datatype Ptr = Null | At(i: nat)

  /** hist_bp_node.  `keys`, `vals` and `children` are the live prefixes of the source's arrays. */
  datatype Node = Node(isLeaf: bool, keys: seq<nat>, vals: seq<nat>, parent: Ptr, children: seq<nat>, next: Ptr)

  /** What the proof knows of a node: the half-open key range it answers for, and its height over the leaves. */
  datatype Span = Span(lo: int, hi: int, h: nat)

  /** An arena with a root, the abstract index M and the leaf that stores each key of M. */
  datatype Forest = Forest(nodes: seq<Node>, spans: seq<Span>, root: nat, height: nat,
                           M: map<nat, nat>, home: map<nat, nat>)

  /** A split half-way up: `right` was split off `left` but is not yet below left's parent. */
  datatype Pending = Settled | Split(left: nat, right: nat)

  predicate StrictlySorted(s: seq<nat>) {
    forall i, j | 0 <= i < j < |s| :: s[i] < s[j]
  }

  // ----- Local invariants.  `over` may hold one key too many.

  ghost predicate Shape(f: Forest, n: nat, over: Ptr)
    requires n < |f.nodes| == |f.spans|
  {
    var x := f.nodes[n];
    && 1 <= |x.keys| <= (if over == At(n) then BP_MAX + 1 else BP_MAX)
    && f.spans[n].h < f.height
    && (x.isLeaf <==> f.spans[n].h == 0)
    && (x.isLeaf ==> |x.vals| == |x.keys| && (n != f.root ==> 2 <= |x.keys|))
    && (!x.isLeaf ==> |x.children| == |x.keys| + 1)
  }

  ghost predicate Ordered(f: Forest, n: nat)
    requires n < |f.nodes| == |f.spans|
  {
    var x := f.nodes[n];
    var s := f.spans[n];
    && 0 <= s.lo < s.hi <= TOP
    && StrictlySorted(x.keys)
    && (forall i | 0 <= i < |x.keys| :: s.lo <= x.keys[i] < s.hi)
    && (!x.isLeaf ==> forall i | 0 <= i < |x.keys| :: s.lo < x.keys[i])
  }

  /** The upper end of the range that c's parent gave to c. */
  ghost function SlotHi(f: Forest, c: nat, p: Pending): int
    requires c < |f.spans| && (p.Split? ==> p.right < |f.spans|)
  {
    if p.Split? && c == p.left then f.spans[p.right].hi else f.spans[c].hi
  }

  ghost predicate Kid(f: Forest, n: nat, i: nat, p: Pending)
    requires n < |f.nodes| == |f.spans| && (p.Split? ==> p.right < |f.spans|)
  {
    var x := f.nodes[n];
    !x.isLeaf && i < |x.children| == |x.keys| + 1 ==>
      var c := x.children[i];
      && c < |f.nodes|
      && (p.Split? ==> c != p.right)
      && f.nodes[c].parent == At(n)
      && f.spans[c].h + 1 == f.spans[n].h
      && f.spans[c].lo == (if i == 0 then f.spans[n].lo else x.keys[i-1])
      && SlotHi(f, c, p) == (if i == |x.keys| then f.spans[n].hi else x.keys[i])
  }

  ghost predicate Up(f: Forest, n: nat, p: Pending)
    requires n < |f.nodes|
  {
    !(p.Split? && n == p.right) ==>
      var u := f.nodes[n].parent;
      && (u == Null <==> n == f.root)
      && (u.At? ==> u.i < |f.nodes| && !f.nodes[u.i].isLeaf && n in f.nodes[u.i].children)
  }

  ghost predicate Chained(f: Forest, n: nat)
    requires n < |f.nodes| == |f.spans|
  {
    f.nodes[n].isLeaf ==>
      var u := f.nodes[n].next;
      && (f.spans[n].hi == TOP <==> u == Null)
      && (u.At? ==> u.i < |f.nodes| && f.nodes[u.i].isLeaf && f.spans[u.i].lo == f.spans[n].hi)
  }

  ghost predicate Apart(f: Forest, a: nat, b: nat)
    requires a < |f.nodes| == |f.spans| && b < |f.nodes|
  {
    f.nodes[a].isLeaf && f.nodes[b].isLeaf && a != b ==>
      f.spans[a].hi <= f.spans[b].lo || f.spans[b].hi <= f.spans[a].lo
  }

  ghost predicate Stored(f: Forest, n: nat)
    requires n < |f.nodes|
  {
    var x := f.nodes[n];
    x.isLeaf ==> forall i | 0 <= i < |x.keys| && i < |x.vals| ::
      x.keys[i] in f.M && f.M[x.keys[i]] == x.vals[i]
  }

  ghost predicate Homed(f: Forest, k: nat)
  {
    k in f.home && f.home[k] < |f.nodes| && f.nodes[f.home[k]].isLeaf && k in f.nodes[f.home[k]].keys
  }

  ghost predicate Rooted(f: Forest, p: Pending) {
    && |f.nodes| == |f.spans|
    && f.root < |f.nodes|
    && (p.Split? ==>
          && p.left < |f.nodes| && p.right < |f.nodes| && p.left != p.right && p.right != f.root
          && f.spans[p.left].h == f.spans[p.right].h && f.spans[p.left].hi == f.spans[p.right].lo
          && (f.nodes[p.left].isLeaf ==> 2 <= |f.nodes[p.left].keys|))
    && f.spans[f.root].lo == 0 && SlotHi(f, f.root, p) == TOP && f.spans[f.root].h + 1 == f.height
  }

  ghost predicate Sound(f: Forest, n: nat, over: Ptr, p: Pending)
    requires n < |f.nodes| == |f.spans|
  {
    Shape(f, n, over) && Ordered(f, n) && Up(f, n, p) && Chained(f, n) && Stored(f, n)
  }

  ghost predicate Inv(f: Forest, over: Ptr, p: Pending) {
    && Rooted(f, p)
    && (forall n: nat | n < |f.nodes| :: Sound(f, n, over, p))
    && (forall n: nat, i: nat | n < |f.nodes| :: Kid(f, n, i, p))
    && (forall a: nat, b: nat | a < |f.nodes| && b < |f.nodes| :: Apart(f, a, b))
    && (forall k | k in f.M :: Homed(f, k))
  }

  // ----- The steps.

  function Insert1<T>(s: seq<T>, i: nat, x: T): (r: seq<T>)
    requires i <= |s|
    ensures |r| == |s| + 1 && r[i] == x
    ensures forall j | 0 <= j < i :: r[j] == s[j]
    ensures forall j | i < j < |r| :: r[j] == s[j-1]
  {
    s[..i] + [x] + s[i..]
  }

  /** leaf_insert_sorted at position i of leaf n. */
  ghost function LeafInsert(f: Forest, n: nat, i: nat, key: nat, val: nat): Forest
    requires n < |f.nodes| && i <= |f.nodes[n].keys| == |f.nodes[n].vals|
  {
    var x := f.nodes[n];
    f.(nodes := f.nodes[n := x.(keys := Insert1(x.keys, i, key), vals := Insert1(x.vals, i, val))],
       M := f.M[key := val], home := f.home[key := n])
  }

  /** split_leaf_node. */
  ghost function SplitLeaf(f: Forest, n: nat): Forest
    requires n < |f.nodes| == |f.spans| && |f.nodes[n].keys| == |f.nodes[n].vals| >= 2
  {
    var x := f.nodes[n];
    var mid := |x.keys| / 2;
    var r := |f.nodes|;
    var sep := x.keys[mid];
    var right := Node(true, x.keys[mid..], x.vals[mid..], x.parent, [], x.next);
    f.(nodes := f.nodes[n := x.(keys := x.keys[..mid], vals := x.vals[..mid], next := At(r))] + [right],
       spans := f.spans[n := f.spans[n].(hi := sep)] + [f.spans[n].(lo := sep)],
       home := map k | k in f.home :: if f.home[k] == n && sep <= k then r else f.home[k])
  }

  /** internal_insert of p.right at position i of node u. */
  ghost function Hang(f: Forest, u: nat, i: nat, right: nat): Forest
    requires u < |f.nodes| == |f.spans| && right < |f.nodes| && right != u
    requires i <= |f.nodes[u].keys| && |f.nodes[u].children| == |f.nodes[u].keys| + 1
    requires 0 <= f.spans[right].lo
  {
    var x := f.nodes[u];
    f.(nodes := f.nodes[u := x.(keys := Insert1(x.keys, i, f.spans[right].lo as nat),
                               children := Insert1(x.children, i + 1, right))]
                       [right := f.nodes[right].(parent := At(u))])
  }

  /** split_internal_node on the arena: node u keeps the lower half, a new node gets the upper half and
      becomes the parent of the children that moved. */
  function SplitInnerNodes(nodes: seq<Node>, u: nat): seq<Node>
    requires u < |nodes| && 2 <= |nodes[u].keys| && |nodes[u].children| == |nodes[u].keys| + 1
  {
    var x := nodes[u];
    var mid := |x.keys| / 2;
    var r := |nodes|;
    seq(r, n requires 0 <= n < r =>
      if n == u then x.(keys := x.keys[..mid], children := x.children[..mid+1])
      else if n in x.children[mid+1..] then nodes[n].(parent := At(r))
      else nodes[n])
    + [Node(false, x.keys[mid+1..], [], x.parent, x.children[mid+1..], Null)]
  }

  ghost function SplitInner(f: Forest, u: nat): Forest
    requires u < |f.nodes| == |f.spans|
    requires 2 <= |f.nodes[u].keys| && |f.nodes[u].children| == |f.nodes[u].keys| + 1
  {
    var promo := f.nodes[u].keys[|f.nodes[u].keys| / 2];
    f.(nodes := SplitInnerNodes(f.nodes, u),
       spans := f.spans[u := f.spans[u].(hi := promo)] + [f.spans[u].(lo := promo)])
  }

  /** The new root over the old one and what was split off it. */
  ghost function Grow(f: Forest, right: nat): Forest
    requires f.root < |f.nodes| == |f.spans| && right < |f.nodes| && 0 <= f.spans[right].lo
  {
    var r := |f.nodes|;
    var top := Node(false, [f.spans[right].lo as nat], [], Null, [f.root, right], Null);
    f.(nodes := f.nodes[f.root := f.nodes[f.root].(parent := At(r))]
                       [right := f.nodes[right].(parent := At(r))] + [top],
       spans := f.spans + [Span(0, TOP, f.height)],
       root := r, height := f.height + 1)
  }

  // ----- Inserting into a leaf.

  ghost predicate Fits(f: Forest, n: nat, i: nat, key: nat) {
    && Inv(f, Null, Settled)
    && n < |f.nodes| && f.nodes[n].isLeaf && f.spans[n].lo <= key < f.spans[n].hi
    && i <= |f.nodes[n].keys| == |f.nodes[n].vals|
    && (forall j | 0 <= j < i :: f.nodes[n].keys[j] < key)
    && (forall j | i <= j < |f.nodes[n].keys| :: key < f.nodes[n].keys[j])
    && key !in f.M
  }

  lemma InsertSorted(ks: seq<nat>, i: nat, key: nat)
    requires StrictlySorted(ks) && i <= |ks|
    requires forall j | 0 <= j < i :: ks[j] < key
    requires forall j | i <= j < |ks| :: key < ks[j]
    ensures StrictlySorted(Insert1(ks, i, key))
  {
  }

  lemma LeafInsertSoundHere(f: Forest, n: nat, i: nat, key: nat, val: nat)
    requires n < |f.nodes| == |f.spans| && Sound(f, n, Null, Settled)
    requires f.nodes[n].isLeaf && f.spans[n].lo <= key < f.spans[n].hi
    requires i <= |f.nodes[n].keys| == |f.nodes[n].vals|
    requires forall j | 0 <= j < i :: f.nodes[n].keys[j] < key
    requires forall j | i <= j < |f.nodes[n].keys| :: key < f.nodes[n].keys[j]
    requires key !in f.M
    ensures Sound(LeafInsert(f, n, i, key, val), n, At(n), Settled)
  {
    var g := LeafInsert(f, n, i, key, val);
    InsertSorted(f.nodes[n].keys, i, key);
    assert Ordered(g, n) && Shape(g, n, At(n));
  }

  lemma LeafInsertSoundElsewhere(f: Forest, n: nat, i: nat, key: nat, val: nat, m: nat)
    requires n < |f.nodes| == |f.spans| && m < |f.nodes| && m != n && Sound(f, m, Null, Settled)
    requires f.nodes[n].isLeaf && i <= |f.nodes[n].keys| == |f.nodes[n].vals| && key !in f.M
    ensures Sound(LeafInsert(f, n, i, key, val), m, At(n), Settled)
  {
  }

  lemma LeafInsertHomed(f: Forest, n: nat, i: nat, key: nat, val: nat, k: nat)
    requires Fits(f, n, i, key) && k in LeafInsert(f, n, i, key, val).M
    ensures Homed(LeafInsert(f, n, i, key, val), k)
  {
    var g := LeafInsert(f, n, i, key, val);
    var ks := f.nodes[n].keys;
    if k == key {
      assert g.nodes[n].keys[i] == key;
    } else {
      assert Homed(f, k);
      if f.home[k] == n {
        var j :| 0 <= j < |ks| && ks[j] == k;
        assert g.nodes[n].keys[if j < i then j else j + 1] == k;
      }
    }
  }

  lemma {:induction false} LeafInsertSoundAt(f: Forest, n: nat, i: nat, key: nat, val: nat, m: nat)
    requires Fits(f, n, i, key) && m < |f.nodes|
    ensures Sound(LeafInsert(f, n, i, key, val), m, At(n), Settled)
  {
    hide Sound;
    assert Sound(f, m, Null, Settled);
    if m == n { LeafInsertSoundHere(f, n, i, key, val); } else { LeafInsertSoundElsewhere(f, n, i, key, val, m); }
  }

  lemma {:induction false} LeafInsertKidAt(f: Forest, n: nat, i: nat, key: nat, val: nat, m: nat, j: nat)
    requires n < |f.nodes| == |f.spans| && f.nodes[n].isLeaf && i <= |f.nodes[n].keys| == |f.nodes[n].vals|
    requires m < |f.nodes| && Kid(f, m, j, Settled)
    ensures Kid(LeafInsert(f, n, i, key, val), m, j, Settled)
  {
  }

  lemma {:induction false} LeafInsertApartAt(f: Forest, n: nat, i: nat, key: nat, val: nat, a: nat, b: nat)
    requires n < |f.nodes| == |f.spans| && i <= |f.nodes[n].keys| == |f.nodes[n].vals|
    requires a < |f.nodes| && b < |f.nodes| && Apart(f, a, b)
    ensures Apart(LeafInsert(f, n, i, key, val), a, b)
  {
  }

  lemma {:induction false} LeafInsertKeeps(f: Forest, n: nat, i: nat, key: nat, val: nat)
    requires Fits(f, n, i, key)
    ensures Inv(LeafInsert(f, n, i, key, val), At(n), Settled)
  {
    hide Sound, Kid, Apart, Homed;
    var g := LeafInsert(f, n, i, key, val);
    forall m: nat | m < |g.nodes| ensures Sound(g, m, At(n), Settled) {
      LeafInsertSoundAt(f, n, i, key, val, m);
    }
    forall m: nat, j: nat | m < |g.nodes| ensures Kid(g, m, j, Settled) {
      assert Kid(f, m, j, Settled);
      LeafInsertKidAt(f, n, i, key, val, m, j);
    }
    forall a: nat, b: nat | a < |g.nodes| && b < |g.nodes| ensures Apart(g, a, b) {
      assert Apart(f, a, b);
      LeafInsertApartAt(f, n, i, key, val, a, b);
    }
    forall k | k in g.M ensures Homed(g, k) {
      LeafInsertHomed(f, n, i, key, val, k);
    }
  }

  // ----- Splitting a leaf.

  ghost predicate FullLeaf(f: Forest, n: nat) {
    Inv(f, At(n), Settled) && n < |f.nodes| && f.nodes[n].isLeaf && BP_MAX < |f.nodes[n].keys|
  }

  lemma SplitLeafSoundLeft(f: Forest, n: nat)
    requires n < |f.nodes| == |f.spans| && f.root < |f.nodes|
    requires Sound(f, n, At(n), Settled) && f.nodes[n].isLeaf && BP_MAX < |f.nodes[n].keys|
    ensures Sound(SplitLeaf(f, n), n, Null, Split(n, |f.nodes|))
  {
    assert f.nodes[n].keys[0] < f.nodes[n].keys[|f.nodes[n].keys| / 2];
  }

  lemma SplitLeafSoundRight(f: Forest, n: nat)
    requires n < |f.nodes| == |f.spans| && f.root < |f.nodes|
    requires Sound(f, n, At(n), Settled) && f.nodes[n].isLeaf && BP_MAX < |f.nodes[n].keys|
    ensures Sound(SplitLeaf(f, n), |f.nodes|, Null, Split(n, |f.nodes|))
  {
    var r := SplitLeaf(f, n).nodes[|f.nodes|];
    assert forall i | 0 <= i < |r.keys| :: r.keys[i] == f.nodes[n].keys[i + |f.nodes[n].keys| / 2];
  }

  lemma SplitLeafSoundElsewhere(f: Forest, n: nat, m: nat)
    requires n < |f.nodes| == |f.spans| && f.root < |f.nodes| && m < |f.nodes| && m != n
    requires f.nodes[n].isLeaf && BP_MAX < |f.nodes[n].keys| == |f.nodes[n].vals|
    requires Sound(f, m, At(n), Settled)
    ensures Sound(SplitLeaf(f, n), m, Null, Split(n, |f.nodes|))
  {
  }

  lemma SplitLeafKid(f: Forest, n: nat, m: nat, j: nat)
    requires n < |f.nodes| == |f.spans| && m <= |f.nodes|
    requires f.nodes[n].isLeaf && BP_MAX < |f.nodes[n].keys| == |f.nodes[n].vals|
    requires m < |f.nodes| ==> Kid(f, m, j, Settled)
    ensures Kid(SplitLeaf(f, n), m, j, Split(n, |f.nodes|))
  {
  }

  lemma SplitLeafApart(f: Forest, n: nat, a: nat, b: nat)
    requires FullLeaf(f, n) && a <= |f.nodes| && b <= |f.nodes|
    requires |f.nodes[n].keys| == |f.nodes[n].vals|
    ensures Apart(SplitLeaf(f, n), a, b)
  {
    assert Sound(f, n, At(n), Settled);
    var a' := if a == |f.nodes| then n else a;
    var b' := if b == |f.nodes| then n else b;
    assert Apart(f, a', b');
  }

  lemma SplitLeafHomed(f: Forest, n: nat, k: nat)
    requires n < |f.nodes| == |f.spans| && Sound(f, n, At(n), Settled)
    requires f.nodes[n].isLeaf && BP_MAX < |f.nodes[n].keys| && Homed(f, k)
    ensures Homed(SplitLeaf(f, n), k)
  {
    var g := SplitLeaf(f, n);
    if f.home[k] == n {
      var ks := f.nodes[n].keys;
      var mid := |ks| / 2;
      var j :| 0 <= j < |ks| && ks[j] == k;
      if j < mid {
        assert g.nodes[n].keys[j] == k;
      } else {
        assert g.nodes[|f.nodes|].keys[j - mid] == k;
      }
    }
  }

  lemma SplitLeafKeeps(f: Forest, n: nat)
    requires FullLeaf(f, n)
    ensures |f.nodes[n].keys| == |f.nodes[n].vals|
    ensures Inv(SplitLeaf(f, n), Null, Split(n, |f.nodes|))
  {
    assert Sound(f, n, At(n), Settled);
    var g := SplitLeaf(f, n);
    var p := Split(n, |f.nodes|);
    forall m: nat | m < |g.nodes| ensures Sound(g, m, Null, p) {
      if m == n {
        SplitLeafSoundLeft(f, n);
      } else if m == |f.nodes| {
        SplitLeafSoundRight(f, n);
      } else {
        assert Sound(f, m, At(n), Settled);
        SplitLeafSoundElsewhere(f, n, m);
      }
    }
    forall m: nat, j: nat | m < |g.nodes| ensures Kid(g, m, j, p) {
      if m < |f.nodes| { assert Kid(f, m, j, Settled); }
      SplitLeafKid(f, n, m, j);
    }
    forall a: nat, b: nat | a < |g.nodes| && b < |g.nodes| ensures Apart(g, a, b) {
      SplitLeafApart(f, n, a, b);
    }
    forall k | k in g.M ensures Homed(g, k) {
      assert Homed(f, k);
      SplitLeafHomed(f, n, k);
    }
  }

  // ----- Hanging the split-off node below its parent.

  /** left sits in slot i of its parent u, and right is about to go beside it. */
  ghost predicate Ready(f: Forest, u: nat, i: nat, left: nat, right: nat) {
    && Inv(f, Null, Split(left, right))
    && u < |f.nodes| && f.nodes[left].parent == At(u)
    && !f.nodes[u].isLeaf
    && i <= |f.nodes[u].keys| && |f.nodes[u].children| == |f.nodes[u].keys| + 1
    && f.nodes[u].children[i] == left
    && u != right
    && 0 <= f.spans[right].lo
  }

  /** The source's scan of the parent (keys at most the separator) stops at left's slot. */
  lemma ScanFindsLeft(f: Forest, u: nat, i: nat, left: nat, right: nat)
    requires Inv(f, Null, Split(left, right)) && f.nodes[left].parent == At(u)
    requires u < |f.nodes| && i <= |f.nodes[u].keys|
    requires forall j | 0 <= j < i :: f.nodes[u].keys[j] <= f.spans[right].lo
    requires i < |f.nodes[u].keys| ==> f.spans[right].lo < f.nodes[u].keys[i]
    ensures Ready(f, u, i, left, right)
  {
    var p := Split(left, right);
    assert Sound(f, left, Null, p) && Sound(f, right, Null, p) && Sound(f, u, Null, p);
    var x := f.nodes[u];
    var j :| 0 <= j < |x.children| && x.children[j] == left;
    assert Kid(f, u, j, p);
  }

  lemma HangOrdered(f: Forest, u: nat, i: nat, left: nat, right: nat)
    requires Rooted(f, Split(left, right)) && u < |f.nodes| && u != right
    requires Ordered(f, u) && Ordered(f, left) && Ordered(f, right)
    requires !f.nodes[u].isLeaf && i <= |f.nodes[u].keys| && |f.nodes[u].children| == |f.nodes[u].keys| + 1
    requires f.nodes[u].children[i] == left && Kid(f, u, i, Split(left, right))
    ensures Ordered(Hang(f, u, i, right), u)
  {
    var ks := f.nodes[u].keys;
    var sep := f.spans[right].lo;
    forall j | 0 <= j < i ensures ks[j] < sep { assert ks[j] <= ks[i-1]; }
    forall j | i <= j < |ks| ensures sep < ks[j] { assert ks[i] <= ks[j]; }
    InsertSorted(ks, i, sep as nat);
  }

  lemma HangSoundHere(f: Forest, u: nat, i: nat, left: nat, right: nat)
    requires Rooted(f, Split(left, right)) && u < |f.nodes| && u != right
    requires Sound(f, u, Null, Split(left, right)) && 0 <= f.spans[right].lo
    requires !f.nodes[u].isLeaf && i <= |f.nodes[u].keys| && |f.nodes[u].children| == |f.nodes[u].keys| + 1
    requires Ordered(Hang(f, u, i, right), u)
    ensures Sound(Hang(f, u, i, right), u, At(u), Settled)
  {
    var g := Hang(f, u, i, right);
    if f.nodes[u].parent == At(u) {
      var j :| 0 <= j < |f.nodes[u].children| && f.nodes[u].children[j] == u;
      assert g.nodes[u].children[if j <= i then j else j + 1] == u;
    }
  }

  lemma HangSoundRight(f: Forest, u: nat, i: nat, left: nat, right: nat)
    requires Rooted(f, Split(left, right)) && u < |f.nodes| && u != right
    requires Sound(f, right, Null, Split(left, right)) && 0 <= f.spans[right].lo
    requires !f.nodes[u].isLeaf && i <= |f.nodes[u].keys| && |f.nodes[u].children| == |f.nodes[u].keys| + 1
    ensures Sound(Hang(f, u, i, right), right, At(u), Settled)
  {
    var g := Hang(f, u, i, right);
    assert g.nodes[u].children[i + 1] == right;
  }

  lemma HangSoundElsewhere(f: Forest, u: nat, i: nat, left: nat, right: nat, m: nat)
    requires Rooted(f, Split(left, right)) && u < |f.nodes| && u != right
    requires m < |f.nodes| && m != u && m != right && Sound(f, m, Null, Split(left, right))
    requires 0 <= f.spans[right].lo
    requires !f.nodes[u].isLeaf && i <= |f.nodes[u].keys| && |f.nodes[u].children| == |f.nodes[u].keys| + 1
    ensures Sound(Hang(f, u, i, right), m, At(u), Settled)
  {
    var g := Hang(f, u, i, right);
    if f.nodes[m].parent == At(u) {
      var j :| 0 <= j < |f.nodes[u].children| && f.nodes[u].children[j] == m;
      assert g.nodes[u].children[if j <= i then j else j + 1] == m;
    }
  }

  lemma {:induction false} HangNodes(f: Forest, u: nat, i: nat, right: nat)
    requires u < |f.nodes| == |f.spans| && right < |f.nodes| && right != u && 0 <= f.spans[right].lo
    requires i <= |f.nodes[u].keys| && |f.nodes[u].children| == |f.nodes[u].keys| + 1
    ensures var g, x := Hang(f, u, i, right), f.nodes[u];
            && |g.nodes| == |f.nodes| && g.spans == f.spans
            && g.nodes[u] == x.(keys := Insert1(x.keys, i, f.spans[right].lo as nat),
                                children := Insert1(x.children, i + 1, right))
            && g.nodes[right] == f.nodes[right].(parent := At(u))
            && forall m | 0 <= m < |f.nodes| && m != u && m != right :: g.nodes[m] == f.nodes[m]
  {
  }

  lemma {:induction false} HangKidHere(f: Forest, u: nat, i: nat, left: nat, right: nat, j: nat)
    requires Ready(f, u, i, left, right)
    ensures Kid(Hang(f, u, i, right), u, j, Settled)
  {
    hide Hang, Apart, Homed, Shape, Up, Chained, Stored;
    var p := Split(left, right);
    var cs := f.nodes[u].children;
    HangNodes(f, u, i, right);
    assert Kid(f, u, i, p);
    if j <= |cs| {
      assert Kid(f, u, if j <= i then j else j - 1, p);
      if j != i && j != i + 1 {
        assert Sound(f, u, Null, p);
        SlotsDiffer(f, u, i, if j < i then j else j - 1, p);
      }
    }
  }

  /** Two slots of one node hold different children. */
  lemma SlotsDiffer(f: Forest, u: nat, i: nat, j: nat, p: Pending)
    requires u < |f.nodes| == |f.spans| && (p.Split? ==> p.right < |f.spans|)
    requires !f.nodes[u].isLeaf && |f.nodes[u].children| == |f.nodes[u].keys| + 1 && Ordered(f, u)
    requires i < |f.nodes[u].children| && j < |f.nodes[u].children| && i != j
    requires Kid(f, u, i, p) && Kid(f, u, j, p)
    ensures f.nodes[u].children[i] != f.nodes[u].children[j]
  {
  }

  lemma HangKidElsewhere(f: Forest, u: nat, i: nat, left: nat, right: nat, m: nat, j: nat)
    requires Rooted(f, Split(left, right)) && u < |f.nodes| && u != right && m < |f.nodes| && m != u
    requires Kid(f, m, j, Split(left, right)) && f.nodes[left].parent == At(u)
    requires !f.nodes[u].isLeaf && i <= |f.nodes[u].keys| && |f.nodes[u].children| == |f.nodes[u].keys| + 1
    requires 0 <= f.spans[right].lo
    ensures Kid(Hang(f, u, i, right), m, j, Settled)
  {
  }

  lemma {:induction false} HangSoundAt(f: Forest, u: nat, i: nat, left: nat, right: nat, m: nat)
    requires Ready(f, u, i, left, right) && m < |f.nodes|
    ensures Sound(Hang(f, u, i, right), m, At(u), Settled)
  {
    hide Kid, Shape, Ordered, Up, Chained, Stored;
    var p := Split(left, right);
    assert Sound(f, left, Null, p) && Sound(f, right, Null, p) && Sound(f, u, Null, p) && Sound(f, m, Null, p);
    if m == u {
      assert Kid(f, u, i, p);
      HangOrdered(f, u, i, left, right);
      HangSoundHere(f, u, i, left, right);
    } else if m == right {
      HangSoundRight(f, u, i, left, right);
    } else {
      HangSoundElsewhere(f, u, i, left, right, m);
    }
  }

  lemma {:induction false} HangKidAt(f: Forest, u: nat, i: nat, left: nat, right: nat, m: nat, j: nat)
    requires Ready(f, u, i, left, right) && m < |f.nodes|
    ensures Kid(Hang(f, u, i, right), m, j, Settled)
  {
    hide Kid, Sound;
    if m == u {
      HangKidHere(f, u, i, left, right, j);
    } else {
      assert Kid(f, m, j, Split(left, right));
      HangKidElsewhere(f, u, i, left, right, m, j);
    }
  }

  /** Hanging touches no leaf but the parent link of the right half. */
  lemma {:induction false} HangLeaves(f: Forest, u: nat, i: nat, right: nat)
    requires u < |f.nodes| == |f.spans| && right < |f.nodes| && right != u && 0 <= f.spans[right].lo
    requires i <= |f.nodes[u].keys| && |f.nodes[u].children| == |f.nodes[u].keys| + 1
    ensures var g := Hang(f, u, i, right);
            && |g.nodes| == |f.nodes| && g.spans == f.spans && g.M == f.M && g.home == f.home
            && g.root == f.root && g.height == f.height
            && (forall a | 0 <= a < |f.nodes| :: g.nodes[a].isLeaf == f.nodes[a].isLeaf)
            && (forall a | 0 <= a < |f.nodes| && a != u :: g.nodes[a].keys == f.nodes[a].keys)
  {
  }

  lemma {:induction false} HangKeeps(f: Forest, u: nat, i: nat, left: nat, right: nat)
    requires Ready(f, u, i, left, right)
    ensures Inv(Hang(f, u, i, right), At(u), Settled)
  {
    hide Sound, Kid, Hang;
    var g := Hang(f, u, i, right);
    HangLeaves(f, u, i, right);
    HangRooted(f, u, i, left, right);
    forall m: nat | m < |g.nodes| ensures Sound(g, m, At(u), Settled) {
      HangSoundAt(f, u, i, left, right, m);
    }
    forall m: nat, j: nat | m < |g.nodes| ensures Kid(g, m, j, Settled) {
      HangKidAt(f, u, i, left, right, m, j);
    }
    forall a: nat, b: nat | a < |g.nodes| && b < |g.nodes| ensures Apart(g, a, b) {
      assert Apart(f, a, b);
    }
    forall k | k in g.M ensures Homed(g, k) {
      assert Homed(f, k);
    }
  }

  lemma {:induction false} HangRooted(f: Forest, u: nat, i: nat, left: nat, right: nat)
    requires Ready(f, u, i, left, right)
    ensures Rooted(Hang(f, u, i, right), Settled)
  {
    hide Kid, Apart, Homed;
    assert Sound(f, left, Null, Split(left, right));
  }

  // ----- Splitting an inner node.

  ghost predicate FullInner(f: Forest, u: nat) {
    && Inv(f, At(u), Settled) && u < |f.nodes| && !f.nodes[u].isLeaf
    && BP_MAX < |f.nodes[u].keys| && |f.nodes[u].children| == |f.nodes[u].keys| + 1
  }

  lemma {:induction false} SplitSorted(ks: seq<nat>, mid: nat)
    requires StrictlySorted(ks) && mid < |ks|
    ensures StrictlySorted(ks[..mid]) && StrictlySorted(ks[mid + 1..])
    ensures (forall i | 0 <= i < mid :: ks[i] < ks[mid]) && forall i | mid < i < |ks| :: ks[mid] < ks[i]
  {
  }

  lemma {:induction false} SplitInnerOrdered(f: Forest, u: nat)
    requires u < |f.nodes| == |f.spans| && Ordered(f, u) && !f.nodes[u].isLeaf
    requires BP_MAX < |f.nodes[u].keys| && |f.nodes[u].children| == |f.nodes[u].keys| + 1
    ensures Ordered(SplitInner(f, u), u) && Ordered(SplitInner(f, u), |f.nodes|)
  {
    hide StrictlySorted;
    var ks := f.nodes[u].keys;
    var mid := |ks| / 2;
    SplitSorted(ks, mid);
    var g := SplitInner(f, u);
    var l, r := g.nodes[u], g.nodes[|f.nodes|];
    assert l.keys == ks[..mid] && r.keys == ks[mid + 1..];
    assert forall i | 0 <= i < |l.keys| :: l.keys[i] == ks[i];
    assert forall i | 0 <= i < |r.keys| :: r.keys[i] == ks[i + mid + 1];
  }

  lemma SplitInnerSoundHalves(f: Forest, u: nat)
    requires u < |f.nodes| == |f.spans| && f.root < |f.nodes|
    requires Sound(f, u, At(u), Settled) && !f.nodes[u].isLeaf
    requires BP_MAX < |f.nodes[u].keys| && |f.nodes[u].children| == |f.nodes[u].keys| + 1
    requires f.nodes[u].parent != At(u) && u !in f.nodes[u].children
    ensures Sound(SplitInner(f, u), u, Null, Split(u, |f.nodes|))
    ensures Sound(SplitInner(f, u), |f.nodes|, Null, Split(u, |f.nodes|))
  {
    SplitInnerOrdered(f, u);
  }

  /** The other nodes change their parent link, if anything. */
  lemma {:induction false} SplitInnerNodeAt(f: Forest, u: nat, m: nat)
    requires u < |f.nodes| == |f.spans| && 2 <= |f.nodes[u].keys| && |f.nodes[u].children| == |f.nodes[u].keys| + 1
    requires m < |f.nodes| && m != u
    ensures var g, mid := SplitInner(f, u), |f.nodes[u].keys| / 2;
            && |g.nodes| == |g.spans| == |f.nodes| + 1 && g.spans[m] == f.spans[m]
            && g.root == f.root && g.height == f.height && g.M == f.M && g.home == f.home
            && g.nodes[m] == (if m in f.nodes[u].children[mid + 1..] then f.nodes[m].(parent := At(|f.nodes|))
                else f.nodes[m])
  {
  }

  /** The two halves. */
  lemma {:induction false} SplitInnerHalves(f: Forest, u: nat)
    requires u < |f.nodes| == |f.spans| && 2 <= |f.nodes[u].keys| && |f.nodes[u].children| == |f.nodes[u].keys| + 1
    ensures var g, x, s := SplitInner(f, u), f.nodes[u], f.spans[u];
            var mid := |x.keys| / 2;
            && |g.nodes| == |g.spans| == |f.nodes| + 1 && g.M == f.M && g.home == f.home
            && g.root == f.root && g.height == f.height
            && g.nodes[u] == x.(keys := x.keys[..mid], children := x.children[..mid + 1])
            && g.nodes[|f.nodes|] == Node(false, x.keys[mid + 1..], [], x.parent, x.children[mid + 1..], Null)
            && g.spans[u] == s.(hi := x.keys[mid]) && g.spans[|f.nodes|] == s.(lo := x.keys[mid])
  {
  }

  lemma {:induction false} SplitInnerUp(f: Forest, u: nat, m: nat)
    requires u < |f.nodes| == |f.spans| && 2 <= |f.nodes[u].keys| && |f.nodes[u].children| == |f.nodes[u].keys| + 1
    requires m < |f.nodes| && m != u && !f.nodes[u].isLeaf && Up(f, m, Settled) && f.root < |f.nodes|
    requires m in f.nodes[u].children ==> f.nodes[m].parent == At(u)
    ensures Up(SplitInner(f, u), m, Split(u, |f.nodes|))
  {
    hide SplitInner;
    var g, r := SplitInner(f, u), |f.nodes|;
    var mid := |f.nodes[u].keys| / 2;
    var cs := f.nodes[u].children;
    SplitInnerNodeAt(f, u, m);
    SplitInnerHalves(f, u);
    if f.nodes[m].parent == At(u) {
      var j :| 0 <= j < |cs| && cs[j] == m;
      if j <= mid {
        assert g.nodes[u].children[j] == m;
      } else {
        assert cs[mid + 1..][j - mid - 1] == m;
      }
    } else {
      NotMoved(cs, mid, m);
      if f.nodes[m].parent.At? { SplitInnerNodeAt(f, u, f.nodes[m].parent.i); }
    }
  }

  lemma {:induction false} NotMoved(cs: seq<nat>, mid: nat, m: nat)
    requires mid < |cs| && m !in cs
    ensures m !in cs[mid + 1..]
  {
  }

  lemma {:induction false} SplitInnerSoundElsewhere(f: Forest, u: nat, m: nat)
    requires u < |f.nodes| == |f.spans| && f.root < |f.nodes| && m < |f.nodes| && m != u
    requires Sound(f, m, At(u), Settled) && !f.nodes[u].isLeaf
    requires BP_MAX < |f.nodes[u].keys| && |f.nodes[u].children| == |f.nodes[u].keys| + 1
    requires m in f.nodes[u].children ==> f.nodes[m].parent == At(u)
    ensures Sound(SplitInner(f, u), m, Null, Split(u, |f.nodes|))
  {
    hide SplitInner, Up;
    SplitInnerNodeAt(f, u, m);
    SplitInnerUp(f, u, m);
    if f.nodes[m].isLeaf && f.nodes[m].next.At? { SplitInnerNodeAt(f, u, f.nodes[m].next.i); }
  }

  lemma {:induction false} SplitInnerKidLeft(f: Forest, u: nat, j: nat)
    requires FullInner(f, u)
    ensures Kid(SplitInner(f, u), u, j, Split(u, |f.nodes|))
  {
    hide SplitInner, Sound;
    var cs := f.nodes[u].children;
    var mid := |f.nodes[u].keys| / 2;
    SplitInnerHalves(f, u);
    if j <= mid {
      FirstHalfStays(f, u, j);
      assert Kid(f, u, j, Settled);
      ChildrenPointBack(f, u, At(u));
      SplitInnerNodeAt(f, u, cs[j]);
    }
  }

  /** A child of the left half is not among those that move. */
  lemma {:induction false} FirstHalfStays(f: Forest, u: nat, j: nat)
    requires FullInner(f, u) && j <= |f.nodes[u].keys| / 2
    ensures f.nodes[u].children[j] !in f.nodes[u].children[|f.nodes[u].keys| / 2 + 1..]
  {
    hide Kid;
    var cs := f.nodes[u].children;
    assert Sound(f, u, At(u), Settled);
    assert Kid(f, u, j, Settled);
    forall i | |f.nodes[u].keys| / 2 < i < |cs| ensures cs[i] != cs[j] {
      assert Kid(f, u, i, Settled);
      SlotsDiffer(f, u, i, j, Settled);
    }
  }

  lemma {:induction false} SplitInnerKidRight(f: Forest, u: nat, j: nat)
    requires u < |f.nodes| == |f.spans| && !f.nodes[u].isLeaf && u !in f.nodes[u].children
    requires BP_MAX < |f.nodes[u].keys| && |f.nodes[u].children| == |f.nodes[u].keys| + 1
    requires Kid(f, u, j + |f.nodes[u].keys| / 2 + 1, Settled)
    ensures Kid(SplitInner(f, u), |f.nodes|, j, Split(u, |f.nodes|))
  {
    hide SplitInner;
    var cs := f.nodes[u].children;
    var mid := |f.nodes[u].keys| / 2;
    SplitInnerHalves(f, u);
    if j + mid + 1 < |cs| {
      assert cs[mid + 1..][j] == cs[j + mid + 1];
      SplitInnerNodeAt(f, u, cs[j + mid + 1]);
    }
  }

  lemma {:induction false} SplitInnerKidElsewhere(f: Forest, u: nat, m: nat, j: nat)
    requires u < |f.nodes| == |f.spans| && m < |f.nodes| && m != u
    requires !f.nodes[u].isLeaf && BP_MAX < |f.nodes[u].keys| && |f.nodes[u].children| == |f.nodes[u].keys| + 1
    requires forall i | 0 <= i < |f.nodes[u].children| ::
               f.nodes[u].children[i] < |f.nodes| && f.nodes[f.nodes[u].children[i]].parent == At(u)
    requires Kid(f, m, j, Settled)
    ensures Kid(SplitInner(f, u), m, j, Split(u, |f.nodes|))
  {
    hide SplitInner;
    var cs := f.nodes[u].children;
    SplitInnerNodeAt(f, u, m);
    SplitInnerHalves(f, u);
    if !f.nodes[m].isLeaf && j < |f.nodes[m].children| == |f.nodes[m].keys| + 1 {
      var c := f.nodes[m].children[j];
      assert c !in cs;
      NotMoved(cs, |f.nodes[u].keys| / 2, c);
      if c != u { SplitInnerNodeAt(f, u, c); }
    }
  }

  /** The children of u point back at u, and u is not among them. */
  lemma ChildrenPointBack(f: Forest, u: nat, over: Ptr)
    requires Inv(f, over, Settled) && u < |f.nodes| && !f.nodes[u].isLeaf
    requires |f.nodes[u].children| == |f.nodes[u].keys| + 1
    ensures forall i | 0 <= i < |f.nodes[u].children| ::
              f.nodes[u].children[i] < |f.nodes| && f.nodes[f.nodes[u].children[i]].parent == At(u)
    ensures u !in f.nodes[u].children
  {
    forall i | 0 <= i < |f.nodes[u].children|
      ensures f.nodes[u].children[i] < |f.nodes| && f.nodes[f.nodes[u].children[i]].parent == At(u)
      ensures f.nodes[u].children[i] != u
    {
      assert Kid(f, u, i, Settled);
    }
  }

  lemma {:induction false} SplitInnerSoundAt(f: Forest, u: nat, m: nat)
    requires FullInner(f, u) && m <= |f.nodes|
    ensures Sound(SplitInner(f, u), m, Null, Split(u, |f.nodes|))
  {
    hide Kid, Shape, Ordered, Chained, Stored, SplitInner;
    assert Sound(f, u, At(u), Settled);
    ChildrenPointBack(f, u, At(u));
    if m == u || m == |f.nodes| {
      SplitInnerSoundHalves(f, u);
    } else {
      assert Sound(f, m, At(u), Settled);
      SplitInnerSoundElsewhere(f, u, m);
    }
  }

  lemma {:induction false} SplitInnerKidAt(f: Forest, u: nat, m: nat, j: nat)
    requires FullInner(f, u) && m <= |f.nodes|
    ensures Kid(SplitInner(f, u), m, j, Split(u, |f.nodes|))
  {
    hide Kid, Sound, SplitInner;
    ChildrenPointBack(f, u, At(u));
    if m == u {
      SplitInnerKidLeft(f, u, j);
    } else if m == |f.nodes| {
      assert Kid(f, u, j + |f.nodes[u].keys| / 2 + 1, Settled);
      SplitInnerKidRight(f, u, j);
    } else {
      assert Kid(f, m, j, Settled);
      SplitInnerKidElsewhere(f, u, m, j);
    }
  }

  lemma {:induction false} SplitInnerRooted(f: Forest, u: nat)
    requires FullInner(f, u)
    ensures Rooted(SplitInner(f, u), Split(u, |f.nodes|))
  {
    hide Sound, Kid, Apart, Homed;
  }

  lemma {:induction false} SplitInnerKeeps(f: Forest, u: nat)
    requires FullInner(f, u)
    ensures Inv(SplitInner(f, u), Null, Split(u, |f.nodes|))
  {
    hide Sound, Kid, SplitInner;
    var g := SplitInner(f, u);
    var r := |f.nodes|;
    var p := Split(u, r);
    SplitInnerHalves(f, u);
    SplitInnerRooted(f, u);
    forall m: nat | m < |g.nodes| ensures Sound(g, m, Null, p) {
      SplitInnerSoundAt(f, u, m);
    }
    forall m: nat, j: nat | m < |g.nodes| ensures Kid(g, m, j, p) {
      SplitInnerKidAt(f, u, m, j);
    }
    forall a: nat, b: nat | a < |g.nodes| && b < |g.nodes| ensures Apart(g, a, b) {
      if a < r && a != u { SplitInnerNodeAt(f, u, a); }
      if b < r && b != u { SplitInnerNodeAt(f, u, b); }
      if a < r && b < r { assert Apart(f, a, b); }
    }
    forall k | k in g.M ensures Homed(g, k) {
      assert Homed(f, k);
      SplitInnerNodeAt(f, u, f.home[k]);
    }
  }

  // ----- Growing a new root.

  lemma GrowSound(f: Forest, right: nat, m: nat)
    requires Rooted(f, Split(f.root, right)) && 0 <= f.spans[right].lo
    requires m < |f.nodes| && Sound(f, m, Null, Split(f.root, right))
    ensures Sound(Grow(f, right), m, Null, Settled)
  {
    var g := Grow(f, right);
    assert g.nodes[|f.nodes|].children[0] == f.root;
    assert g.nodes[|f.nodes|].children[1] == right;
  }

  lemma GrowKid(f: Forest, right: nat, m: nat, j: nat)
    requires Rooted(f, Split(f.root, right)) && 0 <= f.spans[right].lo
    requires m < |f.nodes| && Kid(f, m, j, Split(f.root, right))
    requires f.nodes[f.root].parent == Null
    ensures Kid(Grow(f, right), m, j, Settled)
  {
  }

  lemma GrowTop(f: Forest, right: nat)
    requires Rooted(f, Split(f.root, right)) && 0 < f.spans[right].lo < TOP
    ensures Sound(Grow(f, right), |f.nodes|, Null, Settled)
    ensures Kid(Grow(f, right), |f.nodes|, 0, Settled) && Kid(Grow(f, right), |f.nodes|, 1, Settled)
  {
  }

  lemma {:induction false} GrowSoundAt(f: Forest, right: nat, m: nat)
    requires Inv(f, Null, Split(f.root, right)) && 0 < f.spans[right].lo < TOP && m <= |f.nodes|
    ensures Sound(Grow(f, right), m, Null, Settled)
  {
    hide Sound, Kid;
    if m < |f.nodes| {
      assert Sound(f, m, Null, Split(f.root, right));
      GrowSound(f, right, m);
    } else {
      GrowTop(f, right);
    }
  }

  lemma {:induction false} GrowKidAt(f: Forest, right: nat, m: nat, j: nat)
    requires Inv(f, Null, Split(f.root, right)) && 0 < f.spans[right].lo < TOP && m <= |f.nodes|
    requires f.nodes[f.root].parent == Null
    ensures Kid(Grow(f, right), m, j, Settled)
  {
    hide Sound;
    if m < |f.nodes| {
      assert Kid(f, m, j, Split(f.root, right));
      GrowKid(f, right, m, j);
    } else {
      GrowTop(f, right);
    }
  }

  lemma {:induction false} GrowBounds(f: Forest, right: nat)
    requires Inv(f, Null, Split(f.root, right))
    ensures 0 < f.spans[right].lo < TOP && f.nodes[f.root].parent == Null
  {
    assert Sound(f, right, Null, Split(f.root, right)) && Sound(f, f.root, Null, Split(f.root, right));
  }

  /** Growing touches no leaf but parent links. */
  lemma {:induction false} GrowLeaves(f: Forest, right: nat)
    requires Rooted(f, Split(f.root, right)) && 0 <= f.spans[right].lo
    ensures var g := Grow(f, right);
            && |g.nodes| == |g.spans| == |f.nodes| + 1 && !g.nodes[|f.nodes|].isLeaf && g.M == f.M && g.home == f.home
            && (forall a | 0 <= a < |f.nodes| ::
                  g.nodes[a].isLeaf == f.nodes[a].isLeaf && g.nodes[a].keys == f.nodes[a].keys
                      && g.spans[a] == f.spans[a])
            && Rooted(g, Settled)
  {
  }

  lemma {:induction false} GrowKeeps(f: Forest, right: nat)
    requires Inv(f, Null, Split(f.root, right))
    ensures 0 <= f.spans[right].lo
    ensures Inv(Grow(f, right), Null, Settled)
  {
    hide Sound, Kid, Grow;
    GrowBounds(f, right);
    var g := Grow(f, right);
    GrowLeaves(f, right);
    forall m: nat | m < |g.nodes| ensures Sound(g, m, Null, Settled) {
      GrowSoundAt(f, right, m);
    }
    forall m: nat, j: nat | m < |g.nodes| ensures Kid(g, m, j, Settled) {
      GrowKidAt(f, right, m, j);
    }
    forall a: nat, b: nat | a < |g.nodes| && b < |g.nodes| ensures Apart(g, a, b) {
      if a < |f.nodes| && b < |f.nodes| { assert Apart(f, a, b); }
    }
    forall k | k in g.M ensures Homed(g, k) {
      assert Homed(f, k);
    }
  }

  /** An overfull node that is not in fact overfull. */
  lemma Relax(f: Forest, n: nat)
    requires Inv(f, At(n), Settled) && n < |f.nodes| && |f.nodes[n].keys| <= BP_MAX
    ensures Inv(f, Null, Settled)
  {
    forall m: nat | m < |f.nodes| ensures Sound(f, m, Null, Settled) {
      assert Sound(f, m, At(n), Settled);
    }
  }

  // ----- What the invariant means.

  /** A key of the index can only sit in the leaf whose range holds it. */
  lemma OnlyHome(f: Forest, over: Ptr, p: Pending, x: nat, key: nat)
    requires Inv(f, over, p)
    requires x < |f.nodes| && f.nodes[x].isLeaf && f.spans[x].lo <= key < f.spans[x].hi
    ensures key in f.M <==> key in f.nodes[x].keys
  {
    assert Sound(f, x, over, p);
    if key in f.M {
      assert Homed(f, key);
      var y := f.home[key];
      assert Sound(f, y, over, p);
      assert Apart(f, x, y);
    }
  }

  /** Overwriting the value of a key already there. */
  lemma OverwriteKeeps(f: Forest, x: nat, i: nat, val: nat)
    requires Inv(f, Null, Settled) && x < |f.nodes| && f.nodes[x].isLeaf && i < |f.nodes[x].keys|
    ensures i < |f.nodes[x].vals|
    ensures Inv(f.(nodes := f.nodes[x := f.nodes[x].(vals := f.nodes[x].vals[i := val])],
                   M := f.M[f.nodes[x].keys[i] := val]), Null, Settled)
  {
    assert Sound(f, x, Null, Settled);
    var key := f.nodes[x].keys[i];
    var g := f.(nodes := f.nodes[x := f.nodes[x].(vals := f.nodes[x].vals[i := val])], M := f.M[key := val]);
    forall m: nat | m < |g.nodes| ensures Sound(g, m, Null, Settled) {
      assert Sound(f, m, Null, Settled) && Apart(f, x, m);
      OverwriteSound(f, x, i, val, m);
    }
    forall m: nat, j: nat | m < |g.nodes| ensures Kid(g, m, j, Settled) {
      assert Kid(f, m, j, Settled);
    }
    forall a: nat, b: nat | a < |g.nodes| && b < |g.nodes| ensures Apart(g, a, b) {
      assert Apart(f, a, b);
    }
    forall k | k in g.M ensures Homed(g, k) {
      assert Homed(f, k);
    }
  }

  lemma OverwriteSound(f: Forest, x: nat, i: nat, val: nat, m: nat)
    requires x < |f.nodes| == |f.spans| && m < |f.nodes| && f.nodes[x].isLeaf
    requires Sound(f, x, Null, Settled) && Sound(f, m, Null, Settled) && Apart(f, x, m)
    requires i < |f.nodes[x].keys|
    ensures Sound(f.(nodes := f.nodes[x := f.nodes[x].(vals := f.nodes[x].vals[i := val])],
                     M := f.M[f.nodes[x].keys[i] := val]), m, Null, Settled)
  {
  }

  /** The nodes met on the way from n up the parent links, n first. */
  ghost function PathUp(f: Forest, n: nat): (path: seq<nat>)
    requires Inv(f, Null, Settled) && n < |f.nodes|
    decreases f.height - f.spans[n].h
  {
    assert Sound(f, n, Null, Settled);
    if f.nodes[n].parent.Null? then [n]
    else
      ParentIsHigher(f, n);
      [n] + PathUp(f, f.nodes[n].parent.i)
  }

  lemma ParentIsHigher(f: Forest, n: nat)
    requires Inv(f, Null, Settled) && n < |f.nodes| && f.nodes[n].parent.At?
    ensures f.nodes[n].parent.i < |f.nodes|
    ensures f.spans[n].h + 1 == f.spans[f.nodes[n].parent.i].h < f.height
  {
    assert Sound(f, n, Null, Settled);
    var u := f.nodes[n].parent.i;
    assert Sound(f, u, Null, Settled);
    var j :| 0 <= j < |f.nodes[u].children| && f.nodes[u].children[j] == n;
    assert Kid(f, u, j, Settled);
  }

  /** Balance: every leaf is exactly `height` nodes away from the root, counting both ends. */
  lemma {:induction false} LeavesShareOneDepth(f: Forest, n: nat)
    requires Inv(f, Null, Settled) && n < |f.nodes|
    ensures |PathUp(f, n)| + f.spans[n].h == f.height
    ensures f.nodes[n].isLeaf ==> |PathUp(f, n)| == f.height
    decreases f.height - f.spans[n].h
  {
    assert Sound(f, n, Null, Settled);
    if f.nodes[n].parent.At? {
      ParentIsHigher(f, n);
      LeavesShareOneDepth(f, f.nodes[n].parent.i);
    }
  }

  ghost function KeysIn(M: map<nat, nat>, lo: int, hi: int): set<nat> {
    set k | k in M && lo <= k < hi
  }

  lemma KeysApart(M: map<nat, nat>, a: Span, b: Span, s: Span)
    requires s.lo <= a.lo && a.hi <= b.lo && b.hi <= s.hi && a.lo <= a.hi && b.lo <= b.hi
    ensures KeysIn(M, a.lo, a.hi) !! KeysIn(M, b.lo, b.hi)
    ensures KeysIn(M, a.lo, a.hi) + KeysIn(M, b.lo, b.hi) <= KeysIn(M, s.lo, s.hi)
  {
  }

  /** The first two children of an inner node share its range without overlap. */
  lemma {:induction false} TwoChildren(f: Forest, n: nat)
    requires Inv(f, Null, Settled) && n < |f.nodes| && !f.nodes[n].isLeaf
    ensures |f.nodes[n].children| >= 2
    ensures var c0, c1, s := f.nodes[n].children[0], f.nodes[n].children[1], f.spans[n];
            && c0 < |f.nodes| && c1 < |f.nodes| && c0 != f.root && c1 != f.root
            && f.spans[c0].h + 1 == f.spans[c1].h + 1 == s.h
            && s.lo <= f.spans[c0].lo <= f.spans[c0].hi <= f.spans[c1].lo <= f.spans[c1].hi <= s.hi
  {
    hide Apart, Homed;
    assert Sound(f, n, Null, Settled);
    assert Kid(f, n, 0, Settled) && Kid(f, n, 1, Settled);
    assert Sound(f, f.nodes[n].children[0], Null, Settled) && Sound(f, f.nodes[n].children[1], Null, Settled);
  }

  lemma {:induction false} TwoKeys(f: Forest, n: nat)
    requires Inv(f, Null, Settled) && n < |f.nodes| && f.nodes[n].isLeaf && n != f.root
    ensures f.spans[n].h == 0 && 2 <= |KeysIn(f.M, f.spans[n].lo, f.spans[n].hi)|
  {
    hide Kid, Apart, Homed;
    var x := f.nodes[n];
    assert Sound(f, n, Null, Settled);
    var two := {x.keys[0], x.keys[1]};
    assert two <= KeysIn(f.M, f.spans[n].lo, f.spans[n].hi);
    SubsetSize(two, KeysIn(f.M, f.spans[n].lo, f.spans[n].hi));
  }

  lemma {:induction false} SubtreeIsFull(f: Forest, n: nat)
    requires Inv(f, Null, Settled) && n < |f.nodes|
    requires n != f.root || !f.nodes[n].isLeaf
    ensures Pow2(f.spans[n].h + 1) <= |KeysIn(f.M, f.spans[n].lo, f.spans[n].hi)|
    decreases f.spans[n].h
  {
    hide Sound, Kid, Apart, Homed, KeysIn;
    if f.nodes[n].isLeaf {
      TwoKeys(f, n);
    } else {
      TwoChildren(f, n);
      var c0, c1 := f.nodes[n].children[0], f.nodes[n].children[1];
      SubtreeIsFull(f, c0);
      SubtreeIsFull(f, c1);
      var a := KeysIn(f.M, f.spans[c0].lo, f.spans[c0].hi);
      var b := KeysIn(f.M, f.spans[c1].lo, f.spans[c1].hi);
      KeysApart(f.M, f.spans[c0], f.spans[c1], f.spans[n]);
      SubsetSize(a + b, KeysIn(f.M, f.spans[n].lo, f.spans[n].hi));
    }
  }

  /** The height is logarithmic in the number of keys. */
  lemma HeightIsLogarithmic(f: Forest)
    requires Inv(f, Null, Settled) && 2 <= f.height
    ensures Pow2(f.height) <= |f.M|
  {
    assert Sound(f, f.root, Null, Settled);
    SubtreeIsFull(f, f.root);
    SubsetSize(KeysIn(f.M, 0, TOP), f.M.Keys);
  }
}
