/** The conversation tree of aevos_db.c as values: its invariant, what a push and a removal keep, and branches. */
module ChatTree {
  import opened Bytes

  /** What a message says, and who and when. */
  datatype Body = Body(text: seq<byte>, role: byte, tokens: nat, time: nat)

  datatype Msg = Msg(id: nat, sid: nat, parent: nat, body: Body, children: nat, depth: nat)

  /** The message with an id. */
  function Lookup(ms: seq<Msg>, id: nat): (r: Option<Msg>)
    ensures r.Some? ==> r.value in ms && r.value.id == id
    ensures r.None? ==> forall i | 0 <= i < |ms| :: ms[i].id != id
  {
    if ms == [] then None
    else if ms[|ms| - 1].id == id then Some(ms[|ms| - 1])
    else Lookup(ms[..|ms| - 1], id)
  }

  /** The number of messages whose parent is id. */
  function Children(ms: seq<Msg>, id: nat): nat {
    if ms == [] then 0 else Children(ms[..|ms| - 1], id) + if ms[|ms| - 1].parent == id then 1 else 0
  }

  /** The number of messages of a session. */
  function CountOf(ms: seq<Msg>, sid: nat): nat {
    if ms == [] then 0 else CountOf(ms[..|ms| - 1], sid) + if ms[|ms| - 1].sid == sid then 1 else 0
  }

  /** The messages of all other sessions, in order. */
  function Others(ms: seq<Msg>, sid: nat): (r: seq<Msg>)
    ensures |r| <= |ms|
  {
    if ms == [] then []
    else if ms[|ms| - 1].sid == sid then Others(ms[..|ms| - 1], sid)
    else Others(ms[..|ms| - 1], sid) + [ms[|ms| - 1]]
  }

  /** Ids increase along the table and stay below the next one. */
  ghost predicate IdsUp(ms: seq<Msg>, next: nat) {
    && (forall i, j | 0 <= i < j < |ms| :: ms[i].id < ms[j].id)
    && next > 0 && forall i | 0 <= i < |ms| :: 0 < ms[i].id < next
  }

  /** A message is a root of depth 0, or one below an older message of its session. */
  ghost predicate ParentOk(ms: seq<Msg>, m: Msg) {
    if m.parent == 0 then m.depth == 0
    else
      match Lookup(ms, m.parent)
      case None => false
      case Some(p) => p.id < m.id && p.sid == m.sid && m.depth == p.depth + 1
  }

  ghost predicate MsgOk(ms: seq<Msg>, m: Msg) { ParentOk(ms, m) && m.children == Children(ms, m.id) }

  ghost predicate TreeOk(ms: seq<Msg>, next: nat) {
    IdsUp(ms, next) && forall i | 0 <= i < |ms| :: MsgOk(ms, ms[i])
  }

  lemma {:induction false} LookupIs(ms: seq<Msg>, next: nat, i: nat)
    requires IdsUp(ms, next) && i < |ms|
    ensures Lookup(ms, ms[i].id) == Some(ms[i])
    decreases |ms|
  {
    var n := |ms| - 1;
    if i < n { LookupIs(ms[..n], next, i); }
  }

  lemma {:induction false} LookupNone(ms: seq<Msg>, id: nat)
    requires forall i | 0 <= i < |ms| :: ms[i].id != id
    ensures Lookup(ms, id) == None
  {
    if ms != [] { LookupNone(ms[..|ms| - 1], id); }
  }

  lemma {:induction false} ChildrenNone(ms: seq<Msg>, id: nat)
    requires forall i | 0 <= i < |ms| :: ms[i].parent != id
    ensures Children(ms, id) == 0
  {
    if ms != [] { ChildrenNone(ms[..|ms| - 1], id); }
  }

  // ----- Push.

  function Bump(m: Msg, parent: nat): Msg { if m.id == parent then m.(children := m.children + 1) else m }

  /** The parent's child count goes up. */
  function Bumped(ms: seq<Msg>, parent: nat): (r: seq<Msg>)
    ensures |r| == |ms| && forall i | 0 <= i < |ms| :: r[i] == Bump(ms[i], parent)
  {
    seq(|ms|, i requires 0 <= i < |ms| => Bump(ms[i], parent))
  }

  function DepthUnder(ms: seq<Msg>, parent: nat): nat {
    if parent == 0 then 0 else match Lookup(ms, parent) case None => 0 case Some(p) => p.depth + 1
  }

  function Pushed(ms: seq<Msg>, next: nat, sid: nat, parent: nat, body: Body): (r: seq<Msg>)
    ensures |r| == |ms| + 1
  {
    Bumped(ms, parent) + [Msg(next, sid, parent, body, 0, DepthUnder(ms, parent))]
  }

  /** The parent is none, or a message of the same session. */
  ghost predicate GoodParent(ms: seq<Msg>, sid: nat, parent: nat) {
    parent == 0 || (Lookup(ms, parent).Some? && Lookup(ms, parent).value.sid == sid)
  }

  lemma {:induction false} BumpedLookup(ms: seq<Msg>, parent: nat, id: nat)
    ensures Lookup(Bumped(ms, parent), id)
        == match Lookup(ms, id) case None => None case Some(m) => Some(Bump(m, parent))
  {
    if ms != [] {
      var n := |ms| - 1;
      assert Bumped(ms, parent)[..n] == Bumped(ms[..n], parent);
      BumpedLookup(ms[..n], parent, id);
    }
  }

  lemma {:induction false} BumpedChildren(ms: seq<Msg>, parent: nat, id: nat)
    ensures Children(Bumped(ms, parent), id) == Children(ms, id)
  {
    if ms != [] {
      var n := |ms| - 1;
      assert Bumped(ms, parent)[..n] == Bumped(ms[..n], parent);
      BumpedChildren(ms[..n], parent, id);
    }
  }

  lemma {:induction false} BumpedCount(ms: seq<Msg>, parent: nat, sid: nat)
    ensures CountOf(Bumped(ms, parent), sid) == CountOf(ms, sid)
  {
    if ms != [] {
      var n := |ms| - 1;
      assert Bumped(ms, parent)[..n] == Bumped(ms[..n], parent);
      BumpedCount(ms[..n], parent, sid);
    }
  }

  lemma PushedLookup(ms: seq<Msg>, next: nat, sid: nat, parent: nat, body: Body, id: nat)
    requires id != next
    ensures Lookup(Pushed(ms, next, sid, parent, body), id)
        == match Lookup(ms, id) case None => None case Some(m) => Some(Bump(m, parent))
  {
    var r := Pushed(ms, next, sid, parent, body);
    assert r[..|ms|] == Bumped(ms, parent);
    BumpedLookup(ms, parent, id);
  }

  lemma PushedChildren(ms: seq<Msg>, next: nat, sid: nat, parent: nat, body: Body, id: nat)
    ensures Children(Pushed(ms, next, sid, parent, body), id) == Children(ms, id) + if parent == id then 1 else 0
  {
    var r := Pushed(ms, next, sid, parent, body);
    assert r[..|ms|] == Bumped(ms, parent);
    BumpedChildren(ms, parent, id);
  }

  lemma PushedCount(ms: seq<Msg>, next: nat, sid: nat, parent: nat, body: Body, s: nat)
    ensures CountOf(Pushed(ms, next, sid, parent, body), s) == CountOf(ms, s) + if sid == s then 1 else 0
  {
    var r := Pushed(ms, next, sid, parent, body);
    assert r[..|ms|] == Bumped(ms, parent);
    BumpedCount(ms, parent, s);
  }

  lemma PushedIds(ms: seq<Msg>, next: nat, sid: nat, parent: nat, body: Body)
    requires IdsUp(ms, next)
    ensures IdsUp(Pushed(ms, next, sid, parent, body), next + 1)
  {
    var r := Pushed(ms, next, sid, parent, body);
    forall i | 0 <= i < |ms| ensures r[i].id == ms[i].id {
      assert r[i] == Bumped(ms, parent)[i];
    }
  }

  /** An older message stays in order. */
  lemma PushedOld(ms: seq<Msg>, next: nat, sid: nat, parent: nat, body: Body, i: nat)
    requires TreeOk(ms, next) && i < |ms|
    ensures var r := Pushed(ms, next, sid, parent, body); r[i] == Bump(ms[i], parent) && MsgOk(r, r[i])
  {
    var r, m := Pushed(ms, next, sid, parent, body), ms[i];
    assert r[i] == Bumped(ms, parent)[i];
    assert MsgOk(ms, m);
    PushedChildren(ms, next, sid, parent, body, m.id);
    if m.parent != 0 {
      var p := Lookup(ms, m.parent).value;
      assert p.id < next;
      PushedLookup(ms, next, sid, parent, body, m.parent);
    }
  }

  lemma NoChildOfNext(ms: seq<Msg>, next: nat)
    requires TreeOk(ms, next)
    ensures Children(ms, next) == 0
  {
    forall i | 0 <= i < |ms| ensures ms[i].parent != next {
      assert MsgOk(ms, ms[i]);
    }
    ChildrenNone(ms, next);
  }

  /** The new message is in order exactly when its parent is good. */
  lemma PushedNew(ms: seq<Msg>, next: nat, sid: nat, parent: nat, body: Body)
    requires TreeOk(ms, next)
    ensures var r := Pushed(ms, next, sid, parent, body);
            MsgOk(r, r[|ms|]) <==> GoodParent(ms, sid, parent)
  {
    var r := Pushed(ms, next, sid, parent, body);
    var m := r[|ms|];
    PushedChildren(ms, next, sid, parent, body, next);
    NoChildOfNext(ms, next);
    if parent != 0 {
      if parent == next {
        assert Lookup(r, next) == Some(m);
        assert Lookup(ms, next).None?;
      } else {
        PushedLookup(ms, next, sid, parent, body, parent);
        if Lookup(ms, parent).Some? { assert Lookup(ms, parent).value in ms; }
      }
    }
  }

  /** A push keeps the tree exactly when the parent is 0 or an existing message of the same session. */
  lemma PushKeepsExactly(ms: seq<Msg>, next: nat, sid: nat, parent: nat, body: Body)
    requires TreeOk(ms, next)
    ensures TreeOk(Pushed(ms, next, sid, parent, body), next + 1) <==> GoodParent(ms, sid, parent)
  {
    hide MsgOk, Pushed;
    var r := Pushed(ms, next, sid, parent, body);
    PushedIds(ms, next, sid, parent, body);
    PushedNew(ms, next, sid, parent, body);
    forall i | 0 <= i < |ms| ensures MsgOk(r, r[i]) {
      PushedOld(ms, next, sid, parent, body, i);
    }
  }

  /** A push that runs out of memory after counting the new child breaks the parent's count: the tree stays right
      exactly when there is no parent message. */
  lemma FailedPushExactly(ms: seq<Msg>, next: nat, parent: nat)
    requires TreeOk(ms, next)
    ensures TreeOk(Bumped(ms, parent), next) <==> Lookup(ms, parent).None?
  {
    var r := Bumped(ms, parent);
    match Lookup(ms, parent)
    case None =>
      assert r == ms;
    case Some(p) =>
      var i :| 0 <= i < |ms| && ms[i] == p;
      assert MsgOk(ms, ms[i]);
      BumpedChildren(ms, parent, parent);
      assert !MsgOk(r, r[i]);
  }

  // ----- Removing a session.

  lemma {:induction false} OthersIn(ms: seq<Msg>, sid: nat, m: Msg)
    ensures m in Others(ms, sid) <==> m in ms && m.sid != sid
  {
    if ms != [] {
      var n := |ms| - 1;
      OthersIn(ms[..n], sid, m);
      assert ms == ms[..n] + [ms[n]];
    }
  }

  lemma {:induction false} OthersUp(ms: seq<Msg>, next: nat, sid: nat)
    requires IdsUp(ms, next)
    ensures IdsUp(Others(ms, sid), next)
  {
    if ms != [] {
      var n := |ms| - 1;
      OthersUp(ms[..n], next, sid);
      var f := Others(ms[..n], sid);
      forall i | 0 <= i < |f| ensures f[i].id < ms[n].id {
        OthersIn(ms[..n], sid, f[i]);
      }
    }
  }

  lemma {:induction false} OthersLookup(ms: seq<Msg>, sid: nat, id: nat)
    requires Lookup(ms, id).Some? && Lookup(ms, id).value.sid != sid
    ensures Lookup(Others(ms, sid), id) == Lookup(ms, id)
  {
    var n := |ms| - 1;
    var f := Others(ms[..n], sid);
    if ms[n].id != id {
      OthersLookup(ms[..n], sid, id);
    }
    if ms[n].sid != sid { assert (f + [ms[n]])[..|f|] == f; }
  }

  lemma {:induction false} OthersChildren(ms: seq<Msg>, sid: nat, id: nat)
    requires forall i | 0 <= i < |ms| && ms[i].parent == id :: ms[i].sid != sid
    ensures Children(Others(ms, sid), id) == Children(ms, id)
  {
    if ms != [] {
      var n := |ms| - 1;
      var f := Others(ms[..n], sid);
      OthersChildren(ms[..n], sid, id);
      if ms[n].sid != sid { assert (f + [ms[n]])[..|f|] == f; }
    }
  }

  lemma {:induction false} OthersCount(ms: seq<Msg>, sid: nat, s: nat)
    ensures CountOf(Others(ms, sid), s) == if s == sid then 0 else CountOf(ms, s)
  {
    if ms != [] {
      var n := |ms| - 1;
      var f := Others(ms[..n], sid);
      OthersCount(ms[..n], sid, s);
      if ms[n].sid != sid { assert (f + [ms[n]])[..|f|] == f; }
    }
  }

  lemma OthersMsg(ms: seq<Msg>, next: nat, sid: nat, m: Msg)
    requires TreeOk(ms, next) && m in ms && m.sid != sid
    ensures MsgOk(Others(ms, sid), m)
  {
    var k :| 0 <= k < |ms| && ms[k] == m;
    assert MsgOk(ms, m);
    if m.parent != 0 { OthersLookup(ms, sid, m.parent); }
    forall i | 0 <= i < |ms| && ms[i].parent == m.id ensures ms[i].sid != sid {
      assert MsgOk(ms, ms[i]);
      LookupIs(ms, next, k);
    }
    OthersChildren(ms, sid, m.id);
  }

  /** Clearing or deleting a session keeps the tree of all the others. */
  lemma RemoveKeeps(ms: seq<Msg>, next: nat, sid: nat)
    requires TreeOk(ms, next)
    ensures TreeOk(Others(ms, sid), next)
  {
    hide MsgOk, Others;
    OthersUp(ms, next, sid);
    var f := Others(ms, sid);
    forall i | 0 <= i < |f| ensures MsgOk(f, f[i]) {
      OthersIn(ms, sid, f[i]);
      OthersMsg(ms, next, sid, f[i]);
    }
  }

  // ----- Branches.

  /** The path from the root to m. */
  ghost function Branch(ms: seq<Msg>, next: nat, m: Msg): (r: seq<Msg>)
    requires TreeOk(ms, next) && m in ms
    ensures |r| == m.depth + 1 && r[|r| - 1] == m
    decreases m.id
  {
    assert MsgOk(ms, m) by { var i :| 0 <= i < |ms| && ms[i] == m; }
    if m.parent == 0 then [m] else Branch(ms, next, Lookup(ms, m.parent).value) + [m]
  }

  /** A branch starts at a root, and every message on it is the parent of the next. */
  ghost predicate IsPath(ms: seq<Msg>, r: seq<Msg>) {
    && |r| > 0 && r[0].parent == 0
    && (forall k | 0 <= k < |r| :: r[k] in ms)
    && (forall k | 1 <= k < |r| :: r[k].parent == r[k - 1].id)
  }

  lemma {:induction false} BranchIsPath(ms: seq<Msg>, next: nat, m: Msg)
    requires TreeOk(ms, next) && m in ms
    ensures IsPath(ms, Branch(ms, next, m))
    decreases m.id
  {
    assert MsgOk(ms, m) by { var i :| 0 <= i < |ms| && ms[i] == m; }
    if m.parent != 0 {
      var p := Lookup(ms, m.parent).value;
      BranchIsPath(ms, next, p);
      var b := Branch(ms, next, p);
      assert Branch(ms, next, m) == b + [m];
    }
  }

  lemma {:induction false} BranchStep(ms: seq<Msg>, next: nat, m: Msg) returns (p: Msg)
    requires TreeOk(ms, next) && m in ms
    ensures m.id != 0
    ensures if m.parent == 0 then Branch(ms, next, m) == [m]
            else p in ms && p.id == m.parent && Branch(ms, next, m) == Branch(ms, next, p) + [m]
  {
    var i :| 0 <= i < |ms| && ms[i] == m;
    assert MsgOk(ms, ms[i]);
    p := m;
    if m.parent != 0 { p := Lookup(ms, m.parent).value; }
  }

  /** It is the only path to m. */
  lemma {:induction false} PathIsBranch(ms: seq<Msg>, next: nat, r: seq<Msg>)
    requires TreeOk(ms, next) && IsPath(ms, r)
    ensures r == Branch(ms, next, r[|r| - 1])
  {
    hide Branch, TreeOk;
    var n := |r| - 1;
    assert r[n] in ms;
    var p := BranchStep(ms, next, r[n]);
    if n == 0 {
      assert r == [r[0]];
    } else {
      PathIsBranch(ms, next, r[..n]);
      assert r[n].parent == r[n - 1].id && r[n - 1] in ms;
      var _ := BranchStep(ms, next, r[n - 1]);
      SameId(ms, next, p, r[n - 1]);
      assert r == r[..n] + [r[n]];
    }
  }

  lemma SameId(ms: seq<Msg>, next: nat, a: Msg, b: Msg)
    requires TreeOk(ms, next) && a in ms && b in ms && a.id == b.id
    ensures a == b
  {
    var i :| 0 <= i < |ms| && ms[i] == a;
    var j :| 0 <= j < |ms| && ms[j] == b;
  }
}
