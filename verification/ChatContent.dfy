/** What the database holds: a pushed message as it was given, for as long as its session is kept. */
module ChatContent {
  import opened Bytes
  import opened ChatTree
  import opened AevosDb

  /** Everything about a message but the number of its children. */
  ghost predicate SameContent(a: Msg, b: Msg) {
    a.id == b.id && a.sid == b.sid && a.parent == b.parent && a.body == b.body && a.depth == b.depth
  }

  // ----- One push.

  /** A push with room stores one message, as given, under the next id; every older message stays where it is, as it was
      but for one more child of the parent, and the session's active leaf is the new message. */
  lemma PushStores(d: Db, sid: nat, parent: nat, body: Body)
    requires IdsUp(d.ms, d.nextMsg) && |d.ms| < DB_MAX_MESSAGES
    ensures var d' := Step(d, Push(sid, parent, body));
            && d'.nextMsg == d.nextMsg + 1 && d'.nextSid == d.nextSid && |d'.ms| == |d.ms| + 1
            && (match Lookup(d'.ms, d.nextMsg)
                case None => false
                case Some(m) => m.sid == sid && m.parent == parent && m.body == body && m.children == 0
                                && m == d'.ms[|d.ms|])
            && (forall i | 0 <= i < |d.ms| ::
                  && SameContent(d.ms[i], d'.ms[i])
                  && d'.ms[i].children == d.ms[i].children + if d.ms[i].id == parent then 1 else 0)
            && |d'.ss| == |d.ss|
            && (forall i | 0 <= i < |d.ss| ::
                  d'.ss[i] == if i == SessionAt(d.ss, sid) then Session(sid, d.ss[i].count + 1, d.nextMsg) else d.ss[i])
  {
    hide SessionAt;
    var d' := Step(d, Push(sid, parent, body));
    PushedIds(d.ms, d.nextMsg, sid, parent, body);
    LookupIs(d'.ms, d'.nextMsg, |d.ms|);
    forall i | 0 <= i < |d.ms| ensures d'.ms[i] == Bump(d.ms[i], parent) {
      assert d'.ms[i] == Bumped(d.ms, parent)[i];
    }
  }

  /** The branch of the new message is the branch of its parent and then the message, with the body that was pushed. */
  lemma PushedBranch(ms: seq<Msg>, next: nat, sid: nat, parent: nat, body: Body)
    requires TreeOk(ms, next) && GoodParent(ms, sid, parent)
    ensures var r := Pushed(ms, next, sid, parent, body);
            && TreeOk(r, next + 1) && Lookup(r, next).Some? && Lookup(r, next).value in r
            && var b := Branch(r, next + 1, Lookup(r, next).value);
               && b[|b| - 1].body == body && b[|b| - 1].id == next
               && (parent == 0 ==> |b| == 1)
               && (parent != 0 ==>
                     Lookup(ms, parent).Some? && Lookup(ms, parent).value in ms
                     && SameBranch(Branch(ms, next, Lookup(ms, parent).value), b[..|b| - 1]))
  {
    hide Branch, TreeOk, Pushed, Lookup, SameBranch;
    var r := Pushed(ms, next, sid, parent, body);
    PushKeepsExactly(ms, next, sid, parent, body);
    var m := NewMsg(ms, next, sid, parent, body);
    var up := BranchStep(r, next + 1, m);
    if parent != 0 {
      var p := Lookup(ms, parent).value;
      InTable(r, next + 1, up);
      BelowNext(ms, next, p);
      PushedLookup(ms, next, sid, parent, body, parent);
      BranchStays(ms, next, sid, parent, body, p);
      var b := Branch(r, next + 1, up);
      assert (b + [m])[..|b|] == b;
    }
  }

  lemma NewMsg(ms: seq<Msg>, next: nat, sid: nat, parent: nat, body: Body) returns (m: Msg)
    requires TreeOk(ms, next)
    ensures var r := Pushed(ms, next, sid, parent, body);
            && Lookup(r, next) == Some(m) && m in r
            && m.id == next && m.sid == sid && m.parent == parent && m.body == body
  {
    var r := Pushed(ms, next, sid, parent, body);
    PushedIds(ms, next, sid, parent, body);
    LookupIs(r, next + 1, |ms|);
    m := r[|ms|];
  }

  ghost predicate SameBranch(a: seq<Msg>, b: seq<Msg>) {
    |a| == |b| && forall k | 0 <= k < |a| :: SameContent(a[k], b[k])
  }

  /** A push changes no older branch. */
  lemma {:induction false} BranchStays(ms: seq<Msg>, next: nat, sid: nat, parent: nat, body: Body, m: Msg)
    requires TreeOk(ms, next) && GoodParent(ms, sid, parent) && m in ms
    ensures var r := Pushed(ms, next, sid, parent, body);
            && TreeOk(r, next + 1) && Bump(m, parent) in r
            && SameBranch(Branch(ms, next, m), Branch(r, next + 1, Bump(m, parent)))
    decreases m.id
  {
    hide TreeOk, Branch, Pushed;
    PushKeepsExactly(ms, next, sid, parent, body);
    var r, m' := Pushed(ms, next, sid, parent, body), Bump(m, parent);
    InTable(ms, next, m);
    BelowNext(ms, next, m);
    PushedLookup(ms, next, sid, parent, body, m.id);
    var up := BranchStep(ms, next, m);
    var up' := BranchStep(r, next + 1, m');
    if m.parent != 0 {
      InTable(ms, next, up);
      InTable(r, next + 1, up');
      BelowNext(ms, next, up);
      ParentIsOlder(ms, next, m, up);
      PushedLookup(ms, next, sid, parent, body, up.id);
      BranchStays(ms, next, sid, parent, body, up);
    }
  }

  lemma BelowNext(ms: seq<Msg>, next: nat, m: Msg)
    requires TreeOk(ms, next) && m in ms
    ensures m.id < next
  {
  }

  lemma ParentIsOlder(ms: seq<Msg>, next: nat, m: Msg, p: Msg)
    requires TreeOk(ms, next) && m in ms && m.parent != 0 && Lookup(ms, m.parent) == Some(p)
    ensures p.id < m.id
  {
    var i :| 0 <= i < |ms| && ms[i] == m;
    assert MsgOk(ms, ms[i]);
  }

  /** What aevos_db_history_get_branch gives for the message just pushed ends with it, if the request has room. */
  lemma PushThenBranch(d: Db, sid: nat, parent: nat, body: Body, max: nat)
    requires TreeOk(d.ms, d.nextMsg) && GoodParent(d.ms, sid, parent) && |d.ms| < DB_MAX_MESSAGES
    ensures var d' := Step(d, Push(sid, parent, body));
            var out := Listing(d'.ms, d.nextMsg, max);
            var whole := if DepthUnder(d.ms, parent) + 1 < STACK then DepthUnder(d.ms, parent) + 1 else STACK;
            && |out| == (if whole < max then whole else max)
            && (whole <= max ==>
                  match out[|out| - 1]
                  case None => false
                  case Some(m) => m.id == d.nextMsg && m.sid == sid && m.parent == parent && m.body == body)
  {
    hide TreeOk, Branch, Listing, Pushed, SetSession, CountIn;
    var ms, next := d.ms, d.nextMsg;
    var r := Pushed(ms, next, sid, parent, body);
    PushedBranch(ms, next, sid, parent, body);
    PushStores(d, sid, parent, body) by { TreeIds(ms, next); }
    TreeIds(ms, next);
    BranchExactly(r, next + 1, next, max);
    var m := Lookup(r, next).value;
    NewDepth(ms, next, sid, parent, body);
  }

  lemma TreeIds(ms: seq<Msg>, next: nat)
    requires TreeOk(ms, next)
    ensures IdsUp(ms, next) && next > 0
  {
  }

  lemma NewDepth(ms: seq<Msg>, next: nat, sid: nat, parent: nat, body: Body)
    requires IdsUp(ms, next)
    ensures var m := Lookup(Pushed(ms, next, sid, parent, body), next);
            m.Some? && m.value.depth == DepthUnder(ms, parent)
  {
    hide DepthUnder;
    PushedIds(ms, next, sid, parent, body);
    LookupIs(Pushed(ms, next, sid, parent, body), next + 1, |ms|);
  }

  // ----- Whole runs.

  lemma StepIds(d: Db, op: Op)
    requires IdsUp(d.ms, d.nextMsg)
    ensures IdsUp(Step(d, op).ms, Step(d, op).nextMsg)
  {
    hide IdsUp, Pushed, Others, SetSession, CountIn, Without;
    match op
    case Create =>
    case Push(sid, parent, body) => PushedIds(d.ms, d.nextMsg, sid, parent, body);
    case Clear(sid) => OthersUp(d.ms, d.nextMsg, sid);
    case Delete(sid) => OthersUp(d.ms, d.nextMsg, sid);
  }

  ghost predicate Removes(op: Op, sid: nat) { (op.Clear? || op.Delete?) && op.sid == sid }

  lemma {:induction false} OthersGone(ms: seq<Msg>, next: nat, sid: nat, id: nat)
    requires IdsUp(ms, next) && Lookup(ms, id).Some? && Lookup(ms, id).value.sid == sid
    ensures Lookup(Others(ms, sid), id) == None
  {
    hide Others;
    var m := Lookup(ms, id).value;
    var f := Others(ms, sid);
    forall i | 0 <= i < |f| ensures f[i].id != id {
      OthersIn(ms, sid, f[i]);
      if f[i].id == id { OneId(ms, next, m, f[i]); }
    }
    LookupNone(f, id);
  }

  lemma OneId(ms: seq<Msg>, next: nat, a: Msg, b: Msg)
    requires IdsUp(ms, next) && a in ms && b in ms && a.id == b.id
    ensures a == b
  {
    var i :| 0 <= i < |ms| && ms[i] == a;
    var j :| 0 <= j < |ms| && ms[j] == b;
  }

  /** An operation takes a message away exactly when it clears or deletes its session, and else changes nothing of it
      but the number of its children. */
  lemma StepContent(d: Db, op: Op, id: nat)
    requires IdsUp(d.ms, d.nextMsg) && Lookup(d.ms, id).Some?
    ensures var m, r := Lookup(d.ms, id).value, Lookup(Step(d, op).ms, id);
            if Removes(op, m.sid) then r == None else r.Some? && SameContent(m, r.value)
  {
    hide Pushed, Others, SetSession, CountIn, Without, Lookup;
    var m := Lookup(d.ms, id).value;
    match op
    case Create =>
    case Push(sid, parent, body) => PushedLookup(d.ms, d.nextMsg, sid, parent, body, id);
    case Clear(sid) => if m.sid == sid { OthersGone(d.ms, d.nextMsg, sid, id); } else { OthersLookup(d.ms, sid, id); }
    case Delete(sid) => if m.sid == sid { OthersGone(d.ms, d.nextMsg, sid, id); } else { OthersLookup(d.ms, sid, id); }
  }

  /** Over every run, whatever the pushes name: a message stays, with its session, parent, body and depth, until its
      session is cleared or deleted. */
  lemma {:induction false} RunContent(states: seq<Db>, ops: seq<Op>, i: nat, j: nat, id: nat)
    requires IsRun(states, ops) && i <= j < |states| && Lookup(states[i].ms, id).Some?
    requires forall k | i <= k < j :: !Removes(ops[k], Lookup(states[i].ms, id).value.sid)
    ensures IdsUp(states[j].ms, states[j].nextMsg) && Lookup(states[j].ms, id).Some?
    ensures SameContent(Lookup(states[i].ms, id).value, Lookup(states[j].ms, id).value)
    decreases j
  {
    hide Step, Lookup, IdsUp;
    RunIds(states, ops, j);
    if i < j {
      RunIds(states, ops, j - 1);
      RunContent(states, ops, i, j - 1, id);
      assert states[j - 1 + 1] == Step(states[j - 1], ops[j - 1]);
      StepContent(states[j - 1], ops[j - 1], id);
    }
  }

  lemma {:induction false} RunIds(states: seq<Db>, ops: seq<Op>, i: nat)
    requires IsRun(states, ops) && i < |states|
    ensures IdsUp(states[i].ms, states[i].nextMsg)
    decreases i
  {
    hide Step;
    if i > 0 {
      RunIds(states, ops, i - 1);
      assert states[i - 1 + 1] == Step(states[i - 1], ops[i - 1]);
      StepIds(states[i - 1], ops[i - 1]);
    }
  }

  // ----- The sessions.

  ghost predicate Has(d: Db, sid: nat) { exists i | 0 <= i < |d.ss| :: d.ss[i].sid == sid }

  /** A session comes by its creation, which fails exactly with 64 of them, and goes by its deletion alone. */
  lemma StepSessions(d: Db, op: Op, sid: nat)
    requires SidsUp(d.ss, d.nextSid)
    ensures Has(Step(d, op), sid) <==>
            (op.Create? && |d.ss| < 64 && sid == d.nextSid) || (Has(d, sid) && op != Delete(sid))
  {
    hide Pushed, Others, SessionAt, SidsUp;
    var d' := Step(d, op);
    match op
    case Create =>
      if |d.ss| < 64 { assert d'.ss[|d.ss|].sid == d.nextSid; }
      if Has(d, sid) {
        var i :| 0 <= i < |d.ss| && d.ss[i].sid == sid;
        assert d'.ss[i].sid == sid;
      }
    case Push(to, parent, body) => SetSessionSids(d.ss, to, CountIn(d.ss, to) + 1, d.nextMsg, sid);
    case Clear(gone) => SetSessionSids(d.ss, gone, 0, 0, sid);
    case Delete(gone) => DeleteSessions(d, gone, sid);
  }

  lemma DeleteSessions(d: Db, gone: nat, sid: nat)
    requires SidsUp(d.ss, d.nextSid)
    ensures Has(Step(d, Delete(gone)), sid) <==> Has(d, sid) && sid != gone
  {
    hide Others, SessionAt;
    var ss, at := Without(d.ss, gone), SessionAt(d.ss, gone);
    if Has(d, sid) && sid != gone {
      var i :| 0 <= i < |d.ss| && d.ss[i].sid == sid;
      assert ss[if i < at then i else i - 1].sid == sid;
    }
    forall i | 0 <= i < |ss| ensures ss[i] in d.ss && ss[i].sid != gone {
      assert ss[i] == d.ss[if i < at then i else i + 1];
    }
  }

  lemma SetSessionSids(ss: seq<Session>, to: nat, count: nat, leaf: nat, sid: nat)
    ensures var r := SetSession(ss, to, count, leaf); forall i | 0 <= i < |ss| :: r[i].sid == ss[i].sid
  {
    hide SessionAt;
  }

  // ----- The active leaf.

  /** The newest message of a session, or 0. */
  function LastOf(ms: seq<Msg>, sid: nat): nat {
    if ms == [] then 0 else if ms[|ms| - 1].sid == sid then ms[|ms| - 1].id else LastOf(ms[..|ms| - 1], sid)
  }

  lemma {:induction false} BumpedLast(ms: seq<Msg>, parent: nat, sid: nat)
    ensures LastOf(Bumped(ms, parent), sid) == LastOf(ms, sid)
  {
    if ms != [] {
      var n := |ms| - 1;
      assert Bumped(ms, parent)[..n] == Bumped(ms[..n], parent);
      BumpedLast(ms[..n], parent, sid);
    }
  }

  lemma PushedLast(ms: seq<Msg>, next: nat, sid: nat, parent: nat, body: Body, s: nat)
    ensures LastOf(Pushed(ms, next, sid, parent, body), s) == if s == sid then next else LastOf(ms, s)
  {
    var r := Pushed(ms, next, sid, parent, body);
    assert r[..|ms|] == Bumped(ms, parent);
    BumpedLast(ms, parent, s);
  }

  lemma {:induction false} OthersLast(ms: seq<Msg>, sid: nat, s: nat)
    ensures LastOf(Others(ms, sid), s) == if s == sid then 0 else LastOf(ms, s)
  {
    if ms != [] {
      var n := |ms| - 1;
      var f := Others(ms[..n], sid);
      OthersLast(ms[..n], sid, s);
      if ms[n].sid != sid { assert (f + [ms[n]])[..|f|] == f; }
    }
  }

  /** The active leaf of session sid is its newest message, and no message waits for it if it is still to come. */
  ghost predicate LeafRight(d: Db, sid: nat) {
    && (forall i | 0 <= i < |d.ss| && d.ss[i].sid == sid :: d.ss[i].leaf == LastOf(d.ms, sid))
    && (sid >= d.nextSid ==> LastOf(d.ms, sid) == 0)
  }

  lemma LeafStep(d: Db, op: Op, sid: nat)
    requires SidsUp(d.ss, d.nextSid) && LeafRight(d, sid) && !TooEarly(d, op, sid)
    ensures LeafRight(Step(d, op), sid)
  {
    hide Pushed, Others, LastOf, SessionAt;
    var d' := Step(d, op);
    match op
    case Create =>
    case Push(to, parent, body) =>
      PushedLast(d.ms, d.nextMsg, to, parent, body, sid);
      forall i | 0 <= i < |d'.ss| && d'.ss[i].sid == sid ensures d'.ss[i].leaf == LastOf(d'.ms, sid) {
        assert d.ss[i].sid == sid;
      }
    case Clear(gone) =>
      OthersLast(d.ms, gone, sid);
      forall i | 0 <= i < |d'.ss| && d'.ss[i].sid == sid ensures d'.ss[i].leaf == LastOf(d'.ms, sid) {
        assert d.ss[i].sid == sid;
      }
    case Delete(gone) =>
      OthersLast(d.ms, gone, sid);
      var at := SessionAt(d.ss, gone);
      forall i | 0 <= i < |d'.ss| && d'.ss[i].sid == sid ensures d'.ss[i].leaf == LastOf(d'.ms, sid) {
        assert d'.ss[i] == d.ss[if i < at then i else i + 1] && sid != gone;
      }
  }

  /** Over every run the active leaf of a session is its newest message, unless one came before the session. */
  lemma {:induction false} RunLeaves(states: seq<Db>, ops: seq<Op>, sid: nat, i: nat)
    requires IsRun(states, ops) && i < |states| && forall j | 0 <= j < i :: !TooEarly(states[j], ops[j], sid)
    ensures LeafRight(states[i], sid)
    decreases i
  {
    hide SidsUp, Step, TooEarly;
    if i > 0 {
      RunLeaves(states, ops, sid, i - 1);
      RunCounts(states, ops, sid, i - 1);
      LeafStep(states[i - 1], ops[i - 1], sid);
      assert states[i - 1 + 1] == Step(states[i - 1], ops[i - 1]);
    }
  }
}
