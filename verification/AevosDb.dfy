/** The message and session tables of aevos_db.c. */
module AevosDb {
  import opened Bytes
  import opened ChatTree

  const DB_MAX_SESSIONS: nat := 64
  const DB_MAX_MESSAGES: nat := 4096
  const STACK: nat := 512

  datatype Session = Session(sid: nat, count: nat, leaf: nat)

  datatype Db = Db(ms: seq<Msg>, nextMsg: nat, ss: seq<Session>, nextSid: nat)

  /** The first session with an id, or the number of sessions. */
  function SessionAt(ss: seq<Session>, sid: nat): (i: nat)
    ensures i <= |ss| && (i < |ss| ==> ss[i].sid == sid) && forall j | 0 <= j < i :: ss[j].sid != sid
  {
    if ss == [] || ss[0].sid == sid then 0 else 1 + SessionAt(ss[1..], sid)
  }

  lemma SessionAtIs(ss: seq<Session>, sid: nat, i: nat)
    requires i <= |ss| && (i < |ss| ==> ss[i].sid == sid) && forall j | 0 <= j < i :: ss[j].sid != sid
    ensures SessionAt(ss, sid) == i
  {
  }

  function SetSession(ss: seq<Session>, sid: nat, count: nat, leaf: nat): (r: seq<Session>)
    ensures |r| == |ss|
  {
    var i := SessionAt(ss, sid);
    if i < |ss| then ss[i := Session(sid, count, leaf)] else ss
  }

  function CountIn(ss: seq<Session>, sid: nat): nat {
    if SessionAt(ss, sid) < |ss| then ss[SessionAt(ss, sid)].count else 0
  }

  function Without(ss: seq<Session>, sid: nat): seq<Session> {
    var i := SessionAt(ss, sid);
    if i < |ss| then ss[..i] + ss[i + 1..] else ss
  }

  datatype Op = Create | Push(sid: nat, parent: nat, body: Body) | Clear(sid: nat) | Delete(sid: nat)

  function Step(d: Db, op: Op): Db {
    match op
    case Create =>
      if |d.ss| >= DB_MAX_SESSIONS then d
      else d.(ss := d.ss + [Session(d.nextSid, 0, 0)], nextSid := d.nextSid + 1)
    case Push(sid, parent, body) =>
      if |d.ms| >= DB_MAX_MESSAGES then d
      else d.(ms := Pushed(d.ms, d.nextMsg, sid, parent, body), nextMsg := d.nextMsg + 1,
              ss := SetSession(d.ss, sid, CountIn(d.ss, sid) + 1, d.nextMsg))
    case Clear(sid) =>
      d.(ms := Others(d.ms, sid), ss := SetSession(d.ss, sid, 0, 0))
    case Delete(sid) =>
      d.(ms := Others(d.ms, sid), ss := Without(d.ss, sid))
  }

  // ----- What every run keeps.

  ghost predicate SidsUp(ss: seq<Session>, next: nat) {
    (forall i, j | 0 <= i < j < |ss| :: ss[i].sid < ss[j].sid) && forall i | 0 <= i < |ss| :: ss[i].sid < next
  }

  /** Every session's message count is right. */
  ghost predicate CountsExact(ms: seq<Msg>, ss: seq<Session>) {
    forall i | 0 <= i < |ss| :: ss[i].count == CountOf(ms, ss[i].sid)
  }

  /** No message names a session that is still to come. */
  ghost predicate Known(ms: seq<Msg>, next: nat) { forall i | 0 <= i < |ms| :: ms[i].sid < next }

  ghost predicate DbOk(d: Db) {
    TreeOk(d.ms, d.nextMsg) && SidsUp(d.ss, d.nextSid) && CountsExact(d.ms, d.ss) && Known(d.ms, d.nextSid)
  }

  /** Pushes name a session id that was given out, and a parent of 0 or of that session. */
  ghost predicate OpOk(d: Db, op: Op) {
    op.Push? ==> op.sid < d.nextSid && GoodParent(d.ms, op.sid, op.parent)
  }

  lemma {:induction false} CountOfUnknown(ms: seq<Msg>, sid: nat)
    requires forall i | 0 <= i < |ms| :: ms[i].sid != sid
    ensures CountOf(ms, sid) == 0
  {
    if ms != [] { CountOfUnknown(ms[..|ms| - 1], sid); }
  }

  lemma PushCounts(d: Db, sid: nat, parent: nat, body: Body)
    requires SidsUp(d.ss, d.nextSid) && CountsExact(d.ms, d.ss)
    ensures var ss := SetSession(d.ss, sid, CountIn(d.ss, sid) + 1, d.nextMsg);
            SidsUp(ss, d.nextSid) && CountsExact(Pushed(d.ms, d.nextMsg, sid, parent, body), ss)
  {
    hide Pushed, CountOf, SessionAt;
    var ss := SetSession(d.ss, sid, CountIn(d.ss, sid) + 1, d.nextMsg);
    forall i | 0 <= i < |ss| ensures ss[i].count == CountOf(Pushed(d.ms, d.nextMsg, sid, parent, body), ss[i].sid) {
      PushedCount(d.ms, d.nextMsg, sid, parent, body, ss[i].sid);
    }
  }

  lemma PushKnown(d: Db, sid: nat, parent: nat, body: Body)
    requires Known(d.ms, d.nextSid)
    ensures Known(Pushed(d.ms, d.nextMsg, sid, parent, body), d.nextSid) <==> sid < d.nextSid
  {
    var r := Pushed(d.ms, d.nextMsg, sid, parent, body);
    assert r[|d.ms|].sid == sid;
    forall i | 0 <= i < |d.ms| ensures r[i].sid < d.nextSid {
      assert r[i] == Bumped(d.ms, parent)[i];
    }
  }

  lemma ClearCounts(d: Db, sid: nat)
    requires SidsUp(d.ss, d.nextSid) && CountsExact(d.ms, d.ss)
    ensures var ss := SetSession(d.ss, sid, 0, 0); SidsUp(ss, d.nextSid) && CountsExact(Others(d.ms, sid), ss)
  {
    hide Others, CountOf, SessionAt;
    var ss := SetSession(d.ss, sid, 0, 0);
    forall i | 0 <= i < |ss| ensures ss[i].count == CountOf(Others(d.ms, sid), ss[i].sid) {
      OthersCount(d.ms, sid, ss[i].sid);
    }
  }

  lemma DeleteCounts(d: Db, sid: nat)
    requires SidsUp(d.ss, d.nextSid) && CountsExact(d.ms, d.ss)
    ensures var ss := Without(d.ss, sid); SidsUp(ss, d.nextSid) && CountsExact(Others(d.ms, sid), ss)
  {
    hide Others, CountOf, SessionAt;
    var i := SessionAt(d.ss, sid);
    var ss := Without(d.ss, sid);
    forall j | 0 <= j < |ss| ensures ss[j] == d.ss[if j < i then j else j + 1] && ss[j].sid != sid {
    }
    forall j | 0 <= j < |ss| ensures ss[j].count == CountOf(Others(d.ms, sid), ss[j].sid) {
      OthersCount(d.ms, sid, ss[j].sid);
    }
  }

  lemma OthersKnown(ms: seq<Msg>, next: nat, sid: nat)
    requires Known(ms, next)
    ensures Known(Others(ms, sid), next)
  {
    forall i | 0 <= i < |Others(ms, sid)| ensures Others(ms, sid)[i].sid < next {
      OthersIn(ms, sid, Others(ms, sid)[i]);
    }
  }

  /** A push keeps the database right exactly when it names a session id that was given out and a parent of 0 or of that
      session. */
  lemma PushKeepsDbExactly(d: Db, sid: nat, parent: nat, body: Body)
    requires DbOk(d) && |d.ms| < DB_MAX_MESSAGES
    ensures DbOk(Step(d, Push(sid, parent, body))) <==> sid < d.nextSid && GoodParent(d.ms, sid, parent)
  {
    hide TreeOk, SetSession, Pushed, CountOf, SidsUp, CountsExact, GoodParent, Known;
    PushKeepsExactly(d.ms, d.nextMsg, sid, parent, body);
    PushCounts(d, sid, parent, body);
    PushKnown(d, sid, parent, body);
  }

  lemma StepKeeps(d: Db, op: Op)
    requires DbOk(d) && OpOk(d, op)
    ensures DbOk(Step(d, op))
  {
    hide TreeOk, SetSession, Others, Pushed, CountOf, SidsUp, CountsExact, GoodParent, Known, Without;
    match op
    case Create =>
      CreateKeeps(d);
    case Push(sid, parent, body) =>
      if |d.ms| < DB_MAX_MESSAGES { PushKeepsDbExactly(d, sid, parent, body); }
    case Clear(sid) =>
      RemoveKeeps(d.ms, d.nextMsg, sid);
      ClearCounts(d, sid);
      OthersKnown(d.ms, d.nextSid, sid);
    case Delete(sid) =>
      RemoveKeeps(d.ms, d.nextMsg, sid);
      DeleteCounts(d, sid);
      OthersKnown(d.ms, d.nextSid, sid);
  }

  lemma CreateKeeps(d: Db)
    requires DbOk(d)
    ensures DbOk(Step(d, Create))
  {
    CountOfUnknown(d.ms, d.nextSid);
  }

  /** The states of a run from an empty database. */
  ghost predicate IsRun(states: seq<Db>, ops: seq<Op>) {
    && |states| == |ops| + 1
    && states[0] == Db([], 1, [], 1)
    && forall i | 0 <= i < |ops| :: states[i + 1] == Step(states[i], ops[i])
  }

  lemma EmptyIsOk()
    ensures DbOk(Db([], 1, [], 1))
  {
  }

  /** In every state of a run whose pushes name given-out sessions and good parents, the tree and all counts are
      exact. */
  lemma {:induction false} RunKeeps(states: seq<Db>, ops: seq<Op>, i: nat)
    requires IsRun(states, ops) && i < |states| && forall j | 0 <= j < i :: OpOk(states[j], ops[j])
    ensures DbOk(states[i])
    decreases i
  {
    hide DbOk, Step;
    if i == 0 {
      EmptyIsOk();
    } else {
      RunKeeps(states, ops, i - 1);
      StepKeeps(states[i - 1], ops[i - 1]);
      assert states[i - 1 + 1] == Step(states[i - 1], ops[i - 1]);
    }
  }

  // ----- Pushes to sessions that are still to come.

  /** The count of session sid is right, and no message waits for it if it is still to come. */
  ghost predicate SidRight(d: Db, sid: nat) {
    && (forall i | 0 <= i < |d.ss| && d.ss[i].sid == sid :: d.ss[i].count == CountOf(d.ms, sid))
    && (sid >= d.nextSid ==> CountOf(d.ms, sid) == 0)
  }

  lemma PushSid(d: Db, to: nat, parent: nat, body: Body, sid: nat)
    requires SidsUp(d.ss, d.nextSid) && SidRight(d, sid) && |d.ms| < DB_MAX_MESSAGES
    ensures SidRight(Step(d, Push(to, parent, body)), sid) <==> to != sid || sid < d.nextSid
  {
    hide Pushed, CountOf, SessionAt;
    PushedCount(d.ms, d.nextMsg, to, parent, body, sid);
    var d' := Step(d, Push(to, parent, body));
    forall i | 0 <= i < |d'.ss| && d'.ss[i].sid == sid ensures d'.ss[i].count == CountOf(d'.ms, sid) {
      assert d.ss[i].sid == sid;
    }
  }

  lemma CreateSid(d: Db, sid: nat)
    requires SidsUp(d.ss, d.nextSid) && SidRight(d, sid)
    ensures SidRight(Step(d, Create), sid)
  {
  }

  lemma ClearSid(d: Db, gone: nat, sid: nat)
    requires SidsUp(d.ss, d.nextSid) && SidRight(d, sid)
    ensures SidRight(Step(d, Clear(gone)), sid)
  {
    hide Others, CountOf, SessionAt;
    OthersCount(d.ms, gone, sid);
    var d' := Step(d, Clear(gone));
    forall i | 0 <= i < |d'.ss| && d'.ss[i].sid == sid ensures d'.ss[i].count == CountOf(d'.ms, sid) {
      assert d.ss[i].sid == sid;
    }
  }

  lemma DeleteSid(d: Db, gone: nat, sid: nat)
    requires SidsUp(d.ss, d.nextSid) && SidRight(d, sid)
    ensures SidRight(Step(d, Delete(gone)), sid)
  {
    hide Others, CountOf, SessionAt;
    OthersCount(d.ms, gone, sid);
    var d', at := Step(d, Delete(gone)), SessionAt(d.ss, gone);
    forall i | 0 <= i < |d'.ss| && d'.ss[i].sid == sid ensures d'.ss[i].count == CountOf(d'.ms, sid) {
      assert d'.ss[i] == d.ss[if i < at then i else i + 1] && sid != gone;
    }
  }

  /** An operation spoils the count of sid exactly when it stores a message for sid before sid is given out. */
  ghost predicate TooEarly(d: Db, op: Op, sid: nat) {
    op.Push? && op.sid == sid && sid >= d.nextSid && |d.ms| < DB_MAX_MESSAGES
  }

  lemma SidExactly(d: Db, op: Op, sid: nat)
    requires SidsUp(d.ss, d.nextSid) && SidRight(d, sid)
    ensures SidRight(Step(d, op), sid) <==> !TooEarly(d, op, sid)
  {
    hide SidsUp, SidRight, Step;
    match op
    case Create => CreateSid(d, sid);
    case Push(to, parent, body) =>
      if |d.ms| < DB_MAX_MESSAGES { PushSid(d, to, parent, body, sid); } else { FullPush(d, op); }
    case Clear(gone) => ClearSid(d, gone, sid);
    case Delete(gone) => DeleteSid(d, gone, sid);
  }

  lemma FullPush(d: Db, op: Op)
    requires op.Push? && |d.ms| >= DB_MAX_MESSAGES
    ensures Step(d, op) == d
  {
  }

  lemma StepSidsUp(d: Db, op: Op)
    requires SidsUp(d.ss, d.nextSid)
    ensures SidsUp(Step(d, op).ss, Step(d, op).nextSid)
  {
    hide Others, Pushed, SessionAt, CountIn;
    if op.Delete? {
      var at, ss := SessionAt(d.ss, op.sid), Without(d.ss, op.sid);
      forall i | 0 <= i < |ss| ensures ss[i] == if at == |d.ss| || i < at then d.ss[i] else d.ss[i + 1] {
      }
    }
  }

  /** Over every run, whatever sessions the pushes name: the message count of a session is exact in every state that no
      message came too early for. */
  lemma {:induction false} RunCounts(states: seq<Db>, ops: seq<Op>, sid: nat, i: nat)
    requires IsRun(states, ops) && i < |states| && forall j | 0 <= j < i :: !TooEarly(states[j], ops[j], sid)
    ensures SidsUp(states[i].ss, states[i].nextSid) && SidRight(states[i], sid)
    decreases i
  {
    hide SidsUp, SidRight, Step;
    if i == 0 {
      EmptySid(sid);
    } else {
      RunCounts(states, ops, sid, i - 1);
      StepSidsUp(states[i - 1], ops[i - 1]);
      SidExactly(states[i - 1], ops[i - 1], sid);
      assert states[i - 1 + 1] == Step(states[i - 1], ops[i - 1]);
    }
  }

  lemma EmptySid(sid: nat)
    ensures SidsUp([], 1) && SidRight(Db([], 1, [], 1), sid)
  {
  }

  /** Over every run with good parents, whatever sessions the pushes name: the tree is exact in every state. */
  lemma {:induction false} RunKeepsTree(states: seq<Db>, ops: seq<Op>, i: nat)
    requires IsRun(states, ops) && i < |states|
    requires forall j | 0 <= j < i && ops[j].Push? :: GoodParent(states[j].ms, ops[j].sid, ops[j].parent)
    ensures TreeOk(states[i].ms, states[i].nextMsg)
    decreases i
  {
    hide TreeOk, GoodParent, Pushed, Others;
    if i == 0 {
      EmptyTree();
    } else {
      RunKeepsTree(states, ops, i - 1);
      var d, op := states[i - 1], ops[i - 1];
      assert states[i - 1 + 1] == Step(d, op);
      match op
      case Create =>
      case Push(sid, parent, body) => PushKeepsExactly(d.ms, d.nextMsg, sid, parent, body);
      case Clear(sid) => RemoveKeeps(d.ms, d.nextMsg, sid);
      case Delete(sid) => RemoveKeeps(d.ms, d.nextMsg, sid);
    }
  }

  lemma EmptyTree()
    ensures TreeOk([], 1)
  {
  }

  /** A message pushed to session 1 before it exists: its parent is good, and session 1 then reports no message. */
  lemma EarlyPushMiscounts(body: Body)
    ensures var d := Step(Step(Db([], 1, [], 1), Push(1, 0, body)), Create);
            GoodParent([], 1, 0) && d.ss == [Session(1, 0, 0)] && CountOf(d.ms, 1) == 1 && !CountsExact(d.ms, d.ss)
  {
    hide Pushed;
    PushedCount([], 1, 1, 0, body, 1);
    var d := Step(Step(Db([], 1, [], 1), Push(1, 0, body)), Create);
    assert d.ss[0] == Session(1, 0, 0);
  }

  function Exec(d: Db, ops: seq<Op>): Db
    decreases |ops|
  {
    if ops == [] then d else Exec(Step(d, ops[0]), ops[1..])
  }

  lemma CreateThenDelete(d: Db)
    requires SidsUp(d.ss, d.nextSid) && |d.ss| < DB_MAX_SESSIONS && CountOf(d.ms, d.nextSid) == 0
    ensures Others(d.ms, d.nextSid) == d.ms
    ensures Step(Step(d, Create), Delete(d.nextSid)) == d.(nextSid := d.nextSid + 1)
  {
    OthersNone(d.ms, d.nextSid);
    var ss := d.ss + [Session(d.nextSid, 0, 0)];
    SessionAtIs(ss, d.nextSid, |d.ss|);
    assert ss[..|d.ss|] + ss[|d.ss| + 1..] == d.ss;
  }

  lemma {:induction false} OthersNone(ms: seq<Msg>, sid: nat)
    requires CountOf(ms, sid) == 0
    ensures Others(ms, sid) == ms
  {
    if ms != [] {
      var n := |ms| - 1;
      OthersNone(ms[..n], sid);
      assert ms == ms[..n] + [ms[n]];
    }
  }

  ghost predicate NoPush(ops: seq<Op>) { forall i | 0 <= i < |ops| :: !ops[i].Push? }

  /** Some operations other than pushes lead to a wrong count. */
  ghost predicate CanMiscount(d: Db) {
    exists ops :: NoPush(ops) && !CountsExact(Exec(d, ops).ms, Exec(d, ops).ss)
  }

  lemma MiscountBefore(d: Db, op: Op)
    requires !op.Push? && CanMiscount(Step(d, op))
    ensures CanMiscount(d)
  {
    hide Step, CountsExact;
    var d' := Step(d, op);
    var rest :| NoPush(rest) && !CountsExact(Exec(d', rest).ms, Exec(d', rest).ss);
    var ops := [op] + rest;
    assert ops[1..] == rest;
    assert NoPush(ops) && Exec(d, ops) == Exec(d', rest);
  }

  /** A message waiting for sid comes to light when sid is created; until then sessions can be created and deleted. */
  lemma {:induction false} EarlyMessageSurfaces(d: Db, sid: nat)
    requires SidsUp(d.ss, d.nextSid) && |d.ss| < DB_MAX_SESSIONS && d.nextSid <= sid && CountOf(d.ms, sid) > 0
    ensures CanMiscount(d)
    decreases sid - d.nextSid
  {
    hide CanMiscount;
    if CountOf(d.ms, d.nextSid) > 0 {
      WrongNow(Step(d, Create), |d.ss|);
      MiscountBefore(d, Create);
    } else {
      CreateThenDelete(d);
      EarlyMessageSurfaces(d.(nextSid := d.nextSid + 1), sid);
      MiscountBefore(Step(d, Create), Delete(d.nextSid));
      MiscountBefore(d, Create);
    }
  }

  lemma WrongNow(d: Db, i: nat)
    requires i < |d.ss| && d.ss[i].count != CountOf(d.ms, d.ss[i].sid)
    ensures CanMiscount(d)
  {
    assert NoPush([]) && Exec(d, []) == d;
  }

  /** The counts are right and will stay right. */
  ghost predicate CountsOk(d: Db) { SidsUp(d.ss, d.nextSid) && CountsExact(d.ms, d.ss) && Known(d.ms, d.nextSid) }

  lemma {:induction false} ExecCounts(d: Db, ops: seq<Op>)
    requires CountsOk(d) && NoPush(ops)
    ensures CountsOk(Exec(d, ops))
    decreases |ops|
  {
    hide SidsUp, CountsExact, Known, Others, SetSession, Without, CountOf;
    if ops != [] {
      var op := ops[0];
      assert !op.Push?;
      match op {
        case Create => CreateCounts(d);
        case Clear(sid) => ClearCounts(d, sid); OthersKnown(d.ms, d.nextSid, sid);
        case Delete(sid) => DeleteCounts(d, sid); OthersKnown(d.ms, d.nextSid, sid);
      }
      ExecCounts(Step(d, op), ops[1..]);
    }
  }

  lemma CreateCounts(d: Db)
    requires CountsOk(d)
    ensures CountsOk(Step(d, Create))
  {
    CountOfUnknown(d.ms, d.nextSid);
  }

  /** After a push all counts are right and stay right, until the next push, exactly when its session id was given
      out. */
  lemma CountsStayExactly(d: Db, sid: nat, parent: nat, body: Body)
    requires CountsOk(d) && |d.ms| < DB_MAX_MESSAGES && |d.ss| <= DB_MAX_SESSIONS
    ensures CanMiscount(Step(d, Push(sid, parent, body))) <==> sid >= d.nextSid
  {
    hide SidsUp, CountsExact, Known, SetSession, Pushed, CountOf, CanMiscount;
    var d' := Step(d, Push(sid, parent, body));
    PushCounts(d, sid, parent, body);
    PushKnown(d, sid, parent, body);
    if sid < d.nextSid {
      NeverMiscounts(d');
    } else {
      PushedCount(d.ms, d.nextMsg, sid, parent, body, sid);
      if |d'.ss| < DB_MAX_SESSIONS {
        EarlyMessageSurfaces(d', sid);
      } else {
        MakeSessionRoom(d', sid);
      }
    }
  }

  lemma NeverMiscounts(d: Db)
    requires CountsOk(d)
    ensures !CanMiscount(d)
  {
    hide CountsExact;
    forall ops | NoPush(ops) ensures CountsExact(Exec(d, ops).ms, Exec(d, ops).ss) {
      ExecCounts(d, ops);
    }
  }

  lemma MakeSessionRoom(d: Db, sid: nat)
    requires SidsUp(d.ss, d.nextSid) && |d.ss| == DB_MAX_SESSIONS && d.nextSid <= sid && CountOf(d.ms, sid) > 0
    ensures CanMiscount(d)
  {
    hide CanMiscount, Others, CountOf;
    var op := Delete(d.ss[0].sid);
    StepSidsUp(d, op);
    SessionAtIs(d.ss, d.ss[0].sid, 0);
    OthersCount(d.ms, d.ss[0].sid, sid);
    EarlyMessageSurfaces(Step(d, op), sid);
    MiscountBefore(d, op);
  }

  // ----- Branches.

  /** The ids on the way from cur up, at most `room` of them, ending at a root or at an unknown id. */
  function Ancestors(ms: seq<Msg>, cur: nat, room: nat): (r: seq<nat>)
    ensures |r| <= room
    decreases room
  {
    if cur == 0 || room == 0 then []
    else match Lookup(ms, cur) {
      case None => [cur]
      case Some(m) => [cur] + Ancestors(ms, m.parent, room - 1)
    }
  }

  /** What a request for a branch gives: the collected ids in reverse, looked up, up to max; None is an entry that is
      counted and not filled in. */
  function Listing(ms: seq<Msg>, leaf: nat, max: nat): seq<Option<Msg>> {
    var up := Ancestors(ms, leaf, STACK);
    seq(if |up| < max then |up| else max, i requires 0 <= i < |up| => Lookup(ms, up[|up| - 1 - i]))
  }

  /** The last `room` ids of a path, from its end. */
  ghost predicate FromTheEnd(up: seq<nat>, path: seq<Msg>, room: nat) {
    && |up| == (if |path| < room then |path| else room)
    && forall k | 0 <= k < |up| :: up[k] == path[|path| - 1 - k].id
  }

  lemma FromTheEndStep(up: seq<nat>, path: seq<Msg>, m: Msg, room: nat)
    requires FromTheEnd(up, path, room)
    ensures FromTheEnd([m.id] + up, path + [m], room + 1)
  {
  }

  lemma FromTheEndStart(path: seq<Msg>, m: Msg, room: nat)
    ensures FromTheEnd([], path, 0) && FromTheEnd([m.id] + [], [m], room + 1)
  {
  }

  lemma {:induction false} AncestorsAreBranch(ms: seq<Msg>, next: nat, m: Msg, room: nat)
    requires TreeOk(ms, next) && m in ms
    ensures FromTheEnd(Ancestors(ms, m.id, room), Branch(ms, next, m), room)
    decreases room
  {
    hide Ancestors, Branch, TreeOk, Lookup, FromTheEnd;
    if room == 0 {
      AncestorsEnd(ms, m.id, room);
      FromTheEndStart(Branch(ms, next, m), m, room);
    } else {
      var p := BranchStep(ms, next, m);
      AncestorsStep(ms, m.id, room, []);
      InTable(ms, next, m);
      if m.parent == 0 {
        AncestorsEnd(ms, 0, room - 1);
        FromTheEndStart([m], m, room - 1);
      } else {
        AncestorsAreBranch(ms, next, p, room - 1);
        FromTheEndStep(Ancestors(ms, m.parent, room - 1), Branch(ms, next, p), m, room - 1);
      }
    }
  }

  lemma {:induction false} AncestorsEnd(ms: seq<Msg>, cur: nat, room: nat)
    ensures cur == 0 || room == 0 ==> Ancestors(ms, cur, room) == []
  {
  }

  lemma {:induction false} AncestorsStep(ms: seq<Msg>, cur: nat, room: nat, before: seq<nat>)
    requires cur != 0 && room > 0
    ensures var rest := if Lookup(ms, cur).None? then [] else Ancestors(ms, Lookup(ms, cur).value.parent, room - 1);
            && Ancestors(ms, cur, room) == [cur] + rest
            && before + Ancestors(ms, cur, room) == (before + [cur]) + rest
  {
    hide Lookup;
    var rest := if Lookup(ms, cur).None? then [] else Ancestors(ms, Lookup(ms, cur).value.parent, room - 1);
    assert [cur] + [] == [cur];
    assert Ancestors(ms, cur, room) == [cur] + rest;
    assert before + ([cur] + rest) == (before + [cur]) + rest;
  }

  /** What a request for the branch of a known leaf should give. */
  ghost predicate Listed(path: seq<Msg>, max: nat, out: seq<Option<Msg>>) {
    var top := if |path| < STACK then 0 else |path| - STACK;
    && |out| == (if |path| - top < max then |path| - top else max)
    && forall k | 0 <= k < |out| :: out[k] == Some(path[top + k])
  }

  /** In a right tree a known leaf gives the path from the root to it; of a deeper one the 512 messages next to the
      leaf, and of those the first max.  An unknown leaf gives one entry that is not filled in. */
  lemma BranchExactly(ms: seq<Msg>, next: nat, leaf: nat, max: nat)
    requires TreeOk(ms, next)
    ensures leaf == 0 ==> Listing(ms, leaf, max) == []
    ensures leaf != 0 && Lookup(ms, leaf).None? ==> Listing(ms, leaf, max) == if max == 0 then [] else [None]
    ensures leaf != 0 && Lookup(ms, leaf).Some? ==>
              Listed(Branch(ms, next, Lookup(ms, leaf).value), max, Listing(ms, leaf, max))
  {
    hide TreeOk, Branch, Listing, Listed, Lookup;
    if leaf == 0 || Lookup(ms, leaf).None? {
      NoBranch(ms, leaf, max);
    } else {
      KnownBranch(ms, next, Lookup(ms, leaf).value, max);
    }
  }

  lemma {:induction false} NoBranch(ms: seq<Msg>, leaf: nat, max: nat)
    requires leaf == 0 || Lookup(ms, leaf).None?
    ensures Listing(ms, leaf, max) == if leaf == 0 || max == 0 then [] else [None]
  {
  }

  lemma {:induction false} KnownBranch(ms: seq<Msg>, next: nat, m: Msg, max: nat)
    requires TreeOk(ms, next) && m in ms
    ensures Listed(Branch(ms, next, m), max, Listing(ms, m.id, max))
  {
    hide TreeOk, Branch, Lookup, Ancestors;
    AncestorsAreBranch(ms, next, m, STACK);
    BranchIsPath(ms, next, m);
    var path, out := Branch(ms, next, m), Listing(ms, m.id, max);
    var top := if |path| < STACK then 0 else |path| - STACK;
    forall k | 0 <= k < |out| ensures out[k] == Some(path[top + k]) {
      assert path[top + k] in ms;
      InTable(ms, next, path[top + k]);
    }
  }

  lemma InTable(ms: seq<Msg>, next: nat, m: Msg)
    requires TreeOk(ms, next) && m in ms
    ensures Lookup(ms, m.id) == Some(m)
  {
    var i :| 0 <= i < |ms| && ms[i] == m;
    LookupIs(ms, next, i);
  }

  // ----- The database.

  class Database {
    var messages: seq<Msg>
    var nextMsg: nat
    var sessions: seq<Session>
    var nextSid: nat

    ghost function State(): Db
      reads this
    {
      Db(messages, nextMsg, sessions, nextSid)
    }

    ghost predicate Valid()
      reads this
    {
      IdsUp(messages, nextMsg) && |messages| <= DB_MAX_MESSAGES && |sessions| <= DB_MAX_SESSIONS
    }

    constructor ()
      ensures Valid() && State() == Db([], 1, [], 1)
    {
      messages, nextMsg, sessions, nextSid := [], 1, [], 1;
    }

    /** aevos_db_session_create. */
    method SessionCreate() returns (sid: Option<nat>)
      requires Valid()
      modifies this
      ensures Valid() && State() == Step(old(State()), Create)
      ensures sid == if old(|sessions|) < DB_MAX_SESSIONS then Some(old(nextSid)) else None
    {
      if |sessions| >= DB_MAX_SESSIONS {
        return None;
      }
      sid := Some(nextSid);
      sessions := sessions + [Session(nextSid, 0, 0)];
      nextSid := nextSid + 1;
    }

    /** find_msg_by_id. */
    method FindMsg(id: nat) returns (i: nat)
      requires Valid()
      ensures i <= |messages| && Lookup(messages, id) == if i < |messages| then Some(messages[i]) else None
      ensures forall j | 0 <= j < |messages| :: messages[j].id == id <==> j == i
    {
      i := 0;
      while i < |messages|
        invariant i <= |messages| && forall j | 0 <= j < i :: messages[j].id != id
      {
        if messages[i].id == id {
          LookupIs(messages, nextMsg, i);
          return;
        }
        i := i + 1;
      }
      LookupNone(messages, id);
    }

    method FindSession(sid: nat) returns (i: nat)
      ensures i == SessionAt(sessions, sid)
    {
      i := 0;
      while i < |sessions| && sessions[i].sid != sid
        invariant i <= |sessions| && forall j | 0 <= j < i :: sessions[j].sid != sid
      {
        i := i + 1;
      }
      SessionAtIs(sessions, sid, i);
    }

    /** The parent, if there is one, counts one more child. */
    method CountChild(parent: nat) returns (depth: nat)
      requires Valid()
      modifies this`messages
      ensures messages == (if parent == 0 then old(messages) else Bumped(old(messages), parent))
      ensures messages == Bumped(old(messages), parent) && depth == DepthUnder(old(messages), parent)
    {
      hide Lookup;
      depth := 0;
      if parent != 0 {
        var p := FindMsg(parent);
        if p < |messages| {
          depth := messages[p].depth + 1;
          messages := messages[p := messages[p].(children := messages[p].children + 1)];
        }
      }
    }

    /** aevos_db_history_push.  The parent's child count goes up before memory for the text is found. */
    method HistoryPush(sid: nat, parent: nat, body: Body, memory: bool) returns (id: Option<nat>)
      requires Valid()
      modifies this
      ensures Valid()
      ensures id == if memory && old(|messages|) < DB_MAX_MESSAGES then Some(old(nextMsg)) else None
      ensures memory ==> State() == Step(old(State()), Push(sid, parent, body))
      ensures !memory && old(|messages|) >= DB_MAX_MESSAGES ==> State() == old(State())
      ensures !memory && old(|messages|) < DB_MAX_MESSAGES ==>
                State() == old(State()).(ms := if parent == 0 then old(messages) else Bumped(old(messages), parent))
    {
      hide Lookup, SessionAt, DepthUnder, IdsUp, Bumped;
      if |messages| >= DB_MAX_MESSAGES {
        return None;
      }
      ghost var ms0 := messages;
      BumpedIds(messages, nextMsg, parent);
      var depth := CountChild(parent);
      if !memory {
        return None;
      }
      PushedIds(ms0, nextMsg, sid, parent, body);
      messages := messages + [Msg(nextMsg, sid, parent, body, 0, depth)];
      id := Some(nextMsg);
      var i := FindSession(sid);
      if i < |sessions| {
        sessions := sessions[i := Session(sid, sessions[i].count + 1, nextMsg)];
      }
      nextMsg := nextMsg + 1;
    }

    static lemma BumpedIds(ms: seq<Msg>, next: nat, parent: nat)
      requires IdsUp(ms, next)
      ensures IdsUp(Bumped(ms, parent), next)
    {
    }

    /** The compaction loop: messages of the session are squeezed out in place. */
    method Compact(sid: nat)
      modifies this`messages
      ensures messages == Others(old(messages), sid)
    {
      ghost var ms0 := messages;
      var w := 0;
      for r := 0 to |messages|
        invariant w <= r && |messages| == |ms0|
        invariant messages[..w] == Others(ms0[..r], sid)
        invariant messages[r..] == ms0[r..]
      {
        assert messages[r] == messages[r..][0] == ms0[r];
        assert ms0[..r + 1][..r] == ms0[..r];
        assert messages[r + 1..] == messages[r..][1..] == ms0[r + 1..];
        if messages[r].sid != sid {
          ghost var kept, rest := messages[..w], messages[r + 1..];
          messages := messages[w := messages[r]];
          w := w + 1;
          assert messages[..w] == kept + [ms0[r]];
          assert messages[r + 1..] == rest;
        }
      }
      assert ms0[..|ms0|] == ms0;
      messages := messages[..w];
    }

    /** aevos_db_history_clear. */
    method HistoryClear(sid: nat)
      requires Valid()
      modifies this
      ensures Valid() && State() == Step(old(State()), Clear(sid))
    {
      hide SessionAt, Others, IdsUp;
      OthersUp(messages, nextMsg, sid);
      Compact(sid);
      var i := FindSession(sid);
      if i < |sessions| {
        sessions := sessions[i := Session(sid, 0, 0)];
      }
    }

    /** aevos_db_session_delete. */
    method SessionDelete(sid: nat)
      requires Valid()
      modifies this
      ensures Valid() && State() == Step(old(State()), Delete(sid))
    {
      hide SessionAt, Others, IdsUp;
      OthersUp(messages, nextMsg, sid);
      Compact(sid);
      var i := FindSession(sid);
      if i < |sessions| {
        sessions := sessions[..i] + sessions[i + 1..];
      }
    }

    /** The walk from the leaf towards the root. */
    method Climb(leaf: nat) returns (stack: seq<nat>)
      requires Valid()
      ensures stack == Ancestors(messages, leaf, STACK)
    {
      hide IdsUp, Lookup, Ancestors;
      stack := [];
      var cur := leaf;
      while cur != 0 && |stack| < STACK
        invariant |stack| <= STACK
        invariant Ancestors(messages, leaf, STACK) == stack + Ancestors(messages, cur, STACK - |stack|)
        decreases STACK - |stack|
      {
        AncestorsStep(messages, cur, STACK - |stack|, stack);
        stack := stack + [cur];
        var i := FindMsg(cur);
        if i == |messages| {
          return;
        }
        cur := messages[i].parent;
      }
      AncestorsEnd(messages, cur, STACK - |stack|);
    }

    /** aevos_db_history_get_branch, for every table. */
    method GetBranch(leaf: nat, max: nat) returns (out: seq<Option<Msg>>)
      requires Valid()
      ensures out == Listing(messages, leaf, max)
    {
      hide IdsUp, Lookup, Ancestors;
      var stack := Climb(leaf);
      var depth := |stack|;
      var n := if depth < max then depth else max;
      out := [];
      for i := 0 to n
        invariant |out| == i && forall k | 0 <= k < i :: out[k] == Lookup(messages, stack[depth - 1 - k])
      {
        var at := FindMsg(stack[depth - 1 - i]);
        out := out + [if at < |messages| then Some(messages[at]) else None];
      }
    }
  }
}
