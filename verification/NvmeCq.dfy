/** The NVMe completion queue (nvme.c) against a controller that posts in order, inverts the phase tag on every
    pass and respects the head doorbell: section 4.6 of NVM Express Base Specification 1.4. */
module NvmeCq {
  import opened Counting

  /** A completion entry; `phase` is bit 0 of the status word. */
  datatype Cpl = Cpl(result: nat, cid: nat, code: nat, phase: nat)

  /** The slots and the head doorbell are shared; head and phase are the driver's.  The logs are the proof's:
      what the controller posted, what the driver took, and how often the doorbell has been brought up to date. */
  datatype Queue = Queue(cq: seq<Cpl>, doorbell: nat, head: nat, phase: nat, rings: nat, posted: seq<Cpl>,
      taken: seq<Cpl>)

  function Size(q: Queue): nat { |q.cq| }

  /** The tag of absolute position i: 1 on the first pass, then alternating. */
  function Tag(i: nat, size: nat): nat
    requires size > 0
  {
    (1 + i / size) % 2
  }

  // ----- The driver.

  /** The test nvme_poll_cpl spins on. */
  ghost predicate SeesNew(q: Queue)
    requires q.head < Size(q)
  {
    q.cq[q.head].phase == q.phase
  }

  /** Copy the entry, advance head, invert the expected phase on wrap. */
  function Consume(q: Queue): Queue
    requires q.head < Size(q)
  {
    var h := (q.head + 1) % Size(q);
    q.(taken := q.taken + [q.cq[q.head]], head := h, phase := if h != 0 then q.phase else if q.phase == 0 then 1 else 0)
  }

  /** Write head to the doorbell. */
  function Ring(q: Queue): Queue {
    q.(doorbell := q.head, rings := |q.taken|)
  }

  // ----- The controller.

  /** Room: posting must not make the tail reach the head it knows of. */
  ghost predicate CanPost(q: Queue) {
    0 < Size(q) && (|q.posted| + 1) % Size(q) != q.doorbell
  }

  function Post(q: Queue, result: nat, cid: nat, code: nat): Queue
    requires 0 < Size(q)
  {
    var i := |q.posted|;
    var c := Cpl(result, cid, code, Tag(i, Size(q)));
    q.(cq := q.cq[i % Size(q) := c], posted := q.posted + [c])
  }

  ghost predicate Next(q: Queue, q': Queue) {
    || (q.head < Size(q) && SeesNew(q) && q' == Consume(q))
    || q' == Ring(q)
    || (exists result, cid, code :: CanPost(q) && q' == Post(q, result, cid, code))
  }

  /** init_queue: zeroed slots, head 0, phase 1. */
  function Start(size: nat): Queue {
    Queue(seq(size, _ => Cpl(0, 0, 0, 0)), 0, 0, 1, 0, [], [])
  }

  // ----- The invariant.

  ghost predicate Counters(q: Queue) {
    && 0 < Size(q)
    && q.head == |q.taken| % Size(q) && q.phase == Tag(|q.taken|, Size(q)) && q.doorbell == q.rings % Size(q)
    && q.rings <= |q.taken| <= |q.posted| < q.rings + Size(q)
    && q.taken == q.posted[..|q.taken|]
  }

  /** A position within one pass of the next unread one shows its entry once posted, and the other tag before. */
  ghost predicate SlotAt(q: Queue, i: nat)
    requires 0 < Size(q)
  {
    |q.taken| <= i < |q.taken| + Size(q) ==>
      if i < |q.posted| then q.cq[i % Size(q)] == q.posted[i] && q.posted[i].phase == Tag(i, Size(q))
      else q.cq[i % Size(q)].phase == 1 - Tag(i, Size(q))
  }

  ghost predicate Inv(q: Queue) {
    Counters(q) && forall i: nat :: SlotAt(q, i)
  }

  lemma StepQuotient(i: nat, n: nat, q: nat, r: nat)
    requires i == q * n + r && r < n
    ensures (i + 1) % n == (r + 1) % n == if r + 1 < n then r + 1 else 0
    ensures (i + 1) / n == if r + 1 < n then q else q + 1
  {
    if r + 1 < n {
      ModIs(i + 1, n, q, r + 1);
      ModIs(r + 1, n, 0, r + 1);
    } else {
      MulSplit(q, 1, n);
      ModIs(i + 1, n, q + 1, 0);
      ModIs(r + 1, n, 1, 0);
    }
  }

  lemma StepDivMod(i: nat, n: nat)
    requires n > 0
    ensures (i + 1) % n == (i % n + 1) % n
    ensures (i + 1) / n == i / n + if (i + 1) % n == 0 then 1 else 0
  {
    DivMod(i, n);
    StepQuotient(i, n, i / n, i % n);
  }

  lemma OnePassLater(i: nat, n: nat)
    requires n > 0
    ensures (i + n) % n == i % n && Tag(i + n, n) == 1 - Tag(i, n)
  {
    DivMod(i, n);
    MulSplit(i / n, 1, n);
    ModIs(i + n, n, i / n + 1, i % n);
  }

  /** The poll sees a new entry exactly when one is posted and unread: never a stale slot. */
  lemma PollIsExact(q: Queue)
    requires Inv(q)
    ensures q.head < Size(q)
    ensures SeesNew(q) <==> |q.taken| < |q.posted|
    ensures SeesNew(q) ==> q.cq[q.head] == q.posted[|q.taken|]
  {
    DivMod(|q.taken|, Size(q));
    assert SlotAt(q, |q.taken|);
  }

  /** The controller can post exactly while fewer than size - 1 entries wait beyond the doorbell. */
  lemma RoomIsExact(q: Queue)
    requires Inv(q)
    ensures CanPost(q) <==> |q.posted| - q.rings < Size(q) - 1
  {
    var n, p := Size(q), |q.posted|;
    if p + 1 == q.rings + n { OnePassLater(q.rings, n); } else { ModApart(q.rings, p + 1, n); }
  }

  lemma ConsumeCounters(q: Queue)
    requires Counters(q) && |q.taken| < |q.posted| && q.cq[q.head] == q.posted[|q.taken|]
    ensures Counters(Consume(q))
  {
    hide Tag;
    TagNext(|q.taken|, Size(q));
    assert Consume(q).taken == q.posted[..|q.taken| + 1];
  }

  lemma TagNext(c: nat, n: nat)
    requires n > 0
    ensures (c + 1) % n == (c % n + 1) % n && 0 <= Tag(c, n) <= 1
    ensures Tag(c + 1, n) == if (c + 1) % n == 0 then 1 - Tag(c, n) else Tag(c, n)
  {
    StepDivMod(c, n);
  }

  lemma ConsumeSlot(q: Queue, i: nat)
    requires Counters(q) && SlotAt(q, i) && SlotAt(q, |q.taken|) && |q.taken| < |q.posted|
    ensures Size(Consume(q)) == Size(q) && SlotAt(Consume(q), i)
  {
    hide Tag;
    var n, c := Size(q), |q.taken|;
    if i == c + n { OnePassLater(c, n); }
  }

  lemma ConsumeKeeps(q: Queue)
    requires Inv(q) && q.head < Size(q) && SeesNew(q)
    ensures Inv(Consume(q))
  {
    PollIsExact(q);
    assert SlotAt(q, |q.taken|);
    ConsumeCounters(q);
    var q' := Consume(q);
    forall i: nat ensures SlotAt(q', i) {
      assert SlotAt(q, i);
      ConsumeSlot(q, i);
    }
  }

  lemma PostKeeps(q: Queue, result: nat, cid: nat, code: nat)
    requires Inv(q) && CanPost(q)
    ensures Inv(Post(q, result, cid, code))
  {
    var n, p := Size(q), |q.posted|;
    var q' := Post(q, result, cid, code);
    if p + 1 == q.rings + n { OnePassLater(q.rings, n); }
    DivMod(p, n);
    forall i: nat ensures SlotAt(q', i) {
      assert SlotAt(q, i);
      if |q.taken| <= i < |q.taken| + n && i != p {
        if i < p { ModApart(i, p, n); } else { ModApart(p, i, n); }
      }
    }
  }

  lemma NextKeeps(q: Queue, q': Queue)
    requires Inv(q) && Next(q, q')
    ensures Inv(q') && Size(q') == Size(q) && q.posted <= q'.posted && q.taken <= q'.taken
  {
    if q.head < Size(q) && SeesNew(q) && q' == Consume(q) {
      ConsumeKeeps(q);
    } else if q' == Ring(q) {
      forall i: nat ensures SlotAt(q', i) { assert SlotAt(q, i); }
    } else {
      var result, cid, code :| CanPost(q) && q' == Post(q, result, cid, code);
      PostKeeps(q, result, cid, code);
    }
  }

  ghost predicate IsRun(qs: seq<Queue>, size: nat) {
    |qs| >= 1 && qs[0] == Start(size) && forall i | 0 <= i < |qs| - 1 :: Next(qs[i], qs[i + 1])
  }

  /** In every interleaving the driver takes every completion once, in posting order; after c of them head is
      c mod size and the expected phase 1 xor (c div size mod 2). */
  lemma {:induction false} RunKeeps(qs: seq<Queue>, size: nat)
    requires IsRun(qs, size) && size > 0
    ensures var q := qs[|qs| - 1];
            && Inv(q) && Size(q) == size && q.taken <= q.posted
            && q.head == |q.taken| % size && q.phase == (1 + |q.taken| / size) % 2
    decreases |qs|
  {
    hide Next;
    if |qs| == 1 {
      var q := qs[0];
      ModIs(0, size, 0, 0);
      forall i: nat ensures SlotAt(q, i) { if i < size { ModIs(i, size, 0, i); } }
    } else {
      var front := qs[..|qs| - 1];
      forall i | 0 <= i < |front| - 1 ensures Next(front[i], front[i + 1]) { assert Next(qs[i], qs[i + 1]); }
      RunKeeps(front, size);
      assert Next(qs[|qs| - 2], qs[|qs| - 1]);
      NextKeeps(front[|front| - 1], qs[|qs| - 1]);
    }
  }

  // ----- The status word is read after the doorbell.

  ghost predicate PostStep(q: Queue, q': Queue) {
    exists result, cid, code :: CanPost(q) && q' == Post(q, result, cid, code)
  }

  /** While the doorbell shows everything taken, no post touches the slot taken last. */
  lemma PostLeavesLastTaken(q: Queue, q': Queue)
    requires Inv(q) && q.rings == |q.taken| > 0 && PostStep(q, q')
    ensures Inv(q') && q'.rings == |q'.taken| && q'.taken == q.taken && Size(q') == Size(q)
    ensures var slot := (|q.taken| - 1) % Size(q); q'.cq[slot] == q.cq[slot]
  {
    hide SlotAt, Tag;
    var result, cid, code :| CanPost(q) && q' == Post(q, result, cid, code);
    PostKeeps(q, result, cid, code);
    ModApart(|q.taken| - 1, |q.posted|, Size(q));
  }

  /** Whatever the controller posts between the doorbell and the next poll, the entry just taken is still in its
      slot. */
  lemma {:induction false} LateReadIsSafe(q: Queue, qs: seq<Queue>)
    requires Inv(q) && q.head < Size(q) && SeesNew(q)
    requires |qs| >= 1 && qs[0] == Ring(Consume(q)) && forall i | 0 <= i < |qs| - 1 :: PostStep(qs[i], qs[i + 1])
    ensures var last := qs[|qs| - 1];
            && Inv(last) && last.rings == |last.taken| == |q.taken| + 1 && Size(last) == Size(q)
            && last.cq[q.head] == q.cq[q.head]
    decreases |qs|
  {
    hide Inv, PostStep;
    HeadIsTaken(q);
    if |qs| == 1 {
      ConsumeKeeps(q);
      NextKeeps(Consume(q), Ring(Consume(q)));
    } else {
      var n := |qs| - 1;
      LateReadIsSafe(q, qs[..n]);
      assert PostStep(qs[n - 1], qs[n - 1 + 1]);
      PostLeavesLastTaken(qs[n - 1], qs[n]);
    }
  }

  lemma HeadIsTaken(q: Queue)
    requires Inv(q)
    ensures Size(q) > 0 && q.head == |q.taken| % Size(q)
  {
  }

  /** The queue pair's completion side as the driver sees it. */
  class CompletionQueue {
    var cq: seq<Cpl>
    var doorbell: nat
    var head: nat
    var phase: nat
    ghost var rings: nat
    ghost var posted: seq<Cpl>
    ghost var taken: seq<Cpl>

    ghost function State(): Queue
      reads this
    {
      Queue(cq, doorbell, head, phase, rings, posted, taken)
    }

    /** init_queue. */
    constructor (size: nat)
      requires size > 0
      ensures State() == Start(size)
    {
      cq := seq(size, _ => Cpl(0, 0, 0, 0));
      doorbell, head, phase := 0, 0, 1;
      rings, posted, taken := 0, [], [];
    }

    /** One probe of nvme_poll_cpl: whether an entry was there, whether its status code is zero, and the entry.  The
        source reads the status once more after the doorbell; by LateReadIsSafe that is the entry it copied. */
    method Probe() returns (found: bool, success: bool, out: Cpl)
      requires Inv(State())
      modifies this
      ensures Inv(State()) && found == (|old(taken)| < |old(posted)|) && (success <==> found && out.code == 0)
      ensures found ==> out == old(posted)[|old(taken)|] && taken == old(taken) + [out]
                        && State() == Ring(Consume(old(State()))) && cq[old(head)] == out
      ensures !found ==> State() == old(State())
    {
      ghost var q := State();
      PollIsExact(q);
      success := false;
      out := cq[head];
      found := out.phase == phase;
      if found {
        ConsumeKeeps(q);
        NextKeeps(Consume(q), Ring(Consume(q)));
        var slot := head;
        head := (head + 1) % |cq|;
        if head == 0 {
          phase := if phase == 0 then 1 else 0;
        }
        doorbell := head;
        taken := taken + [out];
        rings := |taken|;
        success := cq[slot].code == 0;
      }
    }
  }
}
