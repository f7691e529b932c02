/** What every interleaving of the receive queue's driver and device keeps. */
module VirtioProofs {
  import opened Bytes
  import opened Counting
  import opened VirtioRx

  /** How many used elements the driver has taken. */
  function Seen(q: Queue): nat { |q.delivered| + if q.pc.Popped? then 1 else 0 }

  /** How many used elements the device has written. */
  function Written(q: Queue): nat { |q.posted| + |q.pending| }

  /** The element at a position of the used ring, published or not. */
  function ElemAt(q: Queue, i: nat): Elem
    requires i < Written(q)
  {
    if i < |q.posted| then Elem(q.posted[i].id, |q.posted[i].data|) else q.pending[i - |q.posted|]
  }

  ghost predicate Shapes(q: Queue) {
    && 0 < Size(q) <= 256 && U16 % Size(q) == 0
    && |q.avail| == |q.used| == |q.buffers| == |q.whose| == Size(q)
    && (forall d | 0 <= d < Size(q) :: |q.buffers[d]| == SLOT_SIZE && q.desc[d] == DescFor(q, d))
  }

  /** The uint16_t indices are the counters modulo 2^16, and neither ring holds more than it has room for. */
  ghost predicate Indices(q: Queue) {
    && q.availIdx == q.offered % U16 && q.devIdx == q.taken % U16
    && q.usedIdx == |q.posted| % U16 && q.lastUsed == Seen(q) % U16
    && q.taken <= q.offered <= q.taken + Size(q)
    && Seen(q) <= |q.posted| && Written(q) <= Seen(q) + Size(q)
  }

  /** Position i of the available ring has not been overwritten. */
  ghost predicate AvailAt(q: Queue, i: nat)
    requires Shapes(q)
  {
    q.taken <= i < q.offered ==> var id := q.avail[i % Size(q)]; id < Size(q) && q.whose[id] == InAvail(i)
  }

  /** Position i of the used ring still says what the device wrote, and a published buffer what it held then. */
  ghost predicate UsedAt(q: Queue, i: nat)
    requires Shapes(q)
  {
    Seen(q) <= i < Written(q) ==>
      var e := ElemAt(q, i);
      && e.id < Size(q) && q.used[i % Size(q)] == e && q.whose[e.id] == InUsed(i) && e.len <= SLOT_SIZE
      && (i < |q.posted| ==> q.buffers[e.id][..e.len] == q.posted[i].data)
  }

  /** A descriptor is where `whose` says, and nowhere else. */
  ghost predicate Located(q: Queue, id: nat)
    requires Shapes(q)
  {
    id < Size(q) ==>
      match q.whose[id] {
        case InAvail(i) => q.taken <= i < q.offered && q.avail[i % Size(q)] == id
        case InUsed(i) => Seen(q) <= i < Written(q) && ElemAt(q, i).id == id
        case WithDriver => Holding(q) && q.pc.d == id
        case WithDevice => true
      }
  }

  /** The driver has taken a descriptor and not yet offered it again. */
  predicate Holding(q: Queue) { q.pc.Popped? || q.pc.Copied? || q.pc.Reset? || q.pc.Listed? }

  ghost predicate InHand(q: Queue)
    requires Shapes(q)
  {
    && (Holding(q) ==> q.pc.d < Size(q) && q.whose[q.pc.d] == WithDriver)
    && (q.pc.Noticed? || q.pc.GotId? || q.pc.Popped? ==> |q.delivered| < |q.posted|)
    && (q.pc.GotId? ==> q.pc.d == q.posted[|q.delivered|].id)
    && (q.pc.Popped? ==>
          var c := q.posted[|q.delivered|];
          c.id == q.pc.d && |c.data| == q.pc.l <= SLOT_SIZE && q.buffers[q.pc.d][..q.pc.l] == c.data)
    && (q.pc.Listed? ==> q.avail[q.offered % Size(q)] == q.pc.d)
  }

  /** Frame i was delivered as the device left it. */
  ghost predicate DeliveredAt(q: Queue, i: nat) {
    i < |q.delivered| ==> i < |q.posted| && q.delivered[i] == Payload(q.posted[i].data, |q.posted[i].data|)
  }

  /** What the driver takes for a buffer holds what the device has put there. */
  ghost predicate Shared(mem: seq<byte>, buffers: seq<seq<byte>>) {
    |mem| == |buffers| * SLOT_SIZE && forall d | 0 <= d < |buffers| :: Slot(mem, d) == buffers[d]
  }

  ghost predicate Inv(q: Queue) {
    && q.ready && Shapes(q) && Indices(q) && InHand(q) && Shared(q.mem, q.buffers)
    && (forall i: nat :: AvailAt(q, i))
    && (forall i: nat :: UsedAt(q, i))
    && (forall id: nat :: Located(q, id))
    && (forall i: nat :: DeliveredAt(q, i))
  }

  // ----- Arithmetic of the indices.

  lemma SlotOf(x: nat, q: Queue)
    requires Shapes(q)
    ensures (x % U16) % Size(q) == x % Size(q) < Size(q)
  {
    ModOfMod(x, U16, Size(q));
  }

  lemma IncIs(x: nat)
    ensures Inc16(x % U16) == (x + 1) % U16
  {
    DivMod(x, U16);
    if x % U16 + 1 < U16 {
      ModIs(x + 1, U16, x / U16, x % U16 + 1);
    } else {
      ModIs(x + 1, U16, x / U16 + 1, 0);
    }
  }

  /** The wrapped difference is zero exactly when nothing is pending. */
  lemma DiffIs(a: nat, b: nat)
    requires b <= a < b + U16
    ensures Diff16(a % U16, b % U16) == a - b
    ensures a % U16 == b % U16 <==> a == b
  {
    DivMod(a, U16);
    DivMod(b, U16);
    var ra, rb := a % U16, b % U16;
    if ra >= rb {
      assert a - b == (a / U16 - b / U16) * U16 + (ra - rb);
      assert a / U16 == b / U16;
      ModIs(ra + (U16 - rb), U16, 1, ra - rb);
    } else {
      assert a - b == (a / U16 - b / U16) * U16 + ra - rb;
      assert a / U16 == b / U16 + 1;
      ModIs(ra + (U16 - rb), U16, 0, ra + (U16 - rb));
    }
  }

  // ----- Neither ring can overflow.

  /** A descriptor that is not on offer leaves a free slot in the available ring. */
  lemma AvailHasRoom(q: Queue, d: nat)
    requires Inv(q) && d < Size(q) && !q.whose[d].InAvail?
    ensures q.offered < q.taken + Size(q)
  {
    var n := Size(q);
    var ids := seq<nat>(q.offered - q.taken, k requires 0 <= k < q.offered - q.taken => q.avail[(q.taken + k) % n]);
    forall k | 0 <= k < |ids| ensures ids[k] < n && q.whose[ids[k]] == InAvail(q.taken + k) {
      assert AvailAt(q, q.taken + k);
    }
    forall i, j | 0 <= i < j < |ids| ensures ids[i] != ids[j] {
      assert q.whose[ids[i]] != q.whose[ids[j]];
    }
    Pigeonhole(ids, n, d);
  }

  ghost function WrittenIds(q: Queue): (ids: seq<nat>)
    requires Seen(q) <= Written(q)
    ensures |ids| == Written(q) - Seen(q) && forall k | 0 <= k < |ids| :: ids[k] == ElemAt(q, Seen(q) + k).id
  {
    seq<nat>(Written(q) - Seen(q), k requires 0 <= k < Written(q) - Seen(q) => ElemAt(q, Seen(q) + k).id)
  }

  /** A descriptor that is not used-but-unread leaves a free slot in the used ring. */
  lemma UsedHasRoom(q: Queue, d: nat)
    requires Inv(q) && d < Size(q) && !q.whose[d].InUsed?
    ensures Written(q) < Seen(q) + Size(q)
  {
    hide Located, AvailAt, InHand, DeliveredAt;
    var n := Size(q);
    var ids := WrittenIds(q);
    forall k | 0 <= k < |ids| ensures ids[k] < n && q.whose[ids[k]] == InUsed(Seen(q) + k) {
      assert UsedAt(q, Seen(q) + k);
    }
    forall i, j | 0 <= i < j < |ids| ensures ids[i] != ids[j] {
      assert q.whose[ids[i]] != q.whose[ids[j]];
    }
    Pigeonhole(ids, n, d);
  }

  // ----- Every step keeps the invariant.

  lemma NoticeKeeps(q: Queue)
    requires Inv(q) && CanNotice(q)
    ensures Inv(Notice(q))
  {
    hide Shared;
    var q' := Notice(q);
    DiffIs(|q.posted|, Seen(q));
    forall j: nat ensures AvailAt(q', j) { assert AvailAt(q, j); }
    forall j: nat ensures UsedAt(q', j) { assert UsedAt(q, j); }
    forall id: nat ensures Located(q', id) { assert Located(q, id); }
    forall j: nat ensures DeliveredAt(q', j) { assert DeliveredAt(q, j); }
  }

  lemma ReadIdKeeps(q: Queue)
    requires Inv(q) && CanReadId(q)
    ensures Inv(ReadId(q)) && ReadId(q).pc == GotId(q.posted[Seen(q)].id)
  {
    hide Shared;
    var q' := ReadId(q);
    SlotOf(Seen(q), q);
    assert UsedAt(q, Seen(q));
    forall j: nat ensures AvailAt(q', j) { assert AvailAt(q, j); }
    forall j: nat ensures UsedAt(q', j) { assert UsedAt(q, j); }
    forall id: nat ensures Located(q', id) { assert Located(q, id); }
    forall j: nat ensures DeliveredAt(q', j) { assert DeliveredAt(q, j); }
  }

  /** The length read belongs to the id read before it, whatever the device did in between. */
  lemma PopKeeps(q: Queue)
    requires Inv(q) && CanPop(q)
    ensures Inv(Pop(q))
    ensures Seen(q) < |q.posted| && Pop(q).pc == Popped(q.posted[Seen(q)].id, |q.posted[Seen(q)].data|)
  {
    hide Shared;
    var n, i := Size(q), Seen(q);
    SlotOf(i, q);
    IncIs(i);
    assert UsedAt(q, i);
    var c := q.posted[i];
    var q' := Pop(q);
    assert q' == q.(lastUsed := Inc16(q.lastUsed), pc := Popped(c.id, |c.data|), whose := q.whose[c.id := WithDriver]);
    forall j: nat ensures AvailAt(q', j) { assert AvailAt(q, j); }
    forall j: nat ensures UsedAt(q', j) { assert UsedAt(q, j); }
    forall id: nat ensures Located(q', id) { assert Located(q, id) && UsedAt(q, i); }
    forall j: nat ensures DeliveredAt(q', j) { assert DeliveredAt(q, j); }
  }

  lemma CopyKeeps(q: Queue)
    requires Inv(q) && CanCopy(q)
    ensures Inv(Copy(q))
  {
    var q' := Copy(q);
    var c := q.posted[|q.delivered|];
    assert Payload(Slot(q.mem, q.pc.d), q.pc.l) == Payload(c.data, |c.data|) by {
      if q.pc.l > HDR { SliceOfSlice(q.buffers[q.pc.d], 0, q.pc.l, HDR, q.pc.l); }
    }
    forall j: nat ensures AvailAt(q', j) { assert AvailAt(q, j); }
    forall j: nat ensures UsedAt(q', j) { assert UsedAt(q, j); }
    forall id: nat ensures Located(q', id) { assert Located(q, id); }
    forall j: nat ensures DeliveredAt(q', j) { assert DeliveredAt(q, j); }
  }

  lemma ResetKeeps(q: Queue)
    requires Inv(q) && CanReset(q)
    ensures Inv(ResetDesc(q))
  {
    hide Shared;
    var q' := ResetDesc(q);
    assert q'.desc == q.desc;
    forall j: nat ensures AvailAt(q', j) { assert AvailAt(q, j); }
    forall j: nat ensures UsedAt(q', j) { assert UsedAt(q, j); }
    forall id: nat ensures Located(q', id) { assert Located(q, id); }
    forall j: nat ensures DeliveredAt(q', j) { assert DeliveredAt(q, j); }
  }

  /** A repost never overwrites a slot the device has not taken. */
  lemma ListOverwritesNothing(q: Queue, j: nat)
    requires Inv(q) && CanList(q) && q.taken <= j < q.offered
    ensures j % Size(q) != q.availIdx % Size(q)
  {
    AvailHasRoom(q, q.pc.d);
    ModApart(j, q.offered, Size(q));
    SlotOf(q.offered, q);
  }

  lemma ListKeeps(q: Queue)
    requires Inv(q) && CanList(q)
    ensures Inv(List(q))
  {
    hide Shared;
    var q' := List(q);
    SlotOf(q.offered, q);
    forall j: nat ensures AvailAt(q', j) {
      assert AvailAt(q, j);
      if q.taken <= j < q.offered { ListOverwritesNothing(q, j); }
    }
    forall j: nat ensures UsedAt(q', j) { assert UsedAt(q, j); }
    forall id: nat ensures Located(q', id) {
      assert Located(q, id);
      if id < Size(q) && q.whose[id].InAvail? { ListOverwritesNothing(q, q.whose[id].i); }
    }
    forall j: nat ensures DeliveredAt(q', j) { assert DeliveredAt(q, j); }
  }

  lemma PublishKeeps(q: Queue)
    requires Inv(q) && CanPublish(q)
    ensures Inv(Publish(q))
  {
    hide Shared;
    var q' := Publish(q);
    AvailHasRoom(q, q.pc.d);
    IncIs(q.offered);
    forall j: nat ensures AvailAt(q', j) { assert AvailAt(q, j); }
    forall j: nat ensures UsedAt(q', j) { assert UsedAt(q, j); }
    forall id: nat ensures Located(q', id) { assert Located(q, id); }
    forall j: nat ensures DeliveredAt(q', j) { assert DeliveredAt(q, j); }
  }

  lemma FetchKeeps(q: Queue)
    requires Inv(q) && CanFetch(q)
    ensures Inv(Fetch(q)) && q.taken < q.offered
  {
    hide Shared;
    var q' := Fetch(q);
    DiffIs(q.offered, q.taken);
    SlotOf(q.taken, q);
    IncIs(q.taken);
    assert AvailAt(q, q.taken);
    forall j: nat ensures AvailAt(q', j) { assert AvailAt(q, j); }
    forall j: nat ensures UsedAt(q', j) { assert UsedAt(q, j); }
    forall id: nat ensures Located(q', id) { assert Located(q, id); }
    forall j: nat ensures DeliveredAt(q', j) { assert DeliveredAt(q, j); }
  }

  /** The buffers do not overlap: a write at the address of one is seen there and nowhere else. */
  lemma SlotsApart(mem: seq<byte>, base: nat, id: nat, buf: seq<byte>, d: nat)
    requires |buf| == SLOT_SIZE && (id + 1) * SLOT_SIZE <= |mem| && (d + 1) * SLOT_SIZE <= |mem|
    ensures Slot(Stored(mem, base, base + id * SLOT_SIZE, buf), d) == if d == id then buf else Slot(mem, d)
  {
    var m, n := Stored(mem, base, base + id * SLOT_SIZE, buf), id * SLOT_SIZE;
    assert m == mem[..n] + buf + mem[n + SLOT_SIZE..];
    if d < id {
      assert (d + 1) * SLOT_SIZE <= n;
    } else if d > id {
      assert n + SLOT_SIZE <= d * SLOT_SIZE;
    }
  }

  lemma FillShared(q: Queue, id: nat, buf: seq<byte>)
    requires Shapes(q) && Shared(q.mem, q.buffers) && CanFill(q, id, buf)
    ensures var q' := Fill(q, id, buf); Shared(q'.mem, q'.buffers)
  {
    hide Slot, Stored;
    var q' := Fill(q, id, buf);
    forall d | 0 <= d < Size(q) ensures Slot(q'.mem, d) == q'.buffers[d] { SlotsApart(q.mem, q.base, id, buf, d); }
  }

  lemma FillKeeps(q: Queue, id: nat, buf: seq<byte>)
    requires Inv(q) && CanFill(q, id, buf)
    ensures Inv(Fill(q, id, buf))
  {
    hide Shared, Stored;
    var q' := Fill(q, id, buf);
    FillShared(q, id, buf);
    forall j: nat ensures AvailAt(q', j) { assert AvailAt(q, j); }
    forall j: nat ensures UsedAt(q', j) { assert UsedAt(q, j); }
    forall x: nat ensures Located(q', x) { assert Located(q, x); }
    forall j: nat ensures DeliveredAt(q', j) { assert DeliveredAt(q, j); }
  }

  lemma PutSlot(q: Queue)
    requires Shapes(q) && q.usedIdx == |q.posted| % U16
    ensures (q.usedIdx + |q.pending|) % U16 % Size(q) == Written(q) % Size(q)
  {
    AddMod(|q.posted|, |q.pending|);
    SlotOf(Written(q), q);
  }

  lemma AddMod(a: nat, b: nat)
    ensures (a % U16 + b) % U16 == (a + b) % U16
  {
    DivMod(a, U16);
    DivMod(a % U16 + b, U16);
    var c := (a % U16 + b) / U16;
    assert a + b == (a / U16 + c) * U16 + (a % U16 + b) % U16;
    ModIs(a + b, U16, a / U16 + c, (a % U16 + b) % U16);
  }

  /** A used element never overwrites one the driver has not read. */
  lemma PutOverwritesNothing(q: Queue, id: nat, len: nat, j: nat)
    requires Inv(q) && CanPut(q, id, len) && Seen(q) <= j < Written(q)
    ensures j % Size(q) != (q.usedIdx + |q.pending|) % U16 % Size(q)
  {
    UsedHasRoom(q, id);
    ModApart(j, Written(q), Size(q));
    PutSlot(q);
  }

  lemma PutKeeps(q: Queue, id: nat, len: nat)
    requires Inv(q) && CanPut(q, id, len)
    ensures Inv(Put(q, id, len))
  {
    hide Shared;
    var q' := Put(q, id, len);
    UsedHasRoom(q, id);
    PutSlot(q);
    forall j: nat ensures AvailAt(q', j) { assert AvailAt(q, j); }
    forall j: nat ensures UsedAt(q', j) {
      assert UsedAt(q, j);
      if Seen(q) <= j < Written(q) { PutOverwritesNothing(q, id, len, j); }
    }
    forall x: nat ensures Located(q', x) { assert Located(q, x); }
    forall j: nat ensures DeliveredAt(q', j) { assert DeliveredAt(q, j); }
  }

  lemma CompleteKeeps(q: Queue, k: nat)
    requires Inv(q) && CanComplete(q, k)
    ensures Inv(Complete(q, k))
  {
    hide Shared;
    var q' := Complete(q, k);
    AddMod(|q.posted|, k);
    ElemsSame(q, k);
    forall j: nat ensures AvailAt(q', j) { assert AvailAt(q, j); }
    forall j: nat ensures UsedAt(q', j) { assert UsedAt(q, j); }
    forall x: nat ensures Located(q', x) { assert Located(q, x); }
    forall j: nat ensures DeliveredAt(q', j) { assert DeliveredAt(q, j); }
  }

  /** Publishing changes no element, and logs what the buffers hold. */
  lemma ElemsSame(q: Queue, k: nat)
    requires CanComplete(q, k)
    ensures var q' := Complete(q, k);
            && Written(q') == Written(q) && (forall i: nat | i < Written(q) :: ElemAt(q', i) == ElemAt(q, i))
            && forall i | |q.posted| <= i < |q'.posted| ::
                 var e := ElemAt(q, i);
                 Backed(q, e) && q'.posted[i].data == q.buffers[e.id][..e.len]
  {
    var q' := Complete(q, k);
    forall i: nat | i < Written(q) ensures ElemAt(q', i) == ElemAt(q, i) {
      if |q.posted| <= i < |q.posted| + k { assert q.pending[..k][i - |q.posted|] == q.pending[i - |q.posted|]; }
    }
  }

  /** Nothing completed or delivered is lost. */
  ghost predicate Grows(q: Queue, q': Queue) {
    q.posted <= q'.posted && q.delivered <= q'.delivered && Size(q') == Size(q)
  }

  lemma {:induction false} DriverKeeps(q: Queue, q': Queue)
    requires Inv(q) && DriverStep(q, q')
    ensures Inv(q') && Grows(q, q')
  {
    hide Inv, Payload;
    if CanNotice(q) && q' == Notice(q) { NoticeKeeps(q); }
    else if CanReadId(q) && q' == ReadId(q) { ReadIdKeeps(q); }
    else if CanPop(q) && q' == Pop(q) { PopKeeps(q); }
    else if CanCopy(q) && q' == Copy(q) { CopyKeeps(q); }
    else if CanReset(q) && q' == ResetDesc(q) { ResetKeeps(q); }
    else if CanList(q) && q' == List(q) { ListKeeps(q); }
    else { PublishKeeps(q); }
  }

  lemma {:induction false} DeviceKeeps(q: Queue, q': Queue)
    requires Inv(q) && DeviceStep(q, q')
    ensures Inv(q') && Grows(q, q')
  {
    hide Inv, Stored;
    if CanFetch(q) && q' == Fetch(q) { FetchKeeps(q); }
    else if exists id, buf :: CanFill(q, id, buf) && q' == Fill(q, id, buf) {
      var id, buf :| CanFill(q, id, buf) && q' == Fill(q, id, buf);
      FillKeeps(q, id, buf);
    } else if exists id, len :: CanPut(q, id, len) && q' == Put(q, id, len) {
      var id, len :| CanPut(q, id, len) && q' == Put(q, id, len);
      PutKeeps(q, id, len);
    } else {
      var k :| CanComplete(q, k) && q' == Complete(q, k);
      CompleteKeeps(q, k);
    }
  }

  lemma {:induction false} NextKeeps(q: Queue, q': Queue)
    requires Inv(q) && Next(q, q')
    ensures Inv(q') && q.posted <= q'.posted && q.delivered <= q'.delivered && Size(q') == Size(q)
  {
    hide Inv, DriverStep, DeviceStep;
    if DriverStep(q, q') { DriverKeeps(q, q'); } else { DeviceKeeps(q, q'); }
  }

  // ----- The start, and whole runs.

  lemma {:induction false} PowerDivides(n: nat, k: nat)
    requires PowerOfTwo(n) && n <= Pow2(k)
    ensures n > 0 && Pow2(k) % n == 0
  {
    if n == 1 {
    } else {
      var h := n / 2;
      PowerDivides(h, k - 1);
      DivMod(Pow2(k - 1), h);
      var c := Pow2(k - 1) / h;
      assert Pow2(k) == c * (2 * h) by { MulAssoc(2, c, h); MulAssoc(c, 2, h); }
      ModIs(Pow2(k), n, c, 0);
    }
  }

  lemma SizeDivides(n: nat)
    requires PowerOfTwo(n) && n <= 256
    ensures n > 0 && U16 % n == 0
  {
    assert Pow2(4) == 16;
    assert Pow2(8) == 256;
    assert Pow2(12) == 4096;
    assert Pow2(16) == U16;
    PowerDivides(n, 16);
  }

  lemma StartKeeps(size: nat, base: nat, mem: seq<byte>)
    requires PowerOfTwo(size) && size <= 256 && |mem| == size * SLOT_SIZE
    ensures Inv(Start(size, base, mem))
  {
    SizeDivides(size);
    var q := Start(size, base, mem);
    forall i: nat | i < size ensures i % size == i { ModIs(i, size, 0, i); }
    forall i: nat ensures AvailAt(q, i) { }
    forall id: nat ensures Located(q, id) { }
  }

  /** In every interleaving: the driver never sees a bad id, every descriptor is in exactly one place, and the
      payloads taken are, in order and once each, what the device completed. */
  lemma {:induction false} RunKeeps(qs: seq<Queue>, size: nat, base: nat)
    requires IsRun(qs, size, base) && PowerOfTwo(size) && size <= 256
    ensures var q := qs[|qs| - 1];
            && Inv(q) && q.ready && Size(q) == size
            && |q.delivered| <= |q.posted|
            && forall i | 0 <= i < |q.delivered| :: q.delivered[i] == Payload(q.posted[i].data, |q.posted[i].data|)
    decreases |qs|
  {
    hide Inv, Next;
    if |qs| == 1 {
      StartKeeps(size, base, qs[0].mem);
    } else {
      var front := qs[..|qs| - 1];
      forall i | 0 <= i < |front| - 1 ensures Next(front[i], front[i + 1]) { assert Next(qs[i], qs[i + 1]); }
      RunKeeps(front, size, base);
      assert Next(qs[|qs| - 2], qs[|qs| - 1]);
      NextKeeps(front[|front| - 1], qs[|qs| - 1]);
    }
    DeliveredInOrder(qs[|qs| - 1]);
  }

  lemma DeliveredInOrder(q: Queue)
    requires Inv(q)
    ensures q.ready && |q.delivered| <= |q.posted|
    ensures forall i | 0 <= i < |q.delivered| :: q.delivered[i] == Payload(q.posted[i].data, |q.posted[i].data|)
  {
    forall i: nat | i < |q.delivered| ensures q.delivered[i] == Payload(q.posted[i].data, |q.posted[i].data|) {
      assert DeliveredAt(q, i);
    }
  }

  // ----- Exactly one place, and no step is ever stuck.

  ghost predicate OnOffer(q: Queue, id: nat)
    requires Shapes(q)
  {
    exists i: nat | q.taken <= i < q.offered :: q.avail[i % Size(q)] == id
  }

  ghost predicate UsedUnread(q: Queue, id: nat)
    requires Shapes(q)
  {
    exists i: nat | Seen(q) <= i < Written(q) :: q.used[i % Size(q)].id == id
  }

  /** The rings themselves list a descriptor exactly when it is there, and no descriptor is in two places. */
  lemma ExactlyOnePlace(q: Queue, id: nat)
    requires Inv(q) && id < Size(q)
    ensures OnOffer(q, id) <==> q.whose[id].InAvail?
    ensures UsedUnread(q, id) <==> q.whose[id].InUsed?
    ensures q.whose[id].WithDriver? <==> Holding(q) && q.pc.d == id
  {
    assert Located(q, id);
    if OnOffer(q, id) {
      var i: nat :| q.taken <= i < q.offered && q.avail[i % Size(q)] == id;
      assert AvailAt(q, i);
    }
    if UsedUnread(q, id) {
      var i: nat :| Seen(q) <= i < Written(q) && q.used[i % Size(q)].id == id;
      assert UsedAt(q, i);
    }
    match q.whose[id] {
      case InAvail(i) => assert q.avail[i % Size(q)] == id;
      case InUsed(i) => assert UsedAt(q, i); assert q.used[i % Size(q)].id == id;
      case WithDevice =>
      case WithDriver =>
    }
  }

  /** The driver can always finish what it began, and starts exactly when a completion is unread. */
  lemma DriverNeverStuck(q: Queue)
    requires Inv(q)
    ensures q.pc.Noticed? ==> CanReadId(q)
    ensures q.pc.GotId? ==> CanPop(q)
    ensures q.pc.Popped? ==> CanCopy(q)
    ensures q.pc.Copied? ==> CanReset(q)
    ensures q.pc.Reset? ==> CanList(q)
    ensures q.pc.Listed? ==> CanPublish(q)
    ensures q.pc.Idle? ==> (CanNotice(q) <==> |q.delivered| < |q.posted|)
  {
    DiffIs(|q.posted|, Seen(q));
  }

  /** A device can take a descriptor exactly when one is on offer. */
  lemma DeviceTakesOffers(q: Queue)
    requires Inv(q)
    ensures CanFetch(q) <==> q.taken < q.offered
  {
    DiffIs(q.offered, q.taken);
    SlotOf(q.taken, q);
    assert AvailAt(q, q.taken);
  }

  /** A device that has a descriptor can fill all of its buffer, which the driver then finds, and hand it back. */
  lemma DeviceNeverStuck(q: Queue, id: nat, buf: seq<byte>)
    requires Inv(q) && id < Size(q) && q.whose[id] == WithDevice && |buf| == 2048
    ensures CanFill(q, id, buf) && Slot(Fill(q, id, buf).mem, id) == buf && CanPut(Fill(q, id, buf), id, 2048)
  {
    SlotsApart(q.mem, q.base, id, buf, id);
  }

  /** A ring slot can be computed from a wrapped index if and only if the ring size divides 2^16. */
  lemma SlotsSurviveWrap(n: nat)
    requires n > 0
    ensures (forall x: nat :: WrapSafe(x, n)) <==> U16 % n == 0
  {
    if U16 % n == 0 {
      forall x: nat ensures WrapSafe(x, n) { ModOfMod(x, U16, n); }
    } else {
      ModIs(0, n, 0, 0);
      assert !WrapSafe(U16, n);
    }
  }

  ghost predicate WrapSafe(x: nat, n: nat)
    requires n > 0
  {
    (x % U16) % n == x % n
  }
}
