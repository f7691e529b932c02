/** The driver code of virtio_net.c that walks the receive queue. */
module VirtioNet {
  import opened Bytes
  import opened VirtioRx
  import opened VirtioProofs

  class RxQueue {
    var desc: seq<Desc>
    var avail: seq<nat>
    var availIdx: nat
    var used: seq<Elem>
    var usedIdx: nat
    var mem: seq<byte>
    const base: nat
    var lastUsed: nat
    var ready: bool
    // The device's own variables and the proof's counters and logs.
    ghost var buffers: seq<seq<byte>>
    ghost var devIdx: nat
    ghost var pending: seq<Elem>
    ghost var offered: nat
    ghost var taken: nat
    ghost var posted: seq<Completion>
    ghost var delivered: seq<seq<byte>>
    ghost var whose: seq<Where>

    ghost function State(): Queue
      reads this
    {
      Queue(desc, avail, availIdx, used, usedIdx, mem, base, lastUsed, ready, Idle, buffers,
            devIdx, pending, offered, taken, posted, delivered, whose)
    }

    /** The RX part of virtio_net_init. */
    constructor (size: nat, base: nat, mem: seq<byte>)
      requires PowerOfTwo(size) && size <= 256 && |mem| == size * SLOT_SIZE
      ensures State() == Start(size, base, mem) && Inv(State())
    {
      var ds: seq<Desc>, av: seq<nat> := [], [];
      var i := 0;
      while i < size
        invariant 0 <= i <= size && |ds| == |av| == i
        invariant forall j | 0 <= j < i :: ds[j] == Desc(base + j * SLOT_SIZE, SLOT_SIZE, true, 0) && av[j] == j
      {
        ds, av := ds + [Desc(base + i * SLOT_SIZE, SLOT_SIZE, true, 0)], av + [i];
        i := i + 1;
      }
      this.base := base;
      this.mem := mem;
      buffers := Slots(mem, size);
      desc, avail, availIdx := ds, av, size;
      used, usedIdx, lastUsed, ready := seq(size, _ => Elem(0, 0)), 0, 0, true;
      devIdx, pending, offered, taken, posted, delivered := 0, [], size, 0, [], [];
      whose := seq(size, (i: nat) => InAvail(i));
      new;
      assert State() == Start(size, base, mem);
      StartKeeps(size, base, mem);
    }

    /** What vn_recv_raw does when it runs undisturbed: the driver steps in turn. */
    static ghost function Taken(q: Queue): Queue
      requires Inv(q) && CanNotice(q)
    {
      NoticeKeeps(q);
      DriverNeverStuck(Notice(q));
      ReadIdKeeps(Notice(q));
      DriverNeverStuck(ReadId(Notice(q)));
      Pop(ReadId(Notice(q)))
    }

    static ghost function Received(q: Queue): Queue
      requires Inv(q) && CanNotice(q)
    {
      TakenKeeps(q);
      var q1 := Taken(q);
      DriverNeverStuck(q1);
      CopyKeeps(q1);
      DriverNeverStuck(Copy(q1));
      ResetKeeps(Copy(q1));
      DriverNeverStuck(ResetDesc(Copy(q1)));
      ListKeeps(ResetDesc(Copy(q1)));
      DriverNeverStuck(List(ResetDesc(Copy(q1))));
      Publish(List(ResetDesc(Copy(q1))))
    }

    static lemma TakenKeeps(q: Queue)
      requires Inv(q) && CanNotice(q)
      ensures Inv(Taken(q)) && |q.delivered| < |q.posted|
      ensures Taken(q).pc == Popped(q.posted[|q.delivered|].id, |q.posted[|q.delivered|].data|)
    {
      hide Inv;
      NoticeKeeps(q);
      DriverNeverStuck(Notice(q));
      ReadIdKeeps(Notice(q));
      DriverNeverStuck(ReadId(Notice(q)));
      PopKeeps(ReadId(Notice(q)));
    }

    /** What vn_recv_raw returns for a completion: the payload length, and the bytes copied. */
    static ghost predicate Gives(data: seq<byte>, maxLen: nat, n: nat, frame: seq<byte>) {
      && n == (if |data| <= HDR then 0 else |data| - HDR)
      && frame == (if n <= maxLen then Payload(data, |data|) else Payload(data, |data|)[..maxLen])
    }

    /** vn_recv_raw into a buffer of the given size. */
    method RecvRaw(maxLen: nat) returns (n: nat, frame: seq<byte>)
      requires Inv(State())
      modifies this
      ensures Inv(State()) && ready
      ensures |old(delivered)| == |old(posted)| ==> n == 0 && frame == [] && State() == old(State())
      ensures |old(delivered)| < |old(posted)| ==>
                && CanNotice(old(State())) && State() == Received(old(State()))
                && Gives(old(posted)[|old(delivered)|].data, maxLen, n, frame)
    {
      hide Inv, Received, Payload, Gives;
      n, frame := 0, [];
      Basics(State());
      if Diff16(usedIdx, lastUsed) == 0 {
        return;
      }
      n, frame := TakeOne(maxLen);
      NeverDisabled(State());
    }

    /** vn_recv_raw from where it has seen a new element. */
    method TakeOne(maxLen: nat) returns (n: nat, frame: seq<byte>)
      requires Inv(State()) && CanNotice(State())
      modifies this
      ensures Inv(State()) && State() == Received(old(State())) && |old(delivered)| < |old(posted)|
      ensures Gives(old(posted)[|old(delivered)|].data, maxLen, n, frame)
    {
      hide Inv, Received, Payload, Gives;
      ghost var q := State();
      Basics(q);
      ReceivedKeeps(q);
      ReceivedIs(q);
      var d, l := used[lastUsed % |desc|].id, used[lastUsed % |desc|].len;
      lastUsed := Inc16(lastUsed);
      if d >= |desc| {
        assert false;  // where the source logs a bad id and clears `ready`
      }
      n, frame := CopyOut(Slot(mem, d), l, maxLen, posted[|delivered|].data);
      Repost(d, Payload(Slot(mem, d), l), Received(q).whose);
    }

    /** virtio_net_poll, while the device stands still: the frames it hands to the network stack are the unread payloads
        in order, up to 64 or to the first empty one, which is taken and ends the poll with the later ones unread. */
    method Poll() returns (frames: seq<seq<byte>>)
      requires Inv(State())
      modifies this
      ensures Inv(State()) && posted == old(posted)
      ensures var unread, n := Unread(old(posted), |old(delivered)|), |frames|;
              && n <= 64 && frames <= unread && (forall i | 0 <= i < n :: frames[i] != [])
              && (n < 64 ==> n == |unread| || unread[n] == [])
              && delivered == old(delivered) + unread[..if n < 64 && n < |unread| then n + 1 else n]
    {
      hide Inv, Received, Payload, Gives;
      frames := [];
      if !ready {
        NeverDisabled(State());
        return;
      }
      ghost var from := |delivered|;
      InOrder(State());
      ghost var unread := Unread(posted, from);
      for iter := 0 to 64
        invariant Inv(State()) && posted == old(posted) && |frames| == iter <= |unread| && frames == unread[..iter]
        invariant delivered == old(delivered) + unread[..iter] && forall i | 0 <= i < iter :: frames[i] != []
      {
        ghost var q := State();
        var n, frame := RecvRaw(2048);
        if iter < |unread| {
          ReceivedLogs(q);
          OnePayload(posted, from, iter, n, frame);
        }
        if n == 0 {
          return;
        }
        frames := frames + [frame];
      }
    }

    /** The payloads completed and not yet taken. */
    static ghost function Unread(posted: seq<Completion>, from: nat): (r: seq<seq<byte>>)
      requires from <= |posted|
      ensures |r| == |posted| - from
      ensures forall i | 0 <= i < |r| :: r[i] == Payload(posted[from + i].data, |posted[from + i].data|)
    {
      seq(|posted| - from,
          i requires 0 <= i < |posted| - from => Payload(posted[from + i].data, |posted[from + i].data|))
    }

    /** Taking a completion logs its payload. */
    static lemma ReceivedLogs(q: Queue)
      requires Inv(q) && CanNotice(q)
      ensures |q.delivered| < |q.posted| && Received(q).posted == q.posted
      ensures var c := q.posted[|q.delivered|];
              |c.data| <= SLOT_SIZE && Received(q).delivered == q.delivered + [Payload(c.data, |c.data|)]
    {
      hide Inv, Payload;
      TakenKeeps(q);
      ReceivedKeeps(q);
      LastDelivered(Received(q));
    }

    static lemma LastDelivered(q: Queue)
      requires Inv(q) && q.delivered != []
      ensures |q.delivered| <= |q.posted|
      ensures var c := q.posted[|q.delivered| - 1]; q.delivered[|q.delivered| - 1] == Payload(c.data, |c.data|)
    {
      assert DeliveredAt(q, |q.delivered| - 1);
    }

    static lemma NeverDisabled(q: Queue)
      requires Inv(q)
      ensures q.ready
    {
    }

    static lemma InOrder(q: Queue)
      requires Inv(q)
      ensures |q.delivered| <= |q.posted|
    {
    }

    /** A buffer of 2048 bytes holds every payload, and only an empty one has length 0. */
    static lemma OnePayload(posted: seq<Completion>, from: nat, i: nat, n: nat, frame: seq<byte>)
      requires from <= |posted| && i < |posted| - from && |posted[from + i].data| <= SLOT_SIZE
      requires Gives(posted[from + i].data, 2048, n, frame)
      ensures frame == Unread(posted, from)[i] && (n == 0 <==> frame == [])
      ensures Unread(posted, from)[..i + 1] == Unread(posted, from)[..i] + [frame]
    {
    }

    /** The descriptor goes back to the available ring. */
    method Repost(d: nat, ghost got: seq<byte>, ghost owners: seq<Where>)
      requires d < |desc| == |avail|
      modifies `delivered, `desc, `avail, `availIdx, `offered, `whose
      ensures delivered == old(delivered) + [got] && whose == owners && offered == old(offered) + 1
      ensures desc == old(desc)[d := DescFor(old(State()), d)]
      ensures avail == old(avail)[old(availIdx) % |old(desc)| := d] && availIdx == Inc16(old(availIdx))
    {
      delivered := delivered + [got];
      desc := desc[d := Desc(base + d * SLOT_SIZE, SLOT_SIZE, true, 0)];
      avail := avail[availIdx % |desc| := d];
      availIdx := Inc16(availIdx);
      offered := offered + 1;
      whose := owners;
    }

    /** The copy of the payload into the caller's buffer. */
    static method CopyOut(buf: seq<byte>, l: nat, maxLen: nat, ghost data: seq<byte>) returns (n: nat, frame: seq<byte>)
      requires l == |data| <= |buf| && buf[..l] == data
      ensures Gives(data, maxLen, n, frame)
    {
      hide Payload;
      PayloadIs(buf, data, maxLen);
      n, frame := 0, [];
      if l > HDR {
        n := l - HDR;
        frame := buf[HDR..HDR + if n < maxLen then n else maxLen];
      }
    }

    static lemma ReceivedIs(q: Queue)
      requires Inv(q) && CanNotice(q) && q.used[q.lastUsed % Size(q)].id < Size(q) == |q.avail|
      requires q.used[q.lastUsed % Size(q)].len <= SLOT_SIZE && |q.mem| == Size(q) * SLOT_SIZE
      ensures var e := q.used[q.lastUsed % Size(q)];
              Received(q) == q.(lastUsed := Inc16(q.lastUsed),
                                delivered := q.delivered + [Payload(Slot(q.mem, e.id), e.len)],
                                desc := q.desc[e.id := DescFor(q, e.id)],
                                avail := q.avail[q.availIdx % Size(q) := e.id],
                                availIdx := Inc16(q.availIdx), offered := q.offered + 1, whose := Received(q).whose)
    {
      hide Inv, Payload;
    }

    static lemma PayloadIs(buf: seq<byte>, data: seq<byte>, maxLen: nat)
      requires |data| <= |buf| && buf[..|data|] == data
      ensures |data| <= HDR ==> Payload(data, |data|) == [] && Payload(buf, |data|) == []
      ensures |data| > HDR ==>
                && |Payload(data, |data|)| == |data| - HDR
                && Payload(buf, |data|) == Payload(data, |data|) == buf[HDR..|data|]
                && (|data| - HDR > maxLen ==> buf[HDR..HDR + maxLen] == Payload(data, |data|)[..maxLen])
    {
      if |data| > HDR {
        SliceOfSlice(buf, 0, |data|, HDR, |data|);
        if |data| - HDR > maxLen { SliceOfSlice(buf, HDR, |data|, 0, maxLen); }
      }
    }

    static lemma Basics(q: Queue)
      requires Inv(q) && q.pc.Idle?
      ensures 0 < Size(q) == |q.used| == |q.avail| && q.usedIdx < 0x1_0000 && q.lastUsed < 0x1_0000 && q.ready
      ensures |q.delivered| <= |q.posted|
      ensures Diff16(q.usedIdx, q.lastUsed) == 0 <==> |q.delivered| == |q.posted|
    {
      DiffIs(|q.posted|, Seen(q));
    }

    static lemma ReceivedKeeps(q: Queue)
      requires Inv(q) && CanNotice(q)
      ensures Inv(Received(q)) && |q.delivered| < |q.posted|
      ensures var c, e := q.posted[|q.delivered|], q.used[q.lastUsed % Size(q)];
              && e == Elem(c.id, |c.data|) && c.id < Size(q) && |q.mem| == Size(q) * SLOT_SIZE
              && |c.data| <= SLOT_SIZE && Slot(q.mem, c.id)[..|c.data|] == c.data
    {
      hide Inv, Taken;
      TakenKeeps(q);
      var q1 := Taken(q);
      DriverNeverStuck(q1);
      CopyKeeps(q1);
      DriverNeverStuck(Copy(q1));
      ResetKeeps(Copy(q1));
      DriverNeverStuck(ResetDesc(Copy(q1)));
      ListKeeps(ResetDesc(Copy(q1)));
      DriverNeverStuck(List(ResetDesc(Copy(q1))));
      PublishKeeps(List(ResetDesc(Copy(q1))));
      PoppedElem(q);
    }

    static lemma PoppedElem(q: Queue)
      requires Inv(q) && CanNotice(q)
      ensures |q.delivered| < |q.posted|
      ensures var c, e := q.posted[|q.delivered|], q.used[q.lastUsed % Size(q)];
              && e == Elem(c.id, |c.data|) && c.id < Size(q) && |q.mem| == Size(q) * SLOT_SIZE
              && |c.data| <= SLOT_SIZE && Slot(q.mem, c.id)[..|c.data|] == c.data
    {
      DiffIs(|q.posted|, Seen(q));
      SlotOf(Seen(q), q);
      assert UsedAt(q, |q.delivered|);
    }
  }
}
