/** The virtio-net receive queue (virtio_net.c) against a conforming device: a split virtqueue as in section 2.6 of
    VIRTIO 1.1, with every access to a ring slot or a ring index a step of its own. */
module VirtioRx {
  import opened Bytes

  const U16: nat := 0x1_0000
  const HDR: nat := 12
  const SLOT_SIZE: nat := 2048

  datatype Elem = Elem(id: nat, len: nat)

  datatype Desc = Desc(addr: nat, len: nat, write: bool, next: nat)

  /** Where vn_recv_raw stands between two accesses to the rings. */
  datatype Pc = Idle | Noticed | GotId(d: nat)
              | Popped(d: nat, l: nat) | Copied(d: nat, l: nat) | Reset(d: nat, l: nat) | Listed(d: nat, l: nat)

  /** What the device completed: a descriptor, its length, and the bytes it left in the buffer. */
  datatype Completion = Completion(id: nat, data: seq<byte>)

  /** Who has a descriptor: it is at an absolute position of the available or of the used ring, in the latter perhaps
      not yet published, or in the hands of the device or of the driver. */
  datatype Where = InAvail(i: nat) | WithDevice | InUsed(i: nat) | WithDriver

  /** The first six fields are shared memory, `mem` the bytes from address `base` on; then come the driver's and the
      device's own variables: what it has put in each buffer, and in `pending` the used elements it has written beyond
      the used index.  The last five are the proof's: unbounded counterparts of the four uint16_t indices, logs, and who
      has what. */
  datatype Queue = Queue(desc: seq<Desc>, avail: seq<nat>, availIdx: nat, used: seq<Elem>, usedIdx: nat,
                         mem: seq<byte>, base: nat, lastUsed: nat, ready: bool, pc: Pc, buffers: seq<seq<byte>>,
                         devIdx: nat, pending: seq<Elem>,
                         offered: nat, taken: nat, posted: seq<Completion>, delivered: seq<seq<byte>>,
                         whose: seq<Where>)

  function Size(q: Queue): nat { |q.desc| }

  ghost predicate PowerOfTwo(n: nat) {
    n == 1 || (n % 2 == 0 && n > 0 && PowerOfTwo(n / 2))
  }

  function DescFor(q: Queue, d: nat): Desc { Desc(q.base + d * SLOT_SIZE, SLOT_SIZE, true, 0) }

  // ----- The driver.

  function Diff16(a: nat, b: nat): nat
    requires a < U16 && b < U16
  {
    (a + (U16 - b)) % U16
  }

  function Inc16(a: nat): nat { (a + 1) % U16 }

  /** Read the used index: it shows a new element. */
  ghost predicate CanNotice(q: Queue) {
    q.pc.Idle? && q.ready && q.usedIdx < U16 && q.lastUsed < U16 && Diff16(q.usedIdx, q.lastUsed) != 0
  }

  function Notice(q: Queue): Queue { q.(pc := Noticed) }

  /** Read the id of the element. */
  ghost predicate CanReadId(q: Queue) { q.pc.Noticed? && 0 < Size(q) == |q.used| }

  function ReadId(q: Queue): Queue
    requires CanReadId(q)
  {
    q.(pc := GotId(q.used[q.lastUsed % Size(q)].id))
  }

  /** Read its length and move on; an id out of range disables the device. */
  ghost predicate CanPop(q: Queue) { q.pc.GotId? && 0 < Size(q) == |q.used| }

  function Pop(q: Queue): Queue
    requires CanPop(q)
  {
    var q1 := q.(lastUsed := Inc16(q.lastUsed));
    if q.pc.d >= Size(q) then q1.(ready := false, pc := Idle)
    else q1.(pc := Popped(q.pc.d, q.used[q.lastUsed % Size(q)].len),
             whose := if q.pc.d < |q.whose| then q.whose[q.pc.d := WithDriver] else q.whose)
  }

  /** The frame behind the header. */
  function Payload(buf: seq<byte>, l: nat): seq<byte>
    requires l <= |buf|
  {
    if l <= HDR then [] else buf[HDR..l]
  }

  /** The part of the memory that the driver takes for buffer d. */
  function Slot(mem: seq<byte>, d: nat): (buf: seq<byte>)
    requires (d + 1) * SLOT_SIZE <= |mem|
    ensures |buf| == SLOT_SIZE
  {
    mem[d * SLOT_SIZE..(d + 1) * SLOT_SIZE]
  }

  /** Copy the frame out of the buffer. */
  ghost predicate CanCopy(q: Queue) {
    q.pc.Popped? && (q.pc.d + 1) * SLOT_SIZE <= |q.mem| && q.pc.l <= SLOT_SIZE
  }

  function Copy(q: Queue): Queue
    requires CanCopy(q)
  {
    q.(pc := Copied(q.pc.d, q.pc.l), delivered := q.delivered + [Payload(Slot(q.mem, q.pc.d), q.pc.l)])
  }

  /** Write the descriptor afresh. */
  ghost predicate CanReset(q: Queue) { q.pc.Copied? && q.pc.d < Size(q) }

  function ResetDesc(q: Queue): Queue
    requires CanReset(q)
  {
    q.(desc := q.desc[q.pc.d := DescFor(q, q.pc.d)], pc := Reset(q.pc.d, q.pc.l))
  }

  /** Write its number in the next slot of the available ring. */
  ghost predicate CanList(q: Queue) { q.pc.Reset? && 0 < Size(q) == |q.avail| }

  function List(q: Queue): Queue
    requires CanList(q)
  {
    q.(avail := q.avail[q.availIdx % Size(q) := q.pc.d], pc := Listed(q.pc.d, q.pc.l))
  }

  /** Bump the available index. */
  ghost predicate CanPublish(q: Queue) { q.pc.Listed? && q.pc.d < |q.whose| }

  function Publish(q: Queue): Queue
    requires CanPublish(q)
  {
    q.(availIdx := Inc16(q.availIdx), offered := q.offered + 1, pc := Idle,
        whose := q.whose[q.pc.d := InAvail(q.offered)])
  }

  // ----- A conforming device.

  /** Take the next available descriptor. */
  ghost predicate CanFetch(q: Queue) {
    q.devIdx != q.availIdx && 0 < Size(q) == |q.avail| && q.avail[q.devIdx % Size(q)] < |q.whose|
  }

  function Fetch(q: Queue): Queue
    requires CanFetch(q)
  {
    q.(devIdx := Inc16(q.devIdx), taken := q.taken + 1, whose := q.whose[q.avail[q.devIdx % Size(q)] := WithDevice])
  }

  /** The memory after a write at an address; bytes outside it are not followed. */
  function Stored(mem: seq<byte>, base: nat, addr: nat, buf: seq<byte>): (m: seq<byte>)
    ensures |m| == |mem|
  {
    if base <= addr && addr - base + |buf| <= |mem| then mem[..addr - base] + buf + mem[addr - base + |buf|..] else mem
  }

  /** Write into a buffer it has, where the descriptor says and no more than it allows; also after the used element was
      written and before it is published. */
  ghost predicate CanFill(q: Queue, id: nat, buf: seq<byte>) {
    && id < |q.whose| == |q.buffers| == |q.desc| && |buf| == q.desc[id].len && q.desc[id].write
    && (q.whose[id] == WithDevice || (q.whose[id].InUsed? && |q.posted| <= q.whose[id].i))
  }

  function Fill(q: Queue, id: nat, buf: seq<byte>): Queue
    requires CanFill(q, id, buf)
  {
    q.(buffers := q.buffers[id := buf], mem := Stored(q.mem, q.base, q.desc[id].addr, buf))
  }

  /** Write the used element of a descriptor it has. */
  ghost predicate CanPut(q: Queue, id: nat, len: nat) {
    id < |q.whose| && q.whose[id] == WithDevice && len <= SLOT_SIZE && 0 < Size(q) == |q.used|
  }

  function Put(q: Queue, id: nat, len: nat): Queue
    requires CanPut(q, id, len)
  {
    q.(used := q.used[(q.usedIdx + |q.pending|) % U16 % Size(q) := Elem(id, len)],
       pending := q.pending + [Elem(id, len)],
       whose := q.whose[id := InUsed(|q.posted| + |q.pending|)])
  }

  /** Publish the first k of the elements written, with one write of the used index. */
  ghost predicate CanComplete(q: Queue, k: nat) {
    k <= |q.pending| && forall j | 0 <= j < k :: Backed(q, q.pending[j])
  }

  predicate Backed(q: Queue, e: Elem) { e.id < |q.buffers| && e.len <= |q.buffers[e.id]| }

  function Complete(q: Queue, k: nat): Queue
    requires CanComplete(q, k)
  {
    q.(usedIdx := (q.usedIdx + k) % U16, posted := q.posted + Completions(q, q.pending[..k]), pending := q.pending[k..])
  }

  function Completions(q: Queue, es: seq<Elem>): (cs: seq<Completion>)
    requires forall j | 0 <= j < |es| :: Backed(q, es[j])
    ensures |cs| == |es|
    ensures forall j | 0 <= j < |es| ::
              Backed(q, es[j]) && cs[j] == Completion(es[j].id, q.buffers[es[j].id][..es[j].len])
  {
    if es == [] then []
    else assert Backed(q, es[0]); [Completion(es[0].id, q.buffers[es[0].id][..es[0].len])] + Completions(q, es[1..])
  }

  // ----- Interleavings.

  ghost predicate DriverStep(q: Queue, q': Queue) {
    || (CanNotice(q) && q' == Notice(q))
    || (CanReadId(q) && q' == ReadId(q))
    || (CanPop(q) && q' == Pop(q))
    || (CanCopy(q) && q' == Copy(q))
    || (CanReset(q) && q' == ResetDesc(q))
    || (CanList(q) && q' == List(q))
    || (CanPublish(q) && q' == Publish(q))
  }

  ghost predicate DeviceStep(q: Queue, q': Queue) {
    || (CanFetch(q) && q' == Fetch(q))
    || (exists id, buf :: CanFill(q, id, buf) && q' == Fill(q, id, buf))
    || (exists id, len :: CanPut(q, id, len) && q' == Put(q, id, len))
    || (exists k :: CanComplete(q, k) && q' == Complete(q, k))
  }

  ghost predicate Next(q: Queue, q': Queue) { DriverStep(q, q') || DeviceStep(q, q') }

  /** The RX set-up of virtio_net_init: every descriptor offered. */
  function Start(size: nat, base: nat, mem: seq<byte>): Queue
    requires |mem| == size * SLOT_SIZE
  {
    Queue(seq(size, (i: nat) => Desc(base + i * SLOT_SIZE, SLOT_SIZE, true, 0)), seq<nat>(size, i => i), size % U16,
          seq(size, _ => Elem(0, 0)), 0, mem, base, 0, true, Idle, Slots(mem, size), 0, [],
          size, 0, [], [], seq(size, (i: nat) => InAvail(i)))
  }

  function Slots(mem: seq<byte>, n: nat): (bs: seq<seq<byte>>)
    requires |mem| == n * SLOT_SIZE
    ensures |bs| == n && forall i | 0 <= i < n :: bs[i] == Slot(mem, i)
  {
    seq(n, i requires 0 <= i < n => Slot(mem, i))
  }

  ghost predicate IsRun(qs: seq<Queue>, size: nat, base: nat) {
    && |qs| >= 1 && |qs[0].mem| == size * SLOT_SIZE && qs[0] == Start(size, base, qs[0].mem)
    && forall i | 0 <= i < |qs| - 1 :: Next(qs[i], qs[i + 1])
  }
}
