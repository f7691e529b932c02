/** AevOSFS (aevosfs.c) as a value: the device, the inode table and the block allocator, and what an operation
    may do to them. */
module FsSpec {
  import opened Bytes
  import opened Counting

  const BLOCK_SIZE: nat := 4096
  const DIRECT: nat := 16
  const MAX_INODES: nat := 4096

  type Block = b: seq<byte> | |b| == BLOCK_SIZE witness seq(BLOCK_SIZE, _ => 0)

  datatype Kind = File | Dir

  datatype Inode = Inode(id: nat, kind: Kind, size: nat, blocks: seq<nat>)

  /** `owner` records, for the proof, the inode slot and block-list place each file block was allocated for. */
  datatype Fs = Fs(dev: seq<Block>, inodes: seq<Inode>, total: nat, free: nat, logHead: nat, root: nat, nextId: nat,
                   owner: map<nat, (nat, nat)>)

  // ----- The invariant.

  ghost predicate InodeOk(s: Fs, x: nat)
    requires x < |s.inodes|
  {
    var n := s.inodes[x];
    && |n.blocks| == DIRECT
    && n.id < s.nextId
    && forall i | 0 <= i < DIRECT ::
         n.blocks[i] < s.logHead && (n.blocks[i] != 0 ==> n.blocks[i] in s.owner && s.owner[n.blocks[i]] == (x, i))
  }

  ghost predicate OneId(s: Fs, x: nat, y: nat)
    requires x < |s.inodes| && y < |s.inodes|
  {
    s.inodes[x].id == s.inodes[y].id != 0 ==> x == y
  }

  ghost predicate FsOk(s: Fs) {
    && |s.dev| == s.total && s.logHead + s.free == s.total && 2 <= s.logHead && s.root != 0
    && |s.inodes| == MAX_INODES
    && (forall x: nat | x < MAX_INODES :: InodeOk(s, x))
    && (forall x: nat, y: nat | x < MAX_INODES && y < MAX_INODES :: OneId(s, x, y))
    && (forall b | b in s.owner :: b < s.logHead)
  }

  // ----- The bytes of a file.

  /** Position p of the inode is backed by a block. */
  predicate Avail(n: Inode, p: nat) {
    p / BLOCK_SIZE < |n.blocks| && n.blocks[p / BLOCK_SIZE] != 0
  }

  /** Every block number of the inode is on the device. */
  ghost predicate OnDevice(dev: seq<Block>, n: Inode) {
    forall i | 0 <= i < |n.blocks| :: n.blocks[i] < |dev|
  }

  function ByteAt(dev: seq<Block>, n: Inode, p: nat): byte
    requires Avail(n, p) && OnDevice(dev, n)
  {
    dev[n.blocks[p / BLOCK_SIZE]][p % BLOCK_SIZE]
  }

  /** What aevosfs_read copies out between p and end: it stops at the first position without a block. */
  function ReadFrom(dev: seq<Block>, n: Inode, p: nat, end: nat): (r: seq<byte>)
    requires OnDevice(dev, n)
    ensures |r| <= if p < end then end - p else 0
    decreases end - p
  {
    if p < end && Avail(n, p) then [ByteAt(dev, n, p)] + ReadFrom(dev, n, p + 1, end) else []
  }

  /** Writing d at off: those positions hold d, every other position that was backed keeps its byte. */
  ghost predicate Patched(dev: seq<Block>, n: Inode, dev': seq<Block>, n': Inode, off: nat, d: seq<byte>)
    requires OnDevice(dev, n)
    requires OnDevice(dev', n')
  {
    && (forall p | off <= p < off + |d| :: Avail(n', p) && ByteAt(dev', n', p) == d[p - off])
    && (forall p: nat | !(off <= p < off + |d|) && Avail(n, p) ::
          Avail(n', p) && ByteAt(dev', n', p) == ByteAt(dev, n, p))
  }

  /** Only blocks that were free have been written. */
  ghost predicate CopyOnWrite(s: Fs, s': Fs) {
    && s.logHead <= s'.logHead <= |s.dev| == |s'.dev|
    && (forall b | b in s.owner :: b in s'.owner && s'.owner[b] == s.owner[b])
    && (forall b | b in s'.owner :: b in s.owner || s.logHead <= b)
    && forall b | 0 <= b < s.logHead :: s'.dev[b] == s.dev[b]
  }

  /** Nothing but inode x, the free part of the device and the allocator has changed. */
  ghost predicate OnlyInode(s: Fs, s': Fs, x: nat) {
    && |s.inodes| == |s'.inodes| && x < |s.inodes|
    && (forall y | 0 <= y < |s.inodes| && y != x :: s'.inodes[y] == s.inodes[y])
    && s'.inodes[x].id == s.inodes[x].id && s'.inodes[x].kind == s.inodes[x].kind
    && s'.total == s.total && s'.root == s.root && s'.nextId == s.nextId
    && CopyOnWrite(s, s')
  }

  /** What aevosfs_write does: d is the part of the buffer that was written. */
  ghost predicate Wrote(s: Fs, s': Fs, x: nat, off: nat, d: seq<byte>)
    requires FsOk(s) && FsOk(s')
  {
    && OnlyInode(s, s', x)
    && InodeOk(s, x) && InodeOk(s', x)
    && Patched(s.dev, s.inodes[x], s'.dev, s'.inodes[x], off, d)
  }

  // ----- Writes during which blocks could not be read.

  predicate Overlaps(i: nat, off: nat, len: nat) {
    len > 0 && BLOCK_SIZE * i < off + len && off < BLOCK_SIZE * i + BLOCK_SIZE
  }

  /** Position p lies in a block that was partly overwritten although it could not be read. */
  ghost predicate Zeroed(n: Inode, off: nat, len: nat, bad: set<nat>, p: nat) {
    Avail(n, p) && n.blocks[p / BLOCK_SIZE] in bad && Overlaps(p / BLOCK_SIZE, off, len)
  }

  /** As Patched, but what lies around the written bytes in an unreadable block is zero afterwards. */
  ghost predicate Zeroing(dev: seq<Block>, n: Inode, dev': seq<Block>, n': Inode, off: nat, d: seq<byte>, bad: set<nat>)
    requires OnDevice(dev, n)
    requires OnDevice(dev', n')
  {
    && (forall p | off <= p < off + |d| :: Avail(n', p) && ByteAt(dev', n', p) == d[p - off])
    && (forall p: nat | !(off <= p < off + |d|) && Avail(n, p) ::
          Avail(n', p) && ByteAt(dev', n', p) == if Zeroed(n, off, |d|, bad, p) then 0 else ByteAt(dev, n, p))
  }

  /** What aevosfs_write does when the blocks in `bad` cannot be read. */
  ghost predicate WroteWith(s: Fs, s': Fs, x: nat, off: nat, d: seq<byte>, bad: set<nat>)
    requires FsOk(s) && FsOk(s')
  {
    && OnlyInode(s, s', x)
    && InodeOk(s, x) && InodeOk(s', x)
    && Zeroing(s.dev, s.inodes[x], s'.dev, s'.inodes[x], off, d, bad)
  }

  /** Exactly the written bytes have changed if and only if all that was zeroed was zero before; so it is in particular
      when every block that was partly overwritten could be read. */
  lemma FailedReadsExactly(s: Fs, s': Fs, x: nat, off: nat, d: seq<byte>, bad: set<nat>)
    requires FsOk(s) && FsOk(s') && WroteWith(s, s', x, off, d, bad)
    ensures x < |s.inodes| && OnDevice(s.dev, s.inodes[x])
    ensures Wrote(s, s', x, off, d) <==>
            forall p: nat | !(off <= p < off + |d|) && Zeroed(s.inodes[x], off, |d|, bad, p) ::
              ByteAt(s.dev, s.inodes[x], p) == 0
  {
    hide Zeroed, Avail, ByteAt;
    var n, n' := s.inodes[x], s'.inodes[x];
    ZeroedIsBacked(n, off, |d|, bad);
    if Wrote(s, s', x, off, d) {
      forall p: nat | !(off <= p < off + |d|) && Zeroed(n, off, |d|, bad, p) ensures ByteAt(s.dev, n, p) == 0 {
        assert Avail(n, p) && ByteAt(s'.dev, n', p) == ByteAt(s.dev, n, p);
      }
    }
  }

  lemma ZeroedIsBacked(n: Inode, off: nat, len: nat, bad: set<nat>)
    ensures forall p: nat | Zeroed(n, off, len, bad, p) :: Avail(n, p)
  {
  }

  /** The bytes written are read back even so. */
  lemma ReadBackWith(s: Fs, s': Fs, x: nat, off: nat, d: seq<byte>, bad: set<nat>)
    requires FsOk(s) && FsOk(s') && WroteWith(s, s', x, off, d, bad)
    ensures x < |s'.inodes| && OnDevice(s'.dev, s'.inodes[x])
    ensures ReadFrom(s'.dev, s'.inodes[x], off, off + |d|) == d
  {
    hide Zeroed, Avail, ByteAt, ReadFrom;
    var n' := s'.inodes[x];
    ReadDense(s'.dev, n', off, off + |d|);
    var got := ReadFrom(s'.dev, n', off, off + |d|);
    forall i | 0 <= i < |d| ensures got[i] == d[i] {
      var q: nat := off + i;
      assert Avail(n', q) && got[q - off] == ByteAt(s'.dev, n', q);
    }
  }

  lemma ZeroingThenSame(dev0: seq<Block>, n0: Inode, dev1: seq<Block>, n1: Inode, dev2: seq<Block>, n2: Inode,
                        off: nat, d: seq<byte>, bad: set<nat>, off': nat)
    requires OnDevice(dev0, n0)
    requires OnDevice(dev1, n1)
    requires OnDevice(dev2, n2)
    requires Zeroing(dev0, n0, dev1, n1, off, d, bad) && Patched(dev1, n1, dev2, n2, off', [])
    ensures Zeroing(dev0, n0, dev2, n2, off, d, bad)
  {
    hide Zeroed, Avail, ByteAt;
    forall p | off <= p < off + |d| ensures Avail(n2, p) && ByteAt(dev2, n2, p) == d[p - off] { assert Avail(n1, p); }
    forall p: nat | !(off <= p < off + |d|) && Avail(n0, p)
      ensures Avail(n2, p)
      ensures ByteAt(dev2, n2, p) == if Zeroed(n0, off, |d|, bad, p) then 0 else ByteAt(dev0, n0, p)
    {
      assert Avail(n1, p);
    }
  }

  /** A step that writes nothing changes nothing about a write. */
  lemma WroteThenNothing(s0: Fs, s1: Fs, s2: Fs, x: nat, off: nat, d: seq<byte>, bad: set<nat>, off': nat)
    requires FsOk(s0) && FsOk(s1) && FsOk(s2) && WroteWith(s0, s1, x, off, d, bad) && Wrote(s1, s2, x, off', [])
    ensures WroteWith(s0, s2, x, off, d, bad)
  {
    hide Zeroing, Patched;
    ZeroingThenSame(s0.dev, s0.inodes[x], s1.dev, s1.inodes[x], s2.dev, s2.inodes[x], off, d, bad, off');
  }

  /** From place k on the two inodes have the same blocks. */
  ghost predicate SameFrom(n: Inode, m: Inode, k: nat)
    requires |n.blocks| == |m.blocks|
  {
    forall j | k <= j < |n.blocks| :: n.blocks[j] == m.blocks[j]
  }

  /** Two writes that meet between two blocks overlap different blocks. */
  lemma OverlapsApart(i: nat, off: nat, a: nat, b: nat)
    requires a == 0 || (off + a) % BLOCK_SIZE == 0
    ensures Overlaps(i, off, a + b) <==> Overlaps(i, off, a) || Overlaps(i, off + a, b)
    ensures Overlaps(i, off, a) ==> i < (off + a) / BLOCK_SIZE
    ensures Overlaps(i, off + a, b) ==> (off + a) / BLOCK_SIZE <= i
  {
  }

  lemma ZeroingTwice(dev0: seq<Block>, n0: Inode, dev1: seq<Block>, n1: Inode, dev2: seq<Block>, n2: Inode,
                     off: nat, d: seq<byte>, e: seq<byte>, bad: set<nat>)
    requires OnDevice(dev0, n0)
    requires OnDevice(dev1, n1)
    requires OnDevice(dev2, n2)
    requires Zeroing(dev0, n0, dev1, n1, off, d, bad) && Zeroing(dev1, n1, dev2, n2, off + |d|, e, bad)
    requires d == [] || (off + |d|) % BLOCK_SIZE == 0
    requires |n0.blocks| == |n1.blocks| && SameFrom(n1, n0, (off + |d|) / BLOCK_SIZE)
    ensures Zeroing(dev0, n0, dev2, n2, off, d + e, bad)
  {
    hide Overlaps, ByteAt;
    forall p | off <= p < off + |d + e| ensures Avail(n2, p) && ByteAt(dev2, n2, p) == (d + e)[p - off] {
      if p < off + |d| {
        assert Avail(n1, p);
        NotBoth(p, off, |d|, |e|);
      }
    }
    forall p: nat | !(off <= p < off + |d + e|) && Avail(n0, p)
      ensures Avail(n2, p)
      ensures ByteAt(dev2, n2, p) == if Zeroed(n0, off, |d + e|, bad, p) then 0 else ByteAt(dev0, n0, p)
    {
      assert Avail(n1, p);
      OverlapsApart(p / BLOCK_SIZE, off, |d|, |e|);
    }
  }

  /** A position in the first of two such writes lies in no block of the second. */
  lemma NotBoth(p: nat, off: nat, a: nat, b: nat)
    requires off <= p < off + a && (off + a) % BLOCK_SIZE == 0
    ensures !Overlaps(p / BLOCK_SIZE, off + a, b)
  {
  }

  lemma WroteMoreWith(s0: Fs, s1: Fs, s2: Fs, x: nat, off: nat, d: seq<byte>, e: seq<byte>, bad: set<nat>)
    requires FsOk(s0) && FsOk(s1) && FsOk(s2)
    requires WroteWith(s0, s1, x, off, d, bad) && WroteWith(s1, s2, x, off + |d|, e, bad)
    requires d == [] || (off + |d|) % BLOCK_SIZE == 0
    requires SameFrom(s1.inodes[x], s0.inodes[x], (off + |d|) / BLOCK_SIZE)
    ensures WroteWith(s0, s2, x, off, d + e, bad)
  {
    hide Zeroing;
    ZeroingTwice(s0.dev, s0.inodes[x], s1.dev, s1.inodes[x], s2.dev, s2.inodes[x], off, d, e, bad);
  }

  lemma WroteNothingWith(s: Fs, x: nat, off: nat, bad: set<nat>)
    requires FsOk(s) && x < MAX_INODES
    ensures WroteWith(s, s, x, off, [], bad)
  {
    assert InodeOk(s, x);
  }

  // ----- Composing writes.

  lemma WroteNothing(s: Fs, x: nat, off: nat)
    requires FsOk(s) && x < MAX_INODES
    ensures Wrote(s, s, x, off, [])
  {
    assert InodeOk(s, x);
  }

  lemma PatchedTwice(dev0: seq<Block>, n0: Inode, dev1: seq<Block>, n1: Inode, dev2: seq<Block>, n2: Inode,
                     off: nat, d: seq<byte>, e: seq<byte>)
    requires OnDevice(dev0, n0)
    requires OnDevice(dev1, n1)
    requires OnDevice(dev2, n2)
    requires Patched(dev0, n0, dev1, n1, off, d) && Patched(dev1, n1, dev2, n2, off + |d|, e)
    ensures Patched(dev0, n0, dev2, n2, off, d + e)
  {
    forall p | off <= p < off + |d + e| ensures Avail(n2, p) && ByteAt(dev2, n2, p) == (d + e)[p - off] {
      if p < off + |d| {
        assert Avail(n1, p);
      }
    }
    forall p: nat | !(off <= p < off + |d + e|) && Avail(n0, p)
      ensures Avail(n2, p) && ByteAt(dev2, n2, p) == ByteAt(dev0, n0, p)
    {
      assert Avail(n1, p);
    }
  }

  lemma WroteMore(s0: Fs, s1: Fs, s2: Fs, x: nat, off: nat, d: seq<byte>, e: seq<byte>)
    requires FsOk(s0) && FsOk(s1) && FsOk(s2)
    requires Wrote(s0, s1, x, off, d) && Wrote(s1, s2, x, off + |d|, e)
    ensures Wrote(s0, s2, x, off, d + e)
  {
    hide Patched;
    PatchedTwice(s0.dev, s0.inodes[x], s1.dev, s1.inodes[x], s2.dev, s2.inodes[x], off, d, e);
  }

  // ----- The three steps of a turn of the write loop.

  function SetBlock(n: Inode, i: nat, b: nat): Inode
    requires i < |n.blocks|
  {
    n.(blocks := n.blocks[i := b])
  }

  /** alloc_block for place i of inode x. */
  function Attach(s: Fs, x: nat, i: nat): Fs
    requires x < |s.inodes| && i < |s.inodes[x].blocks| && s.free > 0
  {
    s.(inodes := s.inodes[x := SetBlock(s.inodes[x], i, s.logHead)], logHead := s.logHead + 1, free := s.free - 1,
       owner := s.owner[s.logHead := (x, i)])
  }

  /** The new version of a data block goes to a new block. */
  function Replace(s: Fs, x: nat, i: nat, buf: Block): Fs
    requires x < |s.inodes| && i < |s.inodes[x].blocks| && s.free > 0 && s.logHead < |s.dev|
  {
    Attach(s, x, i).(dev := s.dev[s.logHead := buf])
  }

  /** log_append_write: one more block, used by no inode; skipped when the device is full. */
  function AppendLog(s: Fs, entry: Block): Fs
    requires s.logHead < |s.dev| || s.free == 0
  {
    if s.free == 0 then s
    else s.(dev := s.dev[s.logHead := entry], logHead := s.logHead + 1, free := s.free - 1)
  }

  function ZeroBlock(): Block { seq<byte>(BLOCK_SIZE, _ => 0) }

  function Overlay(was: Block, at: nat, d: seq<byte>): (b: Block)
    requires at + |d| <= BLOCK_SIZE
  {
    was[..at] + d + was[at + |d|..]
  }

  lemma AttachKeepsOk(s: Fs, x: nat, i: nat)
    requires FsOk(s) && x < MAX_INODES && i < DIRECT && s.free > 0
    ensures InodeOk(s, x) && FsOk(Attach(s, x, i))
  {
    assert InodeOk(s, x);
    var s' := Attach(s, x, i);
    forall y: nat | y < MAX_INODES ensures InodeOk(s', y) { assert InodeOk(s, y); }
    forall y: nat, z: nat | y < MAX_INODES && z < MAX_INODES ensures OneId(s', y, z) { assert OneId(s, y, z); }
  }

  lemma DeviceOnly(s: Fs, dev: seq<Block>)
    requires FsOk(s) && |dev| == |s.dev|
    ensures FsOk(s.(dev := dev))
  {
    var s' := s.(dev := dev);
    forall y: nat | y < MAX_INODES ensures InodeOk(s', y) { assert InodeOk(s, y); }
    forall y: nat, z: nat | y < MAX_INODES && z < MAX_INODES ensures OneId(s', y, z) { assert OneId(s, y, z); }
  }

  /** Giving a block to an empty place loses no byte. */
  lemma AttachWrites(s: Fs, x: nat, i: nat, off: nat)
    requires FsOk(s) && x < MAX_INODES && i < DIRECT && s.free > 0
    requires InodeOk(s, x) && s.inodes[x].blocks[i] == 0
    ensures FsOk(Attach(s, x, i)) && Wrote(s, Attach(s, x, i), x, off, [])
  {
    AttachKeepsOk(s, x, i);
    assert InodeOk(Attach(s, x, i), x);
  }

  lemma ReplaceKeepsOk(s: Fs, x: nat, i: nat, buf: Block)
    requires FsOk(s) && x < MAX_INODES && i < DIRECT && s.free > 0
    ensures InodeOk(s, x) && FsOk(Replace(s, x, i, buf)) && OnlyInode(s, Replace(s, x, i, buf), x)
  {
    AttachKeepsOk(s, x, i);
    DeviceOnly(Attach(s, x, i), s.dev[s.logHead := buf]);
  }

  /** Outside the positions at .. at + len, buf is a copy, or zeros. */
  ghost predicate AroundIs(was: Block, buf: Block, at: nat, len: nat, zero: bool) {
    forall r | 0 <= r < BLOCK_SIZE && !(at <= r < at + len) :: buf[r] == if zero then 0 else was[r]
  }

  lemma ReplaceZeroes(dev: seq<Block>, n: Inode, i: nat, b: nat, buf: Block, at: nat, d: seq<byte>, bad: set<nat>)
    requires (forall j | 0 <= j < |n.blocks| :: n.blocks[j] < b) && b < |dev|
    requires i < |n.blocks| && d != [] && at + |d| <= BLOCK_SIZE && buf[at..at + |d|] == d && b != 0
    requires n.blocks[i] == 0 || AroundIs(dev[n.blocks[i]], buf, at, |d|, n.blocks[i] in bad)
    ensures Zeroing(dev, n, dev[b := buf], SetBlock(n, i, b), BLOCK_SIZE * i + at, d, bad)
  {
    hide Overlaps;
    var dev', n' := dev[b := buf], SetBlock(n, i, b);
    var off := BLOCK_SIZE * i + at;
    forall p: nat | off <= p < off + |d| ensures Avail(n', p) && ByteAt(dev', n', p) == d[p - off] {
      InBlock(p, i, p - BLOCK_SIZE * i);
      assert d[p - off] == buf[at..at + |d|][p - off];
    }
    forall p: nat | !(off <= p < off + |d|) && Avail(n, p)
      ensures Avail(n', p)
      ensures ByteAt(dev', n', p) == if Zeroed(n, off, |d|, bad, p) then 0 else ByteAt(dev, n, p)
    {
      OnlyBlock(p / BLOCK_SIZE, i, at, |d|);
      if p / BLOCK_SIZE == i {
        InBlock(p, i, p % BLOCK_SIZE);
      }
    }
  }

  /** A write inside block i overlaps no other block. */
  lemma OnlyBlock(j: nat, i: nat, at: nat, len: nat)
    requires 0 < len && at + len <= BLOCK_SIZE
    ensures Overlaps(j, BLOCK_SIZE * i + at, len) <==> j == i
  {
  }

  lemma InBlock(p: nat, i: nat, r: nat)
    requires p == BLOCK_SIZE * i + r && r < BLOCK_SIZE
    ensures p / BLOCK_SIZE == i && p % BLOCK_SIZE == r
  {
  }

  /** Place i of inode x may have been given a block since s0. */
  ghost predicate MaybeAttached(s0: Fs, s: Fs, x: nat, i: nat) {
    && x < |s0.inodes| && i < |s0.inodes[x].blocks|
    && (s == s0 || (s0.free > 0 && s0.inodes[x].blocks[i] == 0 && s == Attach(s0, x, i)))
  }

  /** A chunk in a fresh block is a write of that chunk, with the rest of the block copied if it was readable, and zero
      if not. */
  lemma ReplaceWrites(s0: Fs, s: Fs, x: nat, i: nat, buf: Block, at: nat, d: seq<byte>, bad: set<nat>)
    requires FsOk(s0) && FsOk(s) && x < MAX_INODES && i < DIRECT && s.free > 0 && d != [] && at + |d| <= BLOCK_SIZE
    requires MaybeAttached(s0, s, x, i) && InodeOk(s0, x) && InodeOk(s, x) && buf[at..at + |d|] == d
    requires var b := s0.inodes[x].blocks[i]; b == 0 || AroundIs(s0.dev[b], buf, at, |d|, b in bad)
    ensures var s' := Replace(s, x, i, buf);
            FsOk(s') && WroteWith(s0, s', x, BLOCK_SIZE * i + at, d, bad)
  {
    hide Zeroing, AroundIs;
    var s' := Replace(s, x, i, buf);
    ReplaceKeepsOk(s, x, i, buf);
    assert InodeOk(s', x);
    ReplacedInode(s0, s, x, i, buf);
    ReplaceZeroes(s0.dev, s0.inodes[x], i, s.logHead, buf, at, d, bad);
  }

  lemma ReplacedInode(s0: Fs, s: Fs, x: nat, i: nat, buf: Block)
    requires FsOk(s0) && FsOk(s) && x < MAX_INODES && i < DIRECT && s.free > 0
    requires MaybeAttached(s0, s, x, i) && InodeOk(s0, x) && InodeOk(s, x)
    ensures var s' := Replace(s, x, i, buf);
            && s'.inodes[x] == SetBlock(s0.inodes[x], i, s.logHead) && s'.dev == s0.dev[s.logHead := buf]
            && OnlyInode(s0, s', x)
  {
    var s' := Replace(s, x, i, buf);
    assert s'.inodes[x].blocks == s0.inodes[x].blocks[i := s.logHead];
  }

  lemma AppendLogWrites(s: Fs, x: nat, entry: Block, off: nat)
    requires FsOk(s) && x < MAX_INODES
    ensures FsOk(AppendLog(s, entry)) && Wrote(s, AppendLog(s, entry), x, off, [])
  {
    var s' := AppendLog(s, entry);
    forall y: nat | y < MAX_INODES ensures InodeOk(s', y) { assert InodeOk(s, y); }
    forall y: nat, z: nat | y < MAX_INODES && z < MAX_INODES ensures OneId(s', y, z) { assert OneId(s, y, z); }
    assert InodeOk(s, x) && InodeOk(s', x);
  }

  // ----- Reading.

  /** A read inside one block takes a slice of it. */
  lemma {:induction false} ReadInBlock(dev: seq<Block>, n: Inode, p: nat, c: nat, end: nat)
    requires OnDevice(dev, n)
    requires Avail(n, p) && p % BLOCK_SIZE + c <= BLOCK_SIZE && p + c <= end
    ensures ReadFrom(dev, n, p, end) ==
            dev[n.blocks[p / BLOCK_SIZE]][p % BLOCK_SIZE..p % BLOCK_SIZE + c] + ReadFrom(dev, n, p + c, end)
    decreases c
  {
    hide ReadFrom;
    var i, r := p / BLOCK_SIZE, p % BLOCK_SIZE;
    var b := dev[n.blocks[i]];
    if c == 0 {
      assert b[r..r] == [];
      assert [] + ReadFrom(dev, n, p, end) == ReadFrom(dev, n, p, end);
    } else {
      ReadOneByte(dev, n, p, end);
      assert b[r..r + c] == [b[r]] + b[r + 1..r + c];
      if c > 1 {
        InBlock(p + 1, i, r + 1);
        AvailInBlock(n, p, p + 1);
        ReadInBlock(dev, n, p + 1, c - 1, end);
      }
    }
  }

  lemma AvailInBlock(n: Inode, p: nat, q: nat)
    requires Avail(n, p) && p / BLOCK_SIZE == q / BLOCK_SIZE
    ensures Avail(n, q)
  {
  }

  lemma ReadOneByte(dev: seq<Block>, n: Inode, p: nat, end: nat)
    requires OnDevice(dev, n)
    requires Avail(n, p) && p < end
    ensures ReadFrom(dev, n, p, end) == [dev[n.blocks[p / BLOCK_SIZE]][p % BLOCK_SIZE]] + ReadFrom(dev, n, p + 1, end)
  {
  }

  /** No holes below the end of the file. */
  ghost predicate Dense(n: Inode) {
    forall p: nat | p < n.size :: Avail(n, p)
  }

  lemma {:induction false} ReadDense(dev: seq<Block>, n: Inode, p: nat, end: nat)
    requires OnDevice(dev, n)
    requires p <= end && forall q: nat | p <= q < end :: Avail(n, q)
    ensures |ReadFrom(dev, n, p, end)| == end - p
    ensures forall q: nat | p <= q < end :: ReadFrom(dev, n, p, end)[q - p] == ByteAt(dev, n, q)
    decreases end - p
  {
    if p < end {
      assert Avail(n, p);
      ReadDense(dev, n, p + 1, end);
      ReadOneByte(dev, n, p, end);
      var r, t := ReadFrom(dev, n, p, end), ReadFrom(dev, n, p + 1, end);
      forall q: nat | p <= q < end ensures |r| == end - p && r[q - p] == ByteAt(dev, n, q) {
        if q == p {
          assert r[0] == ByteAt(dev, n, p);
        } else {
          assert Avail(n, q) && r[q - p] == t[q - (p + 1)];
        }
      }
    }
  }

  function Contents(s: Fs, x: nat): seq<byte>
    requires x < |s.inodes| && OnDevice(s.dev, s.inodes[x])
  {
    ReadFrom(s.dev, s.inodes[x], 0, s.inodes[x].size)
  }

  function Max(a: nat, b: nat): nat { if a < b then b else a }

  /** d in place of what a holds from off on. */
  function Splice(a: seq<byte>, off: nat, d: seq<byte>): (r: seq<byte>)
    requires off <= |a|
    ensures |r| == Max(|a|, off + |d|)
    ensures forall k | 0 <= k < |r| :: r[k] == if off <= k < off + |d| then d[k - off] else a[k]
  {
    a[..off] + d + a[Min(off + |d|, |a|)..]
  }

  lemma DenseAfterWrite(s: Fs, s': Fs, x: nat, off: nat, d: seq<byte>)
    requires FsOk(s) && FsOk(s') && Wrote(s, s', x, off, d)
    requires Dense(s.inodes[x]) && off <= s.inodes[x].size && s'.inodes[x].size <= Max(s.inodes[x].size, off + |d|)
    ensures Dense(s'.inodes[x])
  {
    hide FsOk, OnlyInode, InodeOk, Avail;
    BlocksInRange(s, s', x, off, d);
    var n, n' := s.inodes[x], s'.inodes[x];
    forall p: nat | p < n'.size ensures Avail(n', p) {
      if !(off <= p < off + |d|) { assert Avail(n, p); }
    }
  }

  lemma BytesAfterWrite(s: Fs, s': Fs, x: nat, off: nat, d: seq<byte>, k: nat)
    requires FsOk(s) && FsOk(s') && Wrote(s, s', x, off, d)
    requires Dense(s.inodes[x]) && Dense(s'.inodes[x]) && off <= s.inodes[x].size
    requires |Contents(s, x)| == s.inodes[x].size && |Contents(s', x)| == s'.inodes[x].size
    requires k < s'.inodes[x].size <= Max(s.inodes[x].size, off + |d|)
    requires Contents(s', x)[k] == ByteAt(s'.dev, s'.inodes[x], k)
    requires k < s.inodes[x].size ==> Contents(s, x)[k] == ByteAt(s.dev, s.inodes[x], k)
    ensures Contents(s', x)[k] == Splice(Contents(s, x), off, d)[k]
  {
    hide FsOk, OnlyInode, InodeOk, Avail, ByteAt, Contents;
    BlocksInRange(s, s', x, off, d);
    var n := s.inodes[x];
    if !(off <= k < off + |d|) { assert Avail(n, k); }
  }

  /** Read after write: in a file without holes, a write at or below its end replaces exactly those bytes.
      A write that stopped early leaves the size, so what it wrote past the old end is not seen. */
  lemma ReadAfterWrite(s: Fs, s': Fs, x: nat, off: nat, d: seq<byte>)
    requires FsOk(s) && FsOk(s') && Wrote(s, s', x, off, d)
    requires Dense(s.inodes[x]) && off <= s.inodes[x].size
    requires s'.inodes[x].size == Max(s.inodes[x].size, off + |d|) || s'.inodes[x].size == s.inodes[x].size
    ensures Dense(s'.inodes[x])
    ensures |Contents(s, x)| == s.inodes[x].size
    ensures Contents(s', x) == Splice(Contents(s, x), off, d)[..s'.inodes[x].size]
  {
    hide FsOk, OnlyInode, InodeOk, Avail, Patched, ByteAt;
    BlocksInRange(s, s', x, off, d);
    DenseAfterWrite(s, s', x, off, d);
    var n, n' := s.inodes[x], s'.inodes[x];
    ReadDense(s.dev, n, 0, n.size);
    ReadDense(s'.dev, n', 0, n'.size);
    forall k: nat | k < n'.size ensures Contents(s', x)[k] == Splice(Contents(s, x), off, d)[k] {
      assert Avail(n', k) && (k < n.size ==> Avail(n, k));
      BytesAfterWrite(s, s', x, off, d, k);
    }
  }

  lemma BlocksInRange(s: Fs, s': Fs, x: nat, off: nat, d: seq<byte>)
    requires FsOk(s) && FsOk(s') && Wrote(s, s', x, off, d)
    ensures x < |s.inodes| == |s'.inodes|
    ensures OnDevice(s.dev, s.inodes[x]) && OnDevice(s'.dev, s'.inodes[x])
  {
  }

  /** The byte at position q once d has been written at off. */
  function ByteAfter(dev: seq<Block>, n: Inode, off: nat, d: seq<byte>, q: nat): byte
    requires OnDevice(dev, n) && (Avail(n, q) || off <= q < off + |d|)
  {
    if off <= q < off + |d| then d[q - off] else ByteAt(dev, n, q)
  }

  /** Read after write in any file, holes or not: a range that was backed or written reads back the written bytes and,
      elsewhere, the old ones. */
  lemma {:induction false} RangeAfterWrite(s: Fs, s': Fs, x: nat, off: nat, d: seq<byte>, p: nat, end: nat)
    requires FsOk(s) && FsOk(s') && Wrote(s, s', x, off, d) && p <= end
    requires forall q: nat | p <= q < end :: Avail(s.inodes[x], q) || off <= q < off + |d|
    ensures x < |s.inodes| == |s'.inodes| && OnDevice(s.dev, s.inodes[x]) && OnDevice(s'.dev, s'.inodes[x])
    ensures var r := ReadFrom(s'.dev, s'.inodes[x], p, end);
            && |r| == end - p
            && forall i | 0 <= i < |r| ::
                 (Avail(s.inodes[x], p + i) || off <= p + i < off + |d|)
                     && r[i] == ByteAfter(s.dev, s.inodes[x], off, d, p + i)
  {
    hide FsOk, OnlyInode, InodeOk, Avail, ByteAt;
    BlocksInRange(s, s', x, off, d);
    var n, n' := s.inodes[x], s'.inodes[x];
    forall q: nat | p <= q < end ensures Avail(n', q) {
      assert Avail(n, q) || off <= q < off + |d|;
    }
    ReadDense(s'.dev, n', p, end);
    var r := ReadFrom(s'.dev, n', p, end);
    forall i | 0 <= i < |r|
      ensures (Avail(n, p + i) || off <= p + i < off + |d|) && r[i] == ByteAfter(s.dev, n, off, d, p + i)
    {
      var q: nat := p + i;
      assert Avail(n, q) || off <= q < off + |d|;
      assert Avail(n', q) && r[q - p] == ByteAt(s'.dev, n', q);
    }
  }

  /** What was written is read back, wherever it was written. */
  lemma {:induction false} ReadBack(s: Fs, s': Fs, x: nat, off: nat, d: seq<byte>)
    requires FsOk(s) && FsOk(s') && Wrote(s, s', x, off, d)
    ensures x < |s'.inodes| && OnDevice(s'.dev, s'.inodes[x])
    ensures ReadFrom(s'.dev, s'.inodes[x], off, off + |d|) == d
  {
    hide FsOk, Wrote, ReadFrom, OnDevice, ByteAt, Avail;
    RangeAfterWrite(s, s', x, off, d, off, off + |d|);
  }

  // ----- Snapshots.

  /** Reading depends only on the blocks of the inode. */
  lemma {:induction false} ReadSameBlocks(dev: seq<Block>, dev': seq<Block>, n: Inode, p: nat, end: nat)
    requires OnDevice(dev, n) && OnDevice(dev', n)
    requires forall i | 0 <= i < |n.blocks| && n.blocks[i] != 0 :: dev'[n.blocks[i]] == dev[n.blocks[i]]
    ensures ReadFrom(dev', n, p, end) == ReadFrom(dev, n, p, end)
    decreases end - p
  {
    if p < end && Avail(n, p) {
      ReadSameBlocks(dev, dev', n, p + 1, end);
    }
  }
}
