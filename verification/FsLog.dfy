/** What a write leaves on the device besides the file's bytes: the log entries, and how many blocks it takes. */
module FsLog {
  import opened Bytes
  import opened Counting
  import opened FsSpec

  /** The blocks whose transfers fail during a call. */
  datatype Faults = Faults(badReads: set<nat>, badWrites: set<nat>)

  function Padded(s: seq<byte>): Block
    requires |s| <= BLOCK_SIZE
  {
    s + seq<byte>(BLOCK_SIZE - |s|, _ => 0)
  }

  /** The block that records one write: the packed log entry, then zeros. */
  function LogEntry(inodeId: nat, offset: nat, length: nat, blk: nat): Block {
    var entry: seq<byte> := [1] + Le(inodeId, 8) + Le(offset, 8) + Le(length, 4) + Le(blk, 8) + Le(0, 8);
    Padded(entry)
  }

  /** A block reads as the log entry of a write: entry type, inode, offset, length and data block, and then zeros. */
  ghost predicate Records(b: Block, inodeId: nat, offset: nat, length: nat, blk: nat) {
    && b[0] == 1 && FromLe(b[1..9]) == inodeId % U64 && FromLe(b[9..17]) == offset % U64
    && FromLe(b[17..21]) == length % U32 && FromLe(b[21..29]) == blk % U64
    && forall i | 29 <= i < BLOCK_SIZE :: b[i] == 0
  }

  lemma LogEntryRecords(inodeId: nat, offset: nat, length: nat, blk: nat)
    ensures Records(LogEntry(inodeId, offset, length, blk), inodeId, offset, length, blk)
  {
    hide Le, FromLe, Pow256;
    var b := LogEntry(inodeId, offset, length, blk);
    Pow256Values();
    assert b[1..9] == Le(inodeId, 8) && b[9..17] == Le(offset, 8) && b[17..21] == Le(length, 4);
    assert b[21..29] == Le(blk, 8);
    assert b[29..37] == Le(0, 8);
    LeReads(inodeId, 8);
    LeReads(offset, 8);
    LeReads(length, 4);
    LeReads(blk, 8);
    LeOfZero(8);
    forall i | 29 <= i < BLOCK_SIZE ensures b[i] == 0 {
      if i < 37 { assert b[i] == b[29..37][i - 29]; }
    }
  }

  /** Reading back n bytes gives the value modulo 256^n. */
  lemma {:induction false} LeReads(v: nat, n: nat)
    ensures FromLe(Le(v, n)) == v % Pow256(n)
    decreases n
  {
    if n > 0 {
      LeReads(v / 256, n - 1);
      ModStep(v, Pow256(n - 1));
    }
  }

  lemma ModStep(v: nat, p: nat)
    requires p > 0
    ensures v % (256 * p) == v % 256 + 256 * (v / 256 % p)
  {
    var q, r := v / 256 / p, v / 256 % p;
    DivMod(v / 256, p);
    assert 256 * (q * p) == q * (256 * p);
    ModIs(v, 256 * p, q, v % 256 + 256 * r);
  }

  lemma {:induction false} LeOfZero(n: nat)
    ensures forall i | 0 <= i < n :: Le(0, n)[i] == 0
  {
    if n > 0 { LeOfZero(n - 1); }
  }

  // ----- The blocks a write takes.

  /** The places of the block list that len bytes from off on fall in. */
  ghost function Places(off: nat, len: nat): set<nat> {
    set j | j in Range(DIRECT) && Overlaps(j, off, len)
  }

  ghost function Holes(n: Inode, off: nat, len: nat): set<nat> {
    set j | j in Places(off, len) && j < |n.blocks| && n.blocks[j] == 0
  }

  /** Two blocks for each place, data and log, and one more for each place that had none. */
  ghost function Cost(n: Inode, off: nat, len: nat): nat {
    2 * |Places(off, len)| + |Holes(n, off, len)|
  }

  lemma CostOfNothing(n: Inode, off: nat)
    ensures Cost(n, off, 0) == 0
  {
    assert Places(off, 0) == {} && Holes(n, off, 0) == {};
  }

  lemma CostOfChunk(n: Inode, off: nat, len: nat)
    requires 0 < len <= BLOCK_SIZE - off % BLOCK_SIZE && off / BLOCK_SIZE < DIRECT == |n.blocks|
    ensures Cost(n, off, len) == 2 + if n.blocks[off / BLOCK_SIZE] == 0 then 1 else 0
  {
    hide Overlaps;
    var i := off / BLOCK_SIZE;
    forall j: nat ensures Overlaps(j, off, len) <==> j == i { OnlyBlock(j, i, off % BLOCK_SIZE, len); }
    OnePlace(n, off, len, i);
  }

  lemma OnePlace(n: Inode, off: nat, len: nat, i: nat)
    requires i < DIRECT == |n.blocks| && forall j: nat :: Overlaps(j, off, len) <==> j == i
    ensures Cost(n, off, len) == 2 + if n.blocks[i] == 0 then 1 else 0
  {
    hide Overlaps;
    var holes: set<nat> := if n.blocks[i] == 0 then {i} else {};
    assert Places(off, len) == {i};
    assert Holes(n, off, len) == holes;
  }

  /** Writes that meet between two blocks add up. */
  lemma CostAdds(n: Inode, m: Inode, off: nat, a: nat, b: nat)
    requires a == 0 || (off + a) % BLOCK_SIZE == 0
    requires |n.blocks| == |m.blocks| == DIRECT && SameFrom(m, n, (off + a) / BLOCK_SIZE)
    ensures Cost(n, off, a + b) == Cost(n, off, a) + Cost(m, off + a, b)
  {
    hide Overlaps;
    forall j: nat
      ensures Overlaps(j, off, a + b) <==> Overlaps(j, off, a) || Overlaps(j, off + a, b)
      ensures !(Overlaps(j, off, a) && Overlaps(j, off + a, b))
      ensures Overlaps(j, off + a, b) ==> (off + a) / BLOCK_SIZE <= j
    {
      OverlapsApart(j, off, a, b);
    }
    assert Places(off, a + b) == Places(off, a) + Places(off + a, b) && Places(off, a) !! Places(off + a, b);
    assert Holes(n, off, a + b) == Holes(n, off, a) + Holes(m, off + a, b);
  }

  // ----- What is on them.

  /** Place j after a write of len bytes at off: a fresh data block, then the entry that records it, if a block was left
      and its transfer went through.  Where there was no block before, the rest of the data block is what the device
      held in the block before it. */
  ghost predicate LoggedAt(s: Fs, s': Fs, x: nat, off: nat, len: nat, io: Faults, j: nat)
    requires x < |s.inodes| == |s'.inodes| && |s.inodes[x].blocks| == |s'.inodes[x].blocks| == DIRECT
  {
    j < DIRECT && Overlaps(j, off, len) ==>
      var b := s'.inodes[x].blocks[j];
      var lo, hi := Max(off, BLOCK_SIZE * j), Min(off + len, BLOCK_SIZE * j + BLOCK_SIZE);
      && s.logHead <= b < s'.logHead <= |s.dev| == |s'.dev| && b !in io.badWrites
      && (b + 1 < |s'.dev| ==>
            b + 1 < s'.logHead && (b + 1 in io.badWrites || Records(s'.dev[b + 1], s.inodes[x].id, lo, hi - lo, b)))
      && (s.inodes[x].blocks[j] == 0 ==>
            s.logHead < b && FilledFrom(s.dev[b - 1], b - 1 in io.badReads, s'.dev[b], lo - BLOCK_SIZE * j, hi - lo))
  }

  ghost predicate FilledFrom(was: Block, zero: bool, buf: Block, at: int, len: int) {
    at >= 0 && len >= 0 && AroundIs(was, buf, at, len, zero)
  }

  /** A write of len bytes at off through inode x, with its log. */
  ghost predicate Logged(s: Fs, s': Fs, x: nat, off: nat, len: nat, io: Faults)
    requires x < |s.inodes| == |s'.inodes| && |s.inodes[x].blocks| == |s'.inodes[x].blocks| == DIRECT
  {
    forall j: nat :: LoggedAt(s, s', x, off, len, io, j)
  }

  /** What is beyond the log head has not been written. */
  ghost predicate FreshUntouched(s: Fs, s': Fs) {
    && s.logHead <= s'.logHead <= |s.dev| == |s'.dev|
    && (forall b | s'.logHead <= b < |s.dev| :: s'.dev[b] == s.dev[b])
    && (forall b | 0 <= b < s.logHead :: s'.dev[b] == s.dev[b])
  }

  lemma NothingLogged(s: Fs, x: nat, off: nat, io: Faults)
    requires x < |s.inodes| && |s.inodes[x].blocks| == DIRECT
    ensures Logged(s, s, x, off, 0, io)
  {
  }

  /** The log of a chunk and the log of what went before it. */
  lemma LoggedMore(s0: Fs, s1: Fs, s2: Fs, x: nat, off: nat, a: nat, b: nat, io: Faults)
    requires x < |s0.inodes| == |s1.inodes| == |s2.inodes|
    requires |s0.inodes[x].blocks| == |s1.inodes[x].blocks| == |s2.inodes[x].blocks| == DIRECT
    requires Logged(s0, s1, x, off, a, io) && Logged(s1, s2, x, off + a, b, io) && s1.inodes[x].id == s0.inodes[x].id
    requires FreshUntouched(s0, s1) && FreshUntouched(s1, s2)
    requires a == 0 || (off + a) % BLOCK_SIZE == 0
    requires SameFrom(s1.inodes[x], s0.inodes[x], (off + a) / BLOCK_SIZE)
    requires forall j | 0 <= j < DIRECT && j < (off + a) / BLOCK_SIZE ::
               s2.inodes[x].blocks[j] == s1.inodes[x].blocks[j]
    ensures Logged(s0, s2, x, off, a + b, io) && FreshUntouched(s0, s2)
  {
    hide Overlaps, Records, FilledFrom;
    var len := a + b;
    forall j: nat ensures LoggedAt(s0, s2, x, off, len, io, j) {
      assert LoggedAt(s0, s1, x, off, a, io, j) && LoggedAt(s1, s2, x, off + a, b, io, j);
      OverlapsApart(j, off, a, b);
      if j < DIRECT && Overlaps(j, off, a + b) { SameRange(j, off, a, b); }
    }
  }

  /** Each place takes its range from one of the two. */
  lemma SameRange(j: nat, off: nat, a: nat, b: nat)
    requires (a == 0 || (off + a) % BLOCK_SIZE == 0) && Overlaps(j, off, a + b)
    ensures Overlaps(j, off, a) ==>
              Min(off + (a + b), BLOCK_SIZE * j + BLOCK_SIZE) == Min(off + a, BLOCK_SIZE * j + BLOCK_SIZE)
    ensures Overlaps(j, off + a, b) ==> Max(off, BLOCK_SIZE * j) == Max(off + a, BLOCK_SIZE * j)
  {
    var q := (off + a) / BLOCK_SIZE;
    assert a > 0 ==> off + a == BLOCK_SIZE * q;
  }
}
