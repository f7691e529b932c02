/** aevosfs.c as it runs: the mounted volume, its allocator, and reading and writing through an inode. */
module AevosFs {
  import opened Bytes
  import opened Counting
  import opened Errno
  import opened FsSpec
  import opened FsLog
  import opened FsDir
  import opened FsSlots
  import opened FsCreate

  /** The superblock of a new volume, packed. */
  function SuperBlock(): Block {
    Padded(Le(0xAE05_F5A1, 4) + Le(1, 4) + Le(BLOCK_SIZE, 4) + Le(65536, 8) + Le(65534, 8) + Le(1, 8) + Le(2, 8))
  }

  /** The fields of a superblock agree with a device of 65536 blocks, whose root is the first inode. */
  ghost predicate Sound(b: Block) {
    && FromLe(b[12..20]) == 65536 && FromLe(b[20..28]) + FromLe(b[36..44]) == 65536
    && FromLe(b[28..36]) == 1 && 2 <= FromLe(b[36..44])
  }

  /** Its fields: magic number, version, block size, blocks in all and free, root inode, log head, and then zeros. */
  lemma SuperBlockFields()
    ensures var b := SuperBlock();
            && FromLe(b[0..4]) == 0xAE05_F5A1 && FromLe(b[4..8]) == 1 && FromLe(b[8..12]) == BLOCK_SIZE
            && FromLe(b[12..20]) == 65536 && FromLe(b[20..28]) == 65534 && FromLe(b[28..36]) == 1
            && FromLe(b[36..44]) == 2 && (forall i | 44 <= i < BLOCK_SIZE :: b[i] == 0) && Sound(b)
  {
    hide Le, FromLe, Pow256;
    var b := SuperBlock();
    Pow256Values();
    assert b[0..4] == Le(0xAE05_F5A1, 4) && b[4..8] == Le(1, 4) && b[8..12] == Le(BLOCK_SIZE, 4);
    assert b[12..20] == Le(65536, 8) && b[20..28] == Le(65534, 8) && b[28..36] == Le(1, 8) && b[36..44] == Le(2, 8);
    LeRoundTrip(0xAE05_F5A1, 4);
    LeRoundTrip(1, 4);
    LeRoundTrip(BLOCK_SIZE, 4);
    LeRoundTrip(65536, 8);
    LeRoundTrip(65534, 8);
    LeRoundTrip(1, 8);
    LeRoundTrip(2, 8);
  }

  /** How a turn of the write loop ends. */
  datatype Turn = Stored | NoSpace | Failed

  predicate Readable(n: Inode, i: nat, io: Faults) {
    i < |n.blocks| && n.blocks[i] != 0 ==> n.blocks[i] !in io.badReads
  }

  /** No transfer fails on the len bytes from p on. */
  ghost predicate CanRead(n: Inode, p: nat, len: nat, io: Faults) {
    forall q: nat | p <= q < p + len :: Readable(n, q / BLOCK_SIZE, io)
  }

  /** The new version of block b. A full block is not read first; after a failed read the rest is zeros. */
  function Modified(dev: seq<Block>, b: nat, at: nat, d: seq<byte>, io: Faults): Block
    requires b < |dev| && at + |d| <= BLOCK_SIZE
  {
    if at == 0 && |d| == BLOCK_SIZE then d
    else Overlay(if b in io.badReads then ZeroBlock() else dev[b], at, d)
  }

  ghost predicate SameShape(s0: Fs, s: Fs, x: nat) {
    x < |s0.inodes| == |s.inodes| && |s0.inodes[x].blocks| == |s.inodes[x].blocks| == DIRECT
  }

  /** aevosfs_write has come to byte t of len: the end, or the start of a block that it has not touched. */
  ghost predicate Reached(s0: Fs, s: Fs, x: nat, offset: nat, len: nat, t: nat) {
    && t <= len && SameShape(s0, s, x)
    && s.inodes[x].size == s0.inodes[x].size && s.inodes[x].id == s0.inodes[x].id
    && (t == 0 || t == len || (offset + t) % BLOCK_SIZE == 0)
    && (t < len ==> SameFrom(s.inodes[x], s0.inodes[x], (offset + t) / BLOCK_SIZE))
  }

  /** The log and the allocator by then. */
  ghost predicate Booked(s0: Fs, s: Fs, x: nat, offset: nat, t: nat, io: Faults)
    requires SameShape(s0, s, x)
  {
    && Logged(s0, s, x, offset, t, io) && FreshUntouched(s0, s)
    && s.logHead == Min(s0.logHead + Cost(s0.inodes[x], offset, t), |s.dev|)
  }

  /** A turn that wrote nothing: no direct block is left, or no space, or the block it took could not be written. */
  ghost predicate Stopped(s: Fs, s': Fs, x: nat, pos: nat, r: Turn, io: Faults)
    requires FsOk(s) && FsOk(s') && SameShape(s, s', x)
  {
    && Wrote(s, s', x, pos, [])
    && (r == NoSpace ==> if pos / BLOCK_SIZE >= DIRECT then s' == s else s'.free == 0)
    && (r == Failed ==>
          && pos / BLOCK_SIZE < DIRECT && s'.logHead - 1 in io.badWrites
          && s'.logHead == s.logHead + if s.inodes[x].blocks[pos / BLOCK_SIZE] == 0 then 2 else 1)
  }

  /** What a chunk leaves before its log entry: its block at the log head. */
  ghost predicate PutAt(s: Fs, s': Fs, x: nat, i: nat, at: nat, len: nat, io: Faults)
    requires SameShape(s, s', x) && i < DIRECT
  {
    var b := s'.inodes[x].blocks[i];
    && s'.logHead == b + 1 <= |s.dev| == |s'.dev| && b !in io.badWrites
    && b == s.logHead + (if s.inodes[x].blocks[i] == 0 then 1 else 0)
    && (forall c | 0 <= c < |s.dev| && c != b :: s'.dev[c] == s.dev[c])
    && (s.inodes[x].blocks[i] == 0 ==> AroundIs(s.dev[b - 1], s'.dev[b], at, len, b - 1 in io.badReads))
  }

  class Volume {
    var dev: seq<Block>
    var inodes: seq<Inode>
    var total: nat
    var free: nat
    var logHead: nat
    var root: nat
    var nextId: nat
    ghost var owner: map<nat, (nat, nat)>

    ghost function State(): Fs
      reads this
    {
      Fs(dev, inodes, total, free, logHead, root, nextId, owner)
    }

    ghost predicate Valid()
      reads this
    {
      FsOk(State())
    }

    /** aevosfs_mount after aevosfs_init.  A device without a superblock is formatted: block 0 for the superblock and
        block 1 for the root directory.  Of one with a superblock only that is read: the root is a new inode without
        blocks. */
    constructor Mount(device: seq<Block>)
      requires |device| == 65536
      ensures var b := device[0];
              if FromLe(b[0..4]) != 0xAE05_F5A1 then
                && total == 65536 && free == 65534 && logHead == 2 && root == 1
                && dev == device[0 := SuperBlock()][1 := ZeroBlock()]
              else
                && total == FromLe(b[12..20]) && free == FromLe(b[20..28]) && root == FromLe(b[28..36])
                && logHead == FromLe(b[36..44]) && dev == device
      ensures |inodes| == MAX_INODES && forall z | 0 < z < MAX_INODES :: inodes[z].id == 0
      ensures FromLe(device[0][0..4]) != 0xAE05_F5A1 || Sound(device[0]) ==>
                && TidyFs(State()) && inodes[0].kind == Dir && inodes[0].size == 0
                && Resolve(State(), [SLASH]) == Some(0)
                && OnDevice(dev, inodes[0]) && forall nm :: LookupAt(State(), 0, nm).None?
    {
      hide FromLe;
      var slots := seq<Inode>(MAX_INODES, _ => Inode(0, File, 0, NoBlocks()));
      if FromLe(device[0][0..4]) != 0xAE05_F5A1 {
        dev := device[0 := SuperBlock()][1 := ZeroBlock()];
        total, free, logHead, root, nextId := 65536, 65534, 2, 1, 2;
        inodes := slots[0 := Inode(1, Dir, 0, NoBlocks()[0 := 1])];
        owner := map[1 := (0, 0)];
      } else {
        dev := device;
        total, free := FromLe(device[0][12..20]), FromLe(device[0][20..28]);
        logHead, root := FromLe(device[0][36..44]), FromLe(device[0][28..36]);
        // Id 0 is the id of every unused inode, so it counts as found.
        nextId := if FromLe(device[0][28..36]) == 0 then 1 else 2;
        inodes := if FromLe(device[0][28..36]) == 0 then slots
                  else slots[0 := Inode(FromLe(device[0][28..36]), Dir, 0, NoBlocks())];
        owner := map[];
      }
      new;
      if FromLe(device[0][0..4]) != 0xAE05_F5A1 || Sound(device[0]) { FreshIsOk(State()); }
    }

    /** alloc_block: 0 when the device is full. */
    method AllocBlock() returns (blk: nat)
      modifies this`logHead, this`free
      ensures old(free) == 0 ==> blk == 0 && free == 0 && logHead == old(logHead)
      ensures old(free) > 0 ==> blk == old(logHead) && logHead == old(logHead) + 1 && free == old(free) - 1
    {
      if free == 0 {
        return 0;
      }
      blk := logHead;
      logHead := logHead + 1;
      free := free - 1;
    }

    /** log_append_write; a failed transfer still uses up the block. */
    method LogAppend(x: nat, offset: nat, length: nat, blk: nat, io: Faults)
      requires Valid() && x < MAX_INODES
      modifies this
      ensures Valid() && Wrote(old(State()), State(), x, offset, []) && inodes == old(inodes)
      ensures old(free) == 0 ==> State() == old(State())
      ensures old(free) > 0 ==>
                && logHead == old(logHead) + 1 <= |dev| == |old(dev)|
                && (forall b | 0 <= b < |dev| && b != old(logHead) :: dev[b] == old(dev)[b])
                && (old(logHead) in io.badWrites || Records(dev[old(logHead)], inodes[x].id, offset, length, blk))
    {
      hide FsOk, Wrote, LogEntry, Records;
      ghost var s := State();
      BoundsOf(s, x);
      var entry := LogEntry(inodes[x].id, offset, length, blk);
      LogEntryRecords(inodes[x].id, offset, length, blk);
      var b := AllocBlock();
      if b != 0 {
        var after := if b in io.badWrites then dev[b] else entry;
        AppendLogWrites(s, x, after, offset);
        dev := dev[b := after];
        assert State() == AppendLog(s, after);
      } else {
        WroteNothing(s, x, offset);
      }
    }

    /** One turn of the loop of aevosfs_write: the part of the buffer that falls in one block. */
    method WriteTurn(x: nat, pos: nat, data: seq<byte>, io: Faults) returns (r: Turn, chunk: nat)
      requires Valid() && x < MAX_INODES && data != []
      modifies this
      ensures Valid() && SameShape(old(State()), State(), x)
      ensures chunk == Min(BLOCK_SIZE - pos % BLOCK_SIZE, |data|)
      ensures r == Stored ==>
                && WroteWith(old(State()), State(), x, pos, data[..chunk], io.badReads) && old(free) > 0
                && Booked(old(State()), State(), x, pos, chunk, io)
      ensures r != Stored ==> Stopped(old(State()), State(), x, pos, r, io)
      ensures inodes[x].size == old(inodes[x].size)
      ensures forall j | 0 <= j < DIRECT && j != pos / BLOCK_SIZE :: inodes[x].blocks[j] == old(inodes[x].blocks[j])
    {
      hide FsOk, Wrote, WroteWith, Overlay, Booked, Records;
      ghost var s0 := State();
      BoundsOf(s0, x);
      var i, at := pos / BLOCK_SIZE, pos % BLOCK_SIZE;
      r, chunk := NoSpace, Min(BLOCK_SIZE - at, |data|);
      WroteNothing(s0, x, pos);
      if i >= DIRECT {
        return;
      }
      if inodes[x].blocks[i] == 0 {
        var gotSpace := AttachBlock(x, i, pos);
        if !gotSpace {
          return;
        }
      }
      r := PutChunk(s0, x, i, at, data[..chunk], io);
      if r == Stored {
        ghost var s2 := State();
        LogAppend(x, pos, chunk, inodes[x].blocks[i], io);
        WroteThenNothing(s0, s2, State(), x, pos, data[..chunk], io.badReads, pos);
        SameId(s0, s2, x, pos, data[..chunk], io.badReads);
        TurnIsBooked(s0, s2, State(), x, pos, chunk, io);
      }
    }

    method AttachBlock(x: nat, i: nat, pos: nat) returns (ok: bool)
      requires Valid() && x < MAX_INODES && i < DIRECT && |inodes| == MAX_INODES && |inodes[x].blocks| == DIRECT
      requires inodes[x].blocks[i] == 0
      modifies this
      ensures Valid() && Wrote(old(State()), State(), x, pos, [])
      ensures |inodes| == MAX_INODES && |inodes[x].blocks| == DIRECT && inodes[x].size == old(inodes[x].size)
      ensures if ok then old(free) > 0 && State() == Attach(old(State()), x, i) && inodes[x].blocks[i] != 0
              else State() == old(State()) && free == 0
    {
      hide Wrote;
      ghost var s := State();
      BoundsOf(s, x);
      WroteNothing(s, x, pos);
      var blk := AllocBlock();
      ok := blk != 0;
      if !ok {
        return;
      }
      AttachWrites(s, x, i, pos);
      inodes := inodes[x := SetBlock(inodes[x], i, blk)];
      owner := owner[blk := (x, i)];
      assert State() == Attach(s, x, i);
    }

    /** Read, modify, and write to a new block; s0 is the volume before place i was given a block. */
    method PutChunk(ghost s0: Fs, x: nat, i: nat, at: nat, d: seq<byte>, io: Faults) returns (r: Turn)
      requires Valid() && x < MAX_INODES && i < DIRECT && |inodes| == MAX_INODES && |inodes[x].blocks| == DIRECT
      requires inodes[x].blocks[i] != 0 && d != [] && at + |d| <= BLOCK_SIZE && at < BLOCK_SIZE
      requires FsOk(s0) && MaybeAttached(s0, State(), x, i)
      modifies this
      ensures Valid() && |inodes| == MAX_INODES && |inodes[x].blocks| == DIRECT
      ensures inodes[x].size == s0.inodes[x].size && |s0.inodes[x].blocks| == DIRECT
      ensures forall j | 0 <= j < DIRECT && j != i :: inodes[x].blocks[j] == s0.inodes[x].blocks[j]
      ensures r == Stored ==> WroteWith(s0, State(), x, BLOCK_SIZE * i + at, d, io.badReads)
      ensures r == Stored ==> s0.free > 0 && PutAt(s0, State(), x, i, at, |d|, io)
      ensures r != Stored ==> Stopped(s0, State(), x, BLOCK_SIZE * i + at, r, io)
    {
      hide Wrote, WroteWith, FsOk, Modified, AroundIs;
      InBlock(BLOCK_SIZE * i + at, i, at);
      ghost var s := State();
      BoundsOf(s0, x);
      BoundsOf(s, x);
      SinceAttached(s0, s, x, i, BLOCK_SIZE * i + at);
      var buf := Modified(dev, inodes[x].blocks[i], at, d, io);
      var blk := AllocBlock();
      if blk == 0 {
        return NoSpace;
      }
      if blk in io.badWrites {
        LostBlock(s0, s, x, BLOCK_SIZE * i + at);
        assert State() == AppendLog(s, s.dev[blk]);
        return Failed;
      }
      ChunkPut(s0, s, x, i, at, d, io);
      dev := dev[blk := buf];
      inodes := inodes[x := SetBlock(inodes[x], i, blk)];
      owner := owner[blk := (x, i)];
      assert State() == Replace(s, x, i, buf);
      return Stored;
    }

    /** aevosfs_write through inode x: the number of bytes written, or an error. `done` bytes are in the file. */
    method Write(x: nat, offset: nat, data: seq<byte>, io: Faults) returns (rc: int, ghost done: nat)
      requires Valid() && x < MAX_INODES
      modifies this
      ensures Valid()
      ensures done <= |data| && (rc >= 0 ==> rc == done)
      ensures rc < 0 ==> (rc == ENOSPC && done == 0) || (rc == EIO && done < |data| && logHead - 1 in io.badWrites)
      ensures WroteWith(old(State()), State(), x, offset, data[..done], io.badReads)
      ensures SameShape(old(State()), State(), x) && Logged(old(State()), State(), x, offset, done, io)
      ensures rc == |data| || (rc >= 0 && (offset + done) / BLOCK_SIZE >= DIRECT) ==>
                logHead == Min(old(logHead) + Cost(old(inodes[x]), offset, done), |dev|)
      ensures rc == EIO ==>
                && (offset + done) / BLOCK_SIZE < DIRECT
                && logHead == old(logHead) + Cost(old(inodes[x]), offset, done)
                              + if old(inodes[x]).blocks[(offset + done) / BLOCK_SIZE] == 0 then 2 else 1
      ensures rc == |data| ==> inodes[x].size == Max(old(inodes[x].size), offset + |data|)
      ensures rc != |data| ==> inodes[x].size == old(inodes[x].size)
      ensures rc != |data| && rc != EIO ==> (offset + done) / BLOCK_SIZE >= DIRECT || free == 0
    {
      hide FsOk, Wrote, WroteWith, Reached, OnlyInode, Logged, Booked, Cost, Stopped;
      ghost var s0, len := State(), |data|;
      StartsThere(s0, x, offset, len, io);
      var t := 0;
      assert data[..0] == [];
      while t < |data|
        invariant 0 <= t <= |data| && Valid() && Reached(s0, State(), x, offset, len, t) && SameShape(s0, State(), x)
        invariant WroteWith(s0, State(), x, offset, data[..t], io.badReads) && Booked(s0, State(), x, offset, t, io)
      {
        ghost var s1 := State();
        var r, chunk := WriteTurn(x, offset + t, data[t..], io);
        if r != Stored {
          BookedStops(s0, s1, State(), x, offset, len, t, r, io);
          NothingWritten(s0, s1, State(), x, offset, data[..t], offset + t, len, r, io);
          if r == Failed {
            return EIO, t;
          }
          if (offset + t) / BLOCK_SIZE >= DIRECT || t > 0 {
            return t, t;
          }
          return ENOSPC, 0;
        }
        SameId(s1, State(), x, offset + t, data[t..][..chunk], io.badReads);
        WroteTurn(s0, s1, State(), x, offset, data, t, chunk, io.badReads);
        BookedTurn(s0, s1, State(), x, offset, len, t, chunk, io);
        ReachesNext(s0, s1, State(), x, offset, len, t, chunk);
        t := t + chunk;
      }
      ghost var s2 := State();
      Finished(s0, s2, x, offset, len, t, io);
      assert data[..t] == data;
      if offset + t > inodes[x].size {
        inodes := inodes[x := inodes[x].(size := offset + t)];
      }
      SizeOnly(s2, State(), x, offset);
      LoggedSize(s0, s2, State(), x, offset, t, io);
      WroteThenNothing(s0, s2, State(), x, offset, data, io.badReads, offset);
      return t, t;
    }

    /** find_inode. */
    method FindSlot(id: nat) returns (r: Option<nat>)
      ensures r == FindInode(inodes, id, 0)
    {
      var i := 0;
      while i < |inodes|
        invariant 0 <= i <= |inodes| && FindInode(inodes, id, 0) == FindInode(inodes, id, i)
      {
        if inodes[i].id == id {
          return Some(i);
        }
        i := i + 1;
      }
      return None;
    }

    /** The scan of one directory block for a name. */
    method ScanBlock(b: Block, name: seq<byte>) returns (r: Option<nat>)
      ensures r == LookupBlock(b, name, 0)
    {
      hide SlotId, SlotName;
      var i := 0;
      while i < PER_BLOCK
        invariant 0 <= i <= PER_BLOCK && LookupBlock(b, name, 0) == LookupBlock(b, name, i)
      {
        if SlotId(b, i) != 0 && SlotName(b, i) == name {
          return Some(SlotId(b, i));
        }
        i := i + 1;
      }
      return None;
    }

    /** The scan of a directory's blocks for a name. */
    method ScanDirectory(x: nat, name: seq<byte>) returns (r: Option<nat>)
      requires x < |inodes| && OnDevice(dev, inodes[x])
      ensures r == LookupAt(State(), x, name)
    {
      hide LookupBlock;
      var bs := inodes[x].blocks;
      var k := 0;
      while k < |bs| && bs[k] != 0
        invariant 0 <= k <= |bs| && Lookup(dev, bs, name, 0) == Lookup(dev, bs, name, k)
      {
        var hit := ScanBlock(dev[bs[k]], name);
        if hit.Some? {
          return hit;
        }
        k := k + 1;
      }
      return None;
    }

    /** resolve_path_internal. */
    method ResolvePath(path: seq<byte>) returns (r: Option<nat>)
      requires Valid() && BlocksInDevice(State())
      ensures r == Resolve(State(), path)
    {
      hide FsOk, FindInode, Lookup, RunLen;
      InodesOnDevice(State());
      var cur := FindSlot(root);
      if cur.None? {
        return None;
      }
      var x: nat := cur.value;
      var p := path;
      while p != []
        invariant 0 <= x < |inodes|
        invariant Resolve(State(), path) == Walk(State(), x, Components(p))
        decreases |p|
      {
        if p[0] == SLASH {
          p := p[1..];
          continue;
        }
        var len := RunLen(p, NAME_MAX);
        var component := p[..len];
        ghost var comps := Components(p);
        assert comps[0] == component && comps[1..] == Components(p[len..]);
        p := p[len..];
        if inodes[x].kind != Dir {
          return None;
        }
        var id := ScanDirectory(x, component);
        if id.None? {
          return None;
        }
        var next := FindSlot(id.value);
        if next.None? {
          return None;
        }
        x := next.value;
      }
      return Some(x);
    }

    /** add_dir_entry: false is -ENOSPC. */
    method AddDirEntry(x: nat, name: seq<byte>, id: nat, kind: Kind) returns (ok: bool)
      requires Valid() && x < MAX_INODES && |name| <= NAME_MAX && OnDevice(dev, inodes[x])
      modifies this
      ensures match AddEntry(old(State()), x, name, id, kind) {
                case Some(s) => ok && State() == s
                case None => !ok && State() == old(State())
              }
    {
      hide FsOk, SetSlot;
      BoundsOf(State(), x);
      var bs := inodes[x].blocks;
      var place := FindFreePlace(bs);
      if place.Place? {
        dev := dev[bs[place.k] := SetSlot(dev[bs[place.k]], place.i, id, name, kind)];
        return true;
      }
      var k := EmptyPlace(bs, 0);
      if k == |bs| {
        return false;
      }
      var blk := AllocBlock();
      if blk == 0 {
        return false;
      }
      dev := dev[blk := SetSlot(ZeroBlock(), 0, id, name, kind)];
      inodes := inodes[x := SetBlock(inodes[x], k, blk)];
      owner := owner[blk := (x, k)];
      return true;
    }

    /** The search of a directory's blocks for a free slot. */
    method FindFreePlace(bs: seq<nat>) returns (p: FsSlots.Place)
      requires forall i | 0 <= i < |bs| :: bs[i] < |dev|
      ensures p == FreePlace(dev, bs, 0)
    {
      hide SlotId;
      var k := 0;
      while k < |bs| && bs[k] != 0
        invariant 0 <= k <= |bs| && FreePlace(dev, bs, 0) == FreePlace(dev, bs, k)
      {
        var i := FreeSlot(dev[bs[k]], 0);
        if i < PER_BLOCK {
          return Place(k, i);
        }
        k := k + 1;
      }
      return Nowhere;
    }

    /** aevosfs_create. */
    method CreatePath(path: seq<byte>, kind: Kind) returns (rc: int)
      requires Valid()
      modifies this
      ensures Valid()
      ensures rc == Create(old(State()), path, kind).rc && State() == Create(old(State()), path, kind).s
    {
      hide FsOk, CreateIn, Resolve, NameOf;
      CreateKeepsOk(State(), path, kind);
      InodesOnDevice(State());
      if path == [] || path[0] != SLASH {
        return EINVAL;
      }
      var cut := Take(path, PATH_MAX);
      var slash := LastSlash(cut, |cut|);
      if slash.None? {
        return EINVAL;
      }
      var parent := ResolvePath(ParentOf(path, slash.value));
      if parent.None? {
        return ENOENT;
      }
      ResolvedHasId(State(), ParentOf(path, slash.value));
      if inodes[parent.value].kind != Dir {
        return ENOENT;
      }
      rc := CreateUnder(parent.value, NameOf(path, slash.value), kind);
    }

    method CreateUnder(x: nat, name: seq<byte>, kind: Kind) returns (rc: int)
      requires Valid() && x < MAX_INODES && x < |inodes| && inodes[x].id != 0 && |name| <= NAME_MAX
      modifies this
      ensures rc == CreateIn(old(State()), x, name, kind).rc && State() == CreateIn(old(State()), x, name, kind).s
    {
      hide FsOk, AddEntry;
      ghost var s := State();
      BoundsOf(s, x);
      var z := FindSlot(0);
      if z.None? {
        return ENOMEM;
      }
      NewInodeKeepsOk(s, z.value, kind);
      var id := nextId;
      inodes := inodes[z.value := Inode(id, kind, 0, NoBlocks())];
      nextId := nextId + 1;
      BoundsOf(State(), x);
      var ok := AddDirEntry(x, name, id, kind);
      if !ok {
        inodes := inodes[z.value := inodes[z.value].(id := 0)];
        return ENOSPC;
      }
      return 0;
    }

    /** One turn of the loop of aevosfs_read: a piece of one block, or nothing there, or a failed transfer. */
    method ReadTurn(n: Inode, p: nat, end: nat, io: Faults) returns (ok: bool, failed: bool, piece: seq<byte>)
      requires OnDevice(dev, n) && |n.blocks| == DIRECT && p < end
      ensures failed <==> Avail(n, p) && !Readable(n, p / BLOCK_SIZE, io)
      ensures failed ==> ReadFrom(dev, n, p, end) != []
      ensures !failed && ok ==>
                && 1 <= |piece| <= end - p
                && ReadFrom(dev, n, p, end) == piece + ReadFrom(dev, n, p + |piece|, end)
                && (p + |piece| - 1) / BLOCK_SIZE == p / BLOCK_SIZE
      ensures !failed && !ok ==> ReadFrom(dev, n, p, end) == []
    {
      hide ReadFrom;
      var i, at := p / BLOCK_SIZE, p % BLOCK_SIZE;
      ok, failed, piece := false, false, [];
      if i >= DIRECT || n.blocks[i] == 0 {
        NothingThere(dev, n, p, end);
        return;
      }
      AvailIs(n, p);
      var chunk := Min(BLOCK_SIZE - at, end - p);
      ReadInBlock(dev, n, p, chunk, end);
      if n.blocks[i] in io.badReads {
        failed := true;
        return;
      }
      ok, piece := true, dev[n.blocks[i]][at..at + chunk];
      InBlock(p + chunk - 1, i, at + chunk - 1);
    }

    /** aevosfs_read; None is -EIO. */
    method Read(n: Inode, offset: nat, size: nat, io: Faults) returns (out: Option<seq<byte>>)
      requires OnDevice(dev, n) && |n.blocks| == DIRECT
      ensures var r := if offset >= n.size then [] else ReadFrom(dev, n, offset, Min(offset + size, n.size));
              out == if CanRead(n, offset, |r|, io) then Some(r) else None
    {
      hide ReadFrom, Readable, CanRead;
      EmptyIsReadable(n, offset, io);
      if offset >= n.size {
        return Some([]);
      }
      var end := offset + if size > n.size - offset then n.size - offset else size;
      ghost var whole := ReadFrom(dev, n, offset, end);
      var p := offset;
      var buf: seq<byte> := [];
      while p < end
        invariant offset <= p <= end && p == offset + |buf|
        invariant buf + ReadFrom(dev, n, p, end) == whole
        invariant CanRead(n, offset, p - offset, io)
        decreases end - p
      {
        var ok, failed, piece := ReadTurn(n, p, end, io);
        if failed {
          UnreadablePiece(n, offset, p, |whole|, io);
          return None;
        }
        if !ok {
          assert buf == whole;
          return Some(buf);
        }
        ReadablePiece(n, offset, p, |piece|, io);
        assert buf + (piece + ReadFrom(dev, n, p + |piece|, end)) == (buf + piece) + ReadFrom(dev, n, p + |piece|, end);
        buf := buf + piece;
        p := p + |piece|;
      }
      NothingThere(dev, n, p, end);
      assert buf == whole;
      return Some(buf);
    }
  }

  lemma FreshIsOk(s: Fs)
    requires |s.dev| == s.total == s.logHead + s.free == 65536 && 2 <= s.logHead && s.root == 1 && s.nextId == 2
    requires |s.inodes| == MAX_INODES && s.inodes[0] == Inode(1, Dir, 0, s.inodes[0].blocks)
    requires forall y | 0 < y < MAX_INODES :: s.inodes[y] == Inode(0, File, 0, NoBlocks())
    requires || (s.inodes[0].blocks == NoBlocks() && s.owner == map[])
             || (s.inodes[0].blocks == NoBlocks()[0 := 1] && s.owner == map[1 := (0, 0)] && s.dev[1] == ZeroBlock())
    ensures FsOk(s) && TidyFs(s) && OnDevice(s.dev, s.inodes[0]) && Resolve(s, [SLASH]) == Some(0)
    ensures forall nm :: LookupAt(s, 0, nm).None?
  {
    hide Lookup;
    forall y: nat | y < MAX_INODES ensures InodeOk(s, y) { }
    forall y: nat, z: nat | y < MAX_INODES && z < MAX_INODES ensures OneId(s, y, z) { }
    InodesOnDevice(s);
    NoComponents();
    forall nm ensures LookupAt(s, 0, nm).None? { EmptyRoot(s.dev, s.inodes[0].blocks, nm); }
    ZeroBlockIsFree();
    EmptyIsTidy(s.dev, s.inodes[0].blocks);
  }

  lemma EmptyRoot(dev: seq<Block>, blocks: seq<nat>, nm: seq<byte>)
    requires |dev| > 1 && (blocks == NoBlocks() || (blocks == NoBlocks()[0 := 1] && dev[1] == ZeroBlock()))
    ensures Lookup(dev, blocks, nm, 0) == None
  {
    hide LookupBlock;
    if blocks != NoBlocks() {
      ZeroBlockIsFree();
      NothingFrom(ZeroBlock(), nm, 0);
      assert blocks[0] == 1 && blocks[1] == 0;
      assert Lookup(dev, blocks, nm, 1) == None;
    }
  }

  lemma ModifiedIs(dev: seq<Block>, b: nat, at: nat, d: seq<byte>, io: Faults)
    requires b < |dev| && at + |d| <= BLOCK_SIZE
    ensures Modified(dev, b, at, d, io)[at..at + |d|] == d
    ensures AroundIs(dev[b], Modified(dev, b, at, d, io), at, |d|, b in io.badReads)
  {
    var buf := Modified(dev, b, at, d, io);
    assert buf[at..at + |d|] == d;
    forall r | 0 <= r < BLOCK_SIZE && !(at <= r < at + |d|)
      ensures buf[r] == if b in io.badReads then 0 else dev[b][r]
    {
    }
  }

  /** The block of a chunk is at the log head. */
  lemma ChunkPut(s0: Fs, s: Fs, x: nat, i: nat, at: nat, d: seq<byte>, io: Faults)
    requires FsOk(s0) && FsOk(s) && x < MAX_INODES && i < DIRECT && MaybeAttached(s0, s, x, i) && s.free > 0
    requires InodeOk(s0, x) && InodeOk(s, x) && s.inodes[x].blocks[i] != 0 && d != [] && at + |d| <= BLOCK_SIZE
    requires s.logHead !in io.badWrites
    ensures s.inodes[x].blocks[i] < |s.dev|
    ensures var s' := Replace(s, x, i, Modified(s.dev, s.inodes[x].blocks[i], at, d, io));
            && FsOk(s') && WroteWith(s0, s', x, BLOCK_SIZE * i + at, d, io.badReads)
            && SameShape(s0, s', x) && PutAt(s0, s', x, i, at, |d|, io)
  {
    hide Modified, AroundIs, WroteWith;
    var buf := Modified(s.dev, s.inodes[x].blocks[i], at, d, io);
    ModifiedIs(s.dev, s.inodes[x].blocks[i], at, d, io);
    ReplaceWrites(s0, s, x, i, buf, at, d, io.badReads);
    ReplacedInode(s0, s, x, i, buf);
  }

  lemma SinceAttached(s0: Fs, s: Fs, x: nat, i: nat, off: nat)
    requires FsOk(s0) && FsOk(s) && x < MAX_INODES && i < DIRECT && MaybeAttached(s0, s, x, i)
    ensures Wrote(s0, s, x, off, []) && InodeOk(s0, x) && InodeOk(s, x)
    ensures s.inodes[x].size == s0.inodes[x].size && s.dev == s0.dev
    ensures s0.inodes[x].blocks[i] != 0 ==> s == s0
    ensures forall j | 0 <= j < DIRECT && j != i :: s.inodes[x].blocks[j] == s0.inodes[x].blocks[j]
  {
    assert InodeOk(s0, x) && InodeOk(s, x);
    if s == s0 { WroteNothing(s0, x, off); } else { AttachWrites(s0, x, i, off); }
  }

  /** A block whose transfer failed is used up and changes no file. */
  lemma LostBlock(s0: Fs, s: Fs, x: nat, off: nat)
    requires FsOk(s0) && FsOk(s) && x < MAX_INODES && Wrote(s0, s, x, off, []) && s.free > 0
    ensures s.logHead < |s.dev| && FsOk(AppendLog(s, s.dev[s.logHead]))
    ensures Wrote(s0, AppendLog(s, s.dev[s.logHead]), x, off, [])
  {
    hide Wrote;
    AppendLogWrites(s, x, s.dev[s.logHead], off);
    var none: seq<byte> := [];
    assert none + none == none;
    WroteMore(s0, s, AppendLog(s, s.dev[s.logHead]), x, off, [], []);
  }

  /** A chunk and its log entry. */
  lemma TurnIsBooked(s0: Fs, s1: Fs, s2: Fs, x: nat, pos: nat, len: nat, io: Faults)
    requires FsOk(s0) && FsOk(s1) && FsOk(s2) && SameShape(s0, s1, x) && SameShape(s1, s2, x)
    requires pos / BLOCK_SIZE < DIRECT && 0 < len <= BLOCK_SIZE - pos % BLOCK_SIZE
    requires s1.inodes == s2.inodes && s1.inodes[x].id == s0.inodes[x].id
    requires PutAt(s0, s1, x, pos / BLOCK_SIZE, pos % BLOCK_SIZE, len, io)
    requires s1.free == 0 ==> s2 == s1
    requires s1.free > 0 ==>
               && s2.logHead == s1.logHead + 1 <= |s2.dev| == |s1.dev|
               && (forall b | 0 <= b < |s2.dev| && b != s1.logHead :: s2.dev[b] == s1.dev[b])
               && (s1.logHead in io.badWrites
                   || Records(s2.dev[s1.logHead], s1.inodes[x].id, pos, len, s1.inodes[x].blocks[pos / BLOCK_SIZE]))
    ensures Booked(s0, s2, x, pos, len, io)
  {
    hide Records, AroundIs, Cost, Overlaps;
    var i, at := pos / BLOCK_SIZE, pos % BLOCK_SIZE;
    HeadBounds(s0);
    HeadBounds(s1);
    HeadBounds(s2);
    CostOfChunk(s0.inodes[x], pos, len);
    forall j: nat ensures LoggedAt(s0, s2, x, pos, len, io, j) { OnlyBlock(j, i, at, len); }
  }

  lemma NothingWritten(s0: Fs, s1: Fs, s2: Fs, x: nat, offset: nat, d: seq<byte>, pos: nat, len: nat, r: Turn,
      io: Faults)
    requires FsOk(s0) && FsOk(s1) && FsOk(s2) && Reached(s0, s1, x, offset, len, |d|) && SameShape(s1, s2, x)
    requires WroteWith(s0, s1, x, offset, d, io.badReads) && Stopped(s1, s2, x, pos, r, io)
    requires s2.inodes[x].size == s1.inodes[x].size
    ensures WroteWith(s0, s2, x, offset, d, io.badReads) && SameShape(s0, s2, x)
    ensures s2.inodes[x].size == s0.inodes[x].size
  {
    hide FsOk, Wrote, WroteWith;
    WroteThenNothing(s0, s1, s2, x, offset, d, io.badReads, pos);
  }

  lemma Finished(s0: Fs, s: Fs, x: nat, offset: nat, len: nat, t: nat, io: Faults)
    requires Reached(s0, s, x, offset, len, t) && Booked(s0, s, x, offset, t, io)
    ensures SameShape(s0, s, x) && s.inodes[x].size == s0.inodes[x].size && Logged(s0, s, x, offset, t, io)
    ensures s.logHead == Min(s0.logHead + Cost(s0.inodes[x], offset, t), |s.dev|)
  {
  }

  lemma HeadBounds(s: Fs)
    requires FsOk(s)
    ensures s.logHead + s.free == |s.dev|
  {
  }

  lemma StartsThere(s: Fs, x: nat, offset: nat, len: nat, io: Faults)
    requires FsOk(s) && x < MAX_INODES
    ensures Reached(s, s, x, offset, len, 0) && WroteWith(s, s, x, offset, [], io.badReads)
    ensures SameShape(s, s, x) && Booked(s, s, x, offset, 0, io)
  {
    hide WroteWith, Logged, Cost;
    WroteNothingWith(s, x, offset, io.badReads);
    BoundsOf(s, x);
    NothingLogged(s, x, offset, io);
    CostOfNothing(s.inodes[x], offset);
  }

  lemma BookedStops(s0: Fs, s1: Fs, s2: Fs, x: nat, offset: nat, len: nat, t: nat, r: Turn, io: Faults)
    requires FsOk(s0) && FsOk(s1) && FsOk(s2) && Reached(s0, s1, x, offset, len, t) && t < len
    requires Booked(s0, s1, x, offset, t, io)
    requires SameShape(s1, s2, x) && Stopped(s1, s2, x, offset + t, r, io) && r != Stored
    requires forall j | 0 <= j < DIRECT && j != (offset + t) / BLOCK_SIZE ::
               s2.inodes[x].blocks[j] == s1.inodes[x].blocks[j]
    ensures SameShape(s0, s2, x) && Logged(s0, s2, x, offset, t, io)
    ensures r == NoSpace ==>
              if (offset + t) / BLOCK_SIZE >= DIRECT
              then s2.logHead == Min(s0.logHead + Cost(s0.inodes[x], offset, t), |s2.dev|) else s2.free == 0
    ensures r == Failed ==>
              && (offset + t) / BLOCK_SIZE < DIRECT && s2.logHead - 1 in io.badWrites
              && s2.logHead == s0.logHead + Cost(s0.inodes[x], offset, t)
                               + if s0.inodes[x].blocks[(offset + t) / BLOCK_SIZE] == 0 then 2 else 1
  {
    hide Logged, Cost, Wrote;
    StopHead(s0, s1, s2, x, offset, t, r, io);
    hide FsOk;
    LoggedStays(s0, s1, s2, x, offset, t, offset + t, io);
  }

  /** A head that has not reached the end has not been cut there. */
  lemma StopHead(s0: Fs, s1: Fs, s2: Fs, x: nat, offset: nat, t: nat, r: Turn, io: Faults)
    requires FsOk(s0) && FsOk(s1) && FsOk(s2) && SameShape(s0, s1, x) && SameShape(s1, s2, x)
    requires Stopped(s1, s2, x, offset + t, r, io) && SameFrom(s1.inodes[x], s0.inodes[x], (offset + t) / BLOCK_SIZE)
    requires s1.logHead == Min(s0.logHead + Cost(s0.inodes[x], offset, t), |s1.dev|)
    ensures r == Failed ==>
              && (offset + t) / BLOCK_SIZE < DIRECT
              && s2.logHead == s0.logHead + Cost(s0.inodes[x], offset, t)
                               + if s0.inodes[x].blocks[(offset + t) / BLOCK_SIZE] == 0 then 2 else 1
  {
    hide Cost;
  }

  /** What is logged stays logged when nothing more is written. */
  lemma LoggedStays(s0: Fs, s1: Fs, s2: Fs, x: nat, offset: nat, t: nat, pos: nat, io: Faults)
    requires FsOk(s1) && FsOk(s2) && SameShape(s0, s1, x) && SameShape(s1, s2, x) && Wrote(s1, s2, x, pos, [])
    requires Logged(s0, s1, x, offset, t, io) && (t == 0 || (offset + t) % BLOCK_SIZE == 0) && pos == offset + t
    requires forall j | 0 <= j < DIRECT && j != pos / BLOCK_SIZE :: s2.inodes[x].blocks[j] == s1.inodes[x].blocks[j]
    ensures Logged(s0, s2, x, offset, t, io)
  {
    hide Records, FilledFrom, Patched, Overlaps;
    forall j: nat ensures LoggedAt(s0, s2, x, offset, t, io, j) {
      assert LoggedAt(s0, s1, x, offset, t, io, j);
      OverlapsApart(j, offset, t, 0);
    }
  }

  lemma LoggedSize(s0: Fs, s1: Fs, s2: Fs, x: nat, offset: nat, t: nat, io: Faults)
    requires SameShape(s0, s1, x) && Logged(s0, s1, x, offset, t, io) && |s2.inodes| == |s1.inodes|
    requires s2 == s1.(inodes := s1.inodes[x := s1.inodes[x].(size := s2.inodes[x].size)])
    ensures SameShape(s0, s2, x) && Logged(s0, s2, x, offset, t, io)
  {
    hide Records, FilledFrom, Overlaps;
    forall j: nat ensures LoggedAt(s0, s2, x, offset, t, io, j) { assert LoggedAt(s0, s1, x, offset, t, io, j); }
  }

  lemma ReachesNext(s0: Fs, s1: Fs, s2: Fs, x: nat, offset: nat, len: nat, t: nat, chunk: nat)
    requires Reached(s0, s1, x, offset, len, t) && t < len && SameShape(s1, s2, x)
    requires chunk == Min(BLOCK_SIZE - (offset + t) % BLOCK_SIZE, len - t)
    requires s2.inodes[x].size == s1.inodes[x].size && s2.inodes[x].id == s1.inodes[x].id
    requires forall j | 0 <= j < DIRECT && j != (offset + t) / BLOCK_SIZE ::
               s2.inodes[x].blocks[j] == s1.inodes[x].blocks[j]
    ensures Reached(s0, s2, x, offset, len, t + chunk)
  {
    NextBlock(offset + t, chunk);
  }

  lemma BookedTurn(s0: Fs, s1: Fs, s2: Fs, x: nat, offset: nat, len: nat, t: nat, chunk: nat, io: Faults)
    requires FsOk(s0) && FsOk(s1) && FsOk(s2) && Reached(s0, s1, x, offset, len, t) && t < len
    requires SameShape(s1, s2, x) && s1.free > 0
    requires forall j | 0 <= j < DIRECT && j != (offset + t) / BLOCK_SIZE ::
               s2.inodes[x].blocks[j] == s1.inodes[x].blocks[j]
    requires Booked(s0, s1, x, offset, t, io) && Booked(s1, s2, x, offset + t, chunk, io)
    ensures Booked(s0, s2, x, offset, t + chunk, io)
  {
    HeadBounds(s1);
    hide FsOk, Logged, Cost;
    LoggedMore(s0, s1, s2, x, offset, t, chunk, io);
    CostAdds(s0.inodes[x], s1.inodes[x], offset, t, chunk);
  }

  lemma WroteTurn(s0: Fs, s1: Fs, s2: Fs, x: nat, offset: nat, data: seq<byte>, t: nat, chunk: nat, bad: set<nat>)
    requires FsOk(s0) && FsOk(s1) && FsOk(s2) && Reached(s0, s1, x, offset, |data|, t)
    requires t + chunk <= |data| && t < |data|
    requires WroteWith(s0, s1, x, offset, data[..t], bad) && WroteWith(s1, s2, x, offset + t, data[t..][..chunk], bad)
    ensures WroteWith(s0, s2, x, offset, data[..t + chunk], bad)
  {
    hide FsOk, WroteWith;
    assert t == 0 ==> data[..t] == [];
    WroteMoreWith(s0, s1, s2, x, offset, data[..t], data[t..][..chunk], bad);
    assert data[..t] + data[t..][..chunk] == data[..t + chunk];
  }

  lemma SameId(s: Fs, s': Fs, x: nat, off: nat, d: seq<byte>, bad: set<nat>)
    requires FsOk(s) && FsOk(s') && WroteWith(s, s', x, off, d, bad)
    ensures x < |s.inodes| == |s'.inodes| && s'.inodes[x].id == s.inodes[x].id
  {
  }

  lemma NextBlock(p: nat, chunk: nat)
    requires chunk <= BLOCK_SIZE - p % BLOCK_SIZE
    ensures p / BLOCK_SIZE <= (p + chunk) / BLOCK_SIZE
    ensures chunk == BLOCK_SIZE - p % BLOCK_SIZE ==>
              (p + chunk) % BLOCK_SIZE == 0 && (p + chunk) / BLOCK_SIZE == p / BLOCK_SIZE + 1
  {
    if chunk == BLOCK_SIZE - p % BLOCK_SIZE { InBlock(p + chunk, p / BLOCK_SIZE + 1, 0); }
  }

  /** The size is no part of what a write does to bytes. */
  lemma SizeOnly(s: Fs, s': Fs, x: nat, off: nat)
    requires FsOk(s) && x < |s.inodes| == |s'.inodes|
    requires s' == s.(inodes := s.inodes[x := s.inodes[x].(size := s'.inodes[x].size)])
    ensures FsOk(s') && Wrote(s, s', x, off, [])
  {
    forall y: nat | y < MAX_INODES ensures InodeOk(s', y) { assert InodeOk(s, y); }
    forall y: nat, z: nat | y < MAX_INODES && z < MAX_INODES ensures OneId(s', y, z) { assert OneId(s, y, z); }
    assert InodeOk(s, x) && InodeOk(s', x);
    var n, n' := s.inodes[x], s'.inodes[x];
    forall p: nat | Avail(n, p) ensures Avail(n', p) && ByteAt(s'.dev, n', p) == ByteAt(s.dev, n, p) {
    }
  }

  lemma NothingThere(dev: seq<Block>, n: Inode, p: nat, end: nat)
    requires OnDevice(dev, n)
    ensures p >= end || p / BLOCK_SIZE >= |n.blocks| || n.blocks[p / BLOCK_SIZE] == 0 ==> ReadFrom(dev, n, p, end) == []
  {
  }

  lemma EmptyIsReadable(n: Inode, p: nat, io: Faults)
    ensures CanRead(n, p, 0, io)
  {
  }

  lemma UnreadablePiece(n: Inode, offset: nat, p: nat, len: nat, io: Faults)
    requires offset <= p < offset + len && !Readable(n, p / BLOCK_SIZE, io)
    ensures !CanRead(n, offset, len, io)
  {
  }

  lemma ReadablePiece(n: Inode, offset: nat, p: nat, len: nat, io: Faults)
    requires offset <= p && CanRead(n, offset, p - offset, io) && Readable(n, p / BLOCK_SIZE, io)
    requires len > 0 && (p + len - 1) / BLOCK_SIZE == p / BLOCK_SIZE
    ensures CanRead(n, offset, p + len - offset, io)
  {
    forall q: nat | p <= q < p + len ensures q / BLOCK_SIZE == p / BLOCK_SIZE { }
  }

  lemma AvailIs(n: Inode, p: nat)
    requires p / BLOCK_SIZE < |n.blocks| && n.blocks[p / BLOCK_SIZE] != 0
    ensures Avail(n, p)
  {
  }
}
