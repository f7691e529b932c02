/** Creating a file or directory: the directory entry that is added, and what every path resolves to afterwards. */
module FsCreate {
  import opened Bytes
  import opened Counting
  import opened Errno
  import opened FsSpec
  import opened FsDir
  import opened FsSlots

  const PATH_MAX: nat := 511

  /** add_dir_entry to directory x; None is -ENOSPC. */
  function AddEntry(s: Fs, x: nat, name: seq<byte>, id: nat, kind: Kind): Option<Fs>
    requires x < |s.inodes| && OnDevice(s.dev, s.inodes[x]) && |name| <= NAME_MAX && s.logHead + s.free == |s.dev|
  {
    var bs := s.inodes[x].blocks;
    match FreePlace(s.dev, bs, 0) {
      case Place(k, i) => Some(s.(dev := s.dev[bs[k] := SetSlot(s.dev[bs[k]], i, id, name, kind)]))
      case Nowhere =>
        var k := EmptyPlace(bs, 0);
        if k == |bs| || s.free == 0 then None
        else Some(Replace(s, x, k, SetSlot(ZeroBlock(), 0, id, name, kind)))
    }
  }

  // ----- The effect of adding an entry.

  function LookupAt(s: Fs, y: nat, nm: seq<byte>): (id: Option<nat>)
    requires y < |s.inodes| && OnDevice(s.dev, s.inodes[y])
    ensures id.Some? ==> id.value != 0
  {
    Lookup(s.dev, s.inodes[y].blocks, nm, 0)
  }

  lemma InodesOnDevice(s: Fs)
    requires FsOk(s)
    ensures BlocksInDevice(s) && forall y: nat | y < |s.inodes| :: OnDevice(s.dev, s.inodes[y])
  {
    forall y: nat | y < |s.inodes| ensures OnDevice(s.dev, s.inodes[y]) { assert InodeOk(s, y); }
    forall y, i | 0 <= y < |s.inodes| && 0 <= i < |s.inodes[y].blocks| ensures s.inodes[y].blocks[i] < |s.dev| {
      assert InodeOk(s, y);
    }
  }

  /** Two places never share a block. */
  lemma OnlyPlace(s: Fs, x: nat, i: nat, y: nat, j: nat)
    requires FsOk(s) && x < MAX_INODES && y < MAX_INODES && i < DIRECT && j < DIRECT
    ensures InodeOk(s, x) && InodeOk(s, y)
    ensures s.inodes[x].blocks[i] == s.inodes[y].blocks[j] != 0 ==> x == y && i == j
  {
    assert InodeOk(s, x) && InodeOk(s, y);
  }

  /** Slots keep their identity, and the bytes of every inode but x are untouched. */
  ghost predicate OnlyDirectory(s: Fs, s': Fs, x: nat) {
    && |s.inodes| == |s'.inodes| == MAX_INODES && x < MAX_INODES && |s.dev| == |s'.dev|
    && s'.root == s.root && s'.total == s.total && s.logHead <= s'.logHead
    && (forall y | 0 <= y < MAX_INODES && y != x :: s'.inodes[y] == s.inodes[y])
    && s'.inodes[x].id == s.inodes[x].id && s'.inodes[x].kind == s.inodes[x].kind
    && s'.inodes[x].size == s.inodes[x].size
    && (forall b | b in s.owner :: b in s'.owner && s'.owner[b] == s.owner[b])
    && (forall b | b in s'.owner :: b in s.owner || s.logHead <= b)
    && (forall b | b in s.owner && b < |s.dev| && s.owner[b].0 != x :: s'.dev[b] == s.dev[b])
  }

  lemma FillIsLocal(s: Fs, x: nat, k: nat, b': Block)
    requires FsOk(s) && x < MAX_INODES && k < DIRECT && InodeOk(s, x) && s.inodes[x].blocks[k] != 0
    ensures s.inodes[x].blocks[k] < |s.dev|
    ensures var s' := s.(dev := s.dev[s.inodes[x].blocks[k] := b']);
            FsOk(s') && OnlyDirectory(s, s', x)
  {
    DeviceOnly(s, s.dev[s.inodes[x].blocks[k] := b']);
  }

  lemma NewBlockIsLocal(s: Fs, x: nat, k: nat, b': Block)
    requires FsOk(s) && x < MAX_INODES && k < DIRECT && s.free > 0
    ensures InodeOk(s, x) && FsOk(Replace(s, x, k, b')) && OnlyDirectory(s, Replace(s, x, k, b'), x)
    ensures Replace(s, x, k, b').nextId == s.nextId
  {
    ReplaceKeepsOk(s, x, k, b');
  }

  lemma AddEntryIsLocal(s: Fs, x: nat, name: seq<byte>, id: nat, kind: Kind)
    requires FsOk(s) && x < MAX_INODES && |name| <= NAME_MAX && OnDevice(s.dev, s.inodes[x])
    ensures var r := AddEntry(s, x, name, id, kind);
            r.Some? ==> FsOk(r.value) && OnlyDirectory(s, r.value, x) && r.value.nextId == s.nextId
  {
    hide SetSlot, FsOk, OnlyDirectory, Replace;
    BoundsOf(s, x);
    var bs := s.inodes[x].blocks;
    match FreePlace(s.dev, bs, 0) {
      case Place(k, i) =>
        FillIsLocal(s, x, k, SetSlot(s.dev[bs[k]], i, id, name, kind));
      case Nowhere =>
        var k := EmptyPlace(bs, 0);
        if k < |bs| && s.free > 0 {
          NewBlockIsLocal(s, x, k, SetSlot(ZeroBlock(), 0, id, name, kind));
        }
    }
  }

  lemma BoundsOf(s: Fs, x: nat)
    requires FsOk(s) && x < MAX_INODES
    ensures |s.inodes| == MAX_INODES && InodeOk(s, x) && |s.inodes[x].blocks| == DIRECT
    ensures s.logHead + s.free == |s.dev| && 2 <= s.logHead && OnDevice(s.dev, s.inodes[x])
    ensures forall i | 0 <= i < DIRECT :: s.inodes[x].blocks[i] < s.logHead
  {
    assert InodeOk(s, x);
  }

  ghost predicate TidyAt(s: Fs, x: nat)
    requires x < |s.inodes| && OnDevice(s.dev, s.inodes[x])
  {
    Tidy(s.dev, s.inodes[x].blocks)
  }

  /** A tidy directory stays tidy, and a lookup finds the new name if it was absent and else what it found before. */
  lemma AddEntryExactly(s: Fs, s': Fs, x: nat, name: seq<byte>, id: nat, kind: Kind, nm: seq<byte>)
    requires FsOk(s) && FsOk(s') && x < MAX_INODES && |name| <= NAME_MAX && CString(name) && 0 < id < U64
    requires OnDevice(s.dev, s.inodes[x]) && AddEntry(s, x, name, id, kind) == Some(s') && TidyAt(s, x)
    ensures x < |s'.inodes| && OnDevice(s'.dev, s'.inodes[x]) && TidyAt(s', x)
    ensures LookupAt(s', x, nm) == Added(LookupAt(s, x, nm), nm == name, id)
  {
    hide SetSlot, FsOk, SlotId, Lookup;
    BoundsOf(s, x);
    BoundsOf(s', x);
    var bs := s.inodes[x].blocks;
    match FreePlace(s.dev, bs, 0) {
      case Place(k, i) =>
        forall j | 0 <= j < |bs| && j != k ensures bs[j] != bs[k] { OnlyPlace(s, x, j, x, k); }
        FillShowsIn(s.dev, bs, k, i, id, name, kind, nm, 0);
        FillKeepsTidy(s.dev, bs, k, i, id, name, kind);
      case Nowhere =>
        var k := EmptyPlace(bs, 0);
        NewBlockShows(s.dev, bs, k, s.logHead, id, name, kind, nm, 0);
        NewBlockKeepsTidy(s.dev, bs, k, s.logHead, id, name, kind);
    }
  }

  /** In any directory, tidy or not, an absent name is found afterwards and old entries stay visible. */
  lemma AbsentShows(s: Fs, s': Fs, x: nat, name: seq<byte>, id: nat, kind: Kind, nm: seq<byte>)
    requires FsOk(s) && FsOk(s') && x < MAX_INODES && |name| <= NAME_MAX && CString(name) && 0 < id < U64
    requires OnDevice(s.dev, s.inodes[x]) && AddEntry(s, x, name, id, kind) == Some(s')
    requires LookupAt(s, x, name).None?
    ensures x < |s'.inodes| && OnDevice(s'.dev, s'.inodes[x])
    ensures LookupAt(s', x, name) == Some(id)
    ensures LookupAt(s, x, nm).Some? ==> LookupAt(s', x, nm) == LookupAt(s, x, nm)
  {
    hide SetSlot, FsOk, SlotId;
    BoundsOf(s, x);
    BoundsOf(s', x);
    var bs := s.inodes[x].blocks;
    match FreePlace(s.dev, bs, 0) {
      case Place(k, i) =>
        forall j | 0 <= j < |bs| && j != k ensures bs[j] != bs[k] { OnlyPlace(s, x, j, x, k); }
        LookupAfterFill(s.dev, bs, k, i, id, name, kind, name, 0);
        LookupAfterFill(s.dev, bs, k, i, id, name, kind, nm, 0);
      case Nowhere =>
        var k := EmptyPlace(bs, 0);
        LookupAfterNewBlock(s.dev, bs, k, s.logHead, id, name, kind, name, 0);
        LookupAfterNewBlock(s.dev, bs, k, s.logHead, id, name, kind, nm, 0);
    }
  }

  /** The name is absent, or the directory is tidy: adding the name hides no entry. */
  ghost predicate HidesNothing(s: Fs, x: nat, name: seq<byte>)
    requires x < |s.inodes| && OnDevice(s.dev, s.inodes[x])
  {
    LookupAt(s, x, name).None? || TidyAt(s, x)
  }

  /** The directory itself: old entries stay visible, and the new name is found unless it was there. */
  lemma AddEntryShows(s: Fs, s': Fs, x: nat, name: seq<byte>, id: nat, kind: Kind, nm: seq<byte>)
    requires FsOk(s) && FsOk(s') && x < MAX_INODES && |name| <= NAME_MAX && CString(name) && 0 < id < U64
    requires OnDevice(s.dev, s.inodes[x]) && AddEntry(s, x, name, id, kind) == Some(s')
    requires HidesNothing(s, x, name)
    ensures x < |s'.inodes| && OnDevice(s'.dev, s'.inodes[x])
    ensures LookupAt(s', x, name) == Added(LookupAt(s, x, name), true, id)
    ensures LookupAt(s, x, nm).Some? ==> LookupAt(s', x, nm) == LookupAt(s, x, nm)
  {
    hide FsOk, Lookup, AddEntry, Tidy;
    BoundsOf(s, x);
    if TidyAt(s, x) {
      AddEntryExactly(s, s', x, name, id, kind, name);
      AddEntryExactly(s, s', x, name, id, kind, nm);
    } else {
      AbsentShows(s, s', x, name, id, kind, nm);
    }
  }

  /** Every other directory: the same entries. */
  lemma OtherDirectoriesSame(s: Fs, s': Fs, x: nat, y: nat, nm: seq<byte>)
    requires FsOk(s) && FsOk(s') && OnlyDirectory(s, s', x) && y < MAX_INODES && y != x
    ensures OnDevice(s.dev, s.inodes[y]) && OnDevice(s'.dev, s'.inodes[y])
    ensures LookupAt(s', y, nm) == LookupAt(s, y, nm)
    ensures Contents(s', y) == Contents(s, y)
  {
    hide Lookup, ReadFrom, FsOk;
    BoundsOf(s, y);
    BoundsOf(s', y);
    LookupSame(s.dev, s'.dev, s.inodes[y].blocks, nm, 0);
    ReadSameBlocks(s.dev, s'.dev, s.inodes[y], 0, s.inodes[y].size);
  }

  // ----- aevosfs_create.

  datatype Created = Created(rc: int, s: Fs)

  function NoBlocks(): seq<nat> { seq<nat>(DIRECT, _ => 0) }

  /** alloc_inode in slot z. */
  function NewInode(s: Fs, z: nat, kind: Kind): Fs
    requires z < |s.inodes|
  {
    s.(inodes := s.inodes[z := Inode(s.nextId, kind, 0, NoBlocks())], nextId := s.nextId + 1)
  }

  /** The part of aevosfs_create after the parent directory x has been found. */
  function CreateIn(s: Fs, x: nat, name: seq<byte>, kind: Kind): Created
    requires FsOk(s) && x < MAX_INODES && s.inodes[x].id != 0 && |name| <= NAME_MAX
  {
    match FindInode(s.inodes, 0, 0) {
      case None => Created(ENOMEM, s)
      case Some(z) =>
        NewInodeKeepsOk(s, z, kind);
        BoundsOf(NewInode(s, z, kind), x);
        var s1 := NewInode(s, z, kind);
        match AddEntry(s1, x, name, s.nextId, kind) {
          case Some(s2) => Created(0, s2)
          case None => Created(ENOSPC, s1.(inodes := s1.inodes[z := s1.inodes[z].(id := 0)]))
        }
    }
  }

  /** The last slash of a path, in its first n bytes. */
  function LastSlash(p: seq<byte>, n: nat): (r: Option<nat>)
    requires n <= |p|
    ensures r.Some? ==> r.value < n && p[r.value] == SLASH && forall i | r.value < i < n :: p[i] != SLASH
    ensures r.None? ==> forall i | 0 <= i < n :: p[i] != SLASH
  {
    if n == 0 then None else if p[n - 1] == SLASH then Some(n - 1) else LastSlash(p, n - 1)
  }

  /** The split into parent path and name, with the source's buffer sizes. */
  function ParentOf(path: seq<byte>, slash: nat): seq<byte>
    requires slash < |path|
  {
    if slash == 0 then [SLASH] else path[..slash]
  }

  function NameOf(path: seq<byte>, slash: nat): (name: seq<byte>)
    requires slash < |Take(path, PATH_MAX)|
    ensures |name| <= NAME_MAX
  {
    if slash == 0 then Take(path[1..], NAME_MAX) else Take(Take(path, PATH_MAX)[slash + 1..], NAME_MAX)
  }

  function Create(s: Fs, path: seq<byte>, kind: Kind): Created
    requires FsOk(s)
  {
    InodesOnDevice(s);
    if path == [] || path[0] != SLASH then Created(EINVAL, s)
    else match LastSlash(Take(path, PATH_MAX), |Take(path, PATH_MAX)|) {
      case None => Created(EINVAL, s)
      case Some(slash) =>
        match Resolve(s, ParentOf(path, slash)) {
          case None => Created(ENOENT, s)
          case Some(x) =>
            ResolvedHasId(s, ParentOf(path, slash));
            if s.inodes[x].kind != Dir then Created(ENOENT, s) else CreateIn(s, x, NameOf(path, slash), kind)
        }
    }
  }

  lemma {:induction false} WalkHasId(s: Fs, x: nat, comps: seq<seq<byte>>)
    requires BlocksInDevice(s) && x < |s.inodes| && s.inodes[x].id != 0
    ensures Walk(s, x, comps).Some? ==> s.inodes[Walk(s, x, comps).value].id != 0
    decreases |comps|
  {
    hide Lookup, FindInode;
    if comps != [] && s.inodes[x].kind == Dir {
      match Lookup(s.dev, s.inodes[x].blocks, comps[0], 0) {
        case None =>
        case Some(id) =>
          match FindInode(s.inodes, id, 0) {
            case None =>
            case Some(y) => WalkHasId(s, y, comps[1..]);
          }
      }
    }
  }

  lemma ResolvedHasId(s: Fs, path: seq<byte>)
    requires FsOk(s) && BlocksInDevice(s)
    ensures Resolve(s, path).Some? ==> Resolve(s, path).value < MAX_INODES && s.inodes[Resolve(s, path).value].id != 0
  {
    match FindInode(s.inodes, s.root, 0) {
      case None =>
      case Some(x) => WalkHasId(s, x, Components(path));
    }
  }

  lemma NewInodeKeepsOk(s: Fs, z: nat, kind: Kind)
    requires FsOk(s) && z < |s.inodes| && s.inodes[z].id == 0
    ensures FsOk(NewInode(s, z, kind))
  {
    var s' := NewInode(s, z, kind);
    forall y: nat | y < MAX_INODES ensures InodeOk(s', y) { assert InodeOk(s, y); }
    forall y: nat, w: nat | y < MAX_INODES && w < MAX_INODES ensures OneId(s', y, w) {
      assert OneId(s, y, w) && InodeOk(s, y) && InodeOk(s, w);
    }
  }

  lemma DropIdKeepsOk(s: Fs, z: nat)
    requires FsOk(s) && z < |s.inodes|
    ensures FsOk(s.(inodes := s.inodes[z := s.inodes[z].(id := 0)]))
  {
    var s' := s.(inodes := s.inodes[z := s.inodes[z].(id := 0)]);
    forall y: nat | y < MAX_INODES ensures InodeOk(s', y) { assert InodeOk(s, y); }
    forall y: nat, w: nat | y < MAX_INODES && w < MAX_INODES ensures OneId(s', y, w) { assert OneId(s, y, w); }
  }

  lemma CreateInKeepsOk(s: Fs, x: nat, name: seq<byte>, kind: Kind)
    requires FsOk(s) && x < MAX_INODES && s.inodes[x].id != 0 && |name| <= NAME_MAX
    ensures FsOk(CreateIn(s, x, name, kind).s)
  {
    hide FsOk, AddEntry, NewInode;
    BoundsOf(s, x);
    match FindInode(s.inodes, 0, 0) {
      case None =>
      case Some(z) =>
        var s1 := NewInode(s, z, kind);
        NewInodeKeepsOk(s, z, kind);
        BoundsOf(s1, x);
        AddEntryIsLocal(s1, x, name, s.nextId, kind);
        BoundsOf(s1, z);
        DropIdKeepsOk(s1, z);
    }
  }

  lemma CreateKeepsOk(s: Fs, path: seq<byte>, kind: Kind)
    requires FsOk(s)
    ensures FsOk(Create(s, path, kind).s)
  {
    hide FsOk, CreateIn, Resolve, NameOf;
    InodesOnDevice(s);
    if path != [] && path[0] == SLASH {
      match LastSlash(Take(path, PATH_MAX), |Take(path, PATH_MAX)|) {
        case None =>
        case Some(slash) =>
          match Resolve(s, ParentOf(path, slash)) {
            case None =>
            case Some(x) =>
              ResolvedHasId(s, ParentOf(path, slash));
              CreateInKeepsOk(s, x, NameOf(path, slash), kind);
          }
      }
    }
  }

  // ----- When a creation succeeds, and what each failure means.

  /** A scanned block of the list, one before the first empty place, has an unused slot. */
  ghost predicate HasFreeSlot(dev: seq<Block>, blocks: seq<nat>)
    requires forall i | 0 <= i < |blocks| :: blocks[i] < |dev|
  {
    exists k: nat, i: nat | k < |blocks| && i < PER_BLOCK ::
      (forall j | 0 <= j <= k :: blocks[j] != 0) && SlotId(dev[blocks[k]], i) == 0
  }

  /** The directory can take one more entry. */
  ghost predicate HasRoom(s: Fs, x: nat)
    requires x < |s.inodes| && OnDevice(s.dev, s.inodes[x])
  {
    || HasFreeSlot(s.dev, s.inodes[x].blocks)
    || (s.free > 0 && exists k | 0 <= k < |s.inodes[x].blocks| :: s.inodes[x].blocks[k] == 0)
  }

  ghost predicate HasFreeInode(s: Fs) { exists z | 0 <= z < |s.inodes| :: s.inodes[z].id == 0 }

  lemma {:induction false} FreePlaceExactly(dev: seq<Block>, blocks: seq<nat>, k: nat)
    requires k <= |blocks| && (forall i | 0 <= i < |blocks| :: blocks[i] < |dev|)
    requires forall j | 0 <= j < k :: blocks[j] != 0 && forall i: nat | i < PER_BLOCK :: SlotId(dev[blocks[j]], i) != 0
    ensures FreePlace(dev, blocks, k).Place? <==> HasFreeSlot(dev, blocks)
    decreases |blocks| - k
  {
    hide SlotId;
    if k < |blocks| && blocks[k] != 0 && FreeSlot(dev[blocks[k]], 0) == PER_BLOCK {
      FreePlaceExactly(dev, blocks, k + 1);
    } else if k < |blocks| && blocks[k] != 0 {
      assert SlotId(dev[blocks[k]], FreeSlot(dev[blocks[k]], 0)) == 0;
    }
  }

  /** add_dir_entry succeeds if and only if there is room, and takes a block only if no slot is free. */
  lemma AddEntrySucceeds(s: Fs, x: nat, name: seq<byte>, id: nat, kind: Kind)
    requires FsOk(s) && x < MAX_INODES && |name| <= NAME_MAX && OnDevice(s.dev, s.inodes[x])
    ensures var r := AddEntry(s, x, name, id, kind);
            && (r.Some? <==> HasRoom(s, x))
            && (r.Some? ==>
                  var n := if HasFreeSlot(s.dev, s.inodes[x].blocks) then 0 else 1;
                  r.value.logHead == s.logHead + n && r.value.free == s.free - n && r.value.nextId == s.nextId)
  {
    hide SlotId, SetSlot, HasFreeSlot;
    BoundsOf(s, x);
    FreePlaceExactly(s.dev, s.inodes[x].blocks, 0);
  }

  lemma {:induction false} FindsFreeInode(inodes: seq<Inode>, i: nat)
    requires i <= |inodes|
    ensures FindInode(inodes, 0, i).Some? <==> exists z | i <= z < |inodes| :: inodes[z].id == 0
    ensures FindInode(inodes, 0, i).Some? ==> forall z | i <= z < FindInode(inodes, 0, i).value :: inodes[z].id != 0
    decreases |inodes| - i
  {
    if i < |inodes| { FindsFreeInode(inodes, i + 1); }
  }

  /** The directory a path is created in, if there is one. */
  ghost predicate ParentIs(s: Fs, path: seq<byte>, x: nat)
    requires BlocksInDevice(s)
  {
    && path != [] && path[0] == SLASH
    && exists slash: nat ::
         && LastSlashAt(Take(path, PATH_MAX), slash) && Resolve(s, ParentOf(path, slash)) == Some(x)
         && s.inodes[x].kind == Dir
  }

  ghost predicate LastSlashAt(p: seq<byte>, slash: nat) {
    slash < |p| && p[slash] == SLASH && forall i | slash < i < |p| :: p[i] != SLASH
  }

  /** What a failed creation leaves: all as it was, but for an unused inode slot and a used up inode number. */
  ghost predicate OnlyUnused(s: Fs, s': Fs) {
    && s' == s.(inodes := s'.inodes, nextId := s.nextId + 1) && |s'.inodes| == |s.inodes|
    && forall z | 0 <= z < |s.inodes| :: s'.inodes[z] == s.inodes[z] || s.inodes[z].id == s'.inodes[z].id == 0
  }

  /** aevosfs_create inside directory x succeeds if and only if an inode slot is unused and the directory has room. */
  lemma CreateInExactly(s: Fs, x: nat, name: seq<byte>, kind: Kind)
    requires FsOk(s) && x < MAX_INODES && s.inodes[x].id != 0 && |name| <= NAME_MAX && OnDevice(s.dev, s.inodes[x])
    ensures var c := CreateIn(s, x, name, kind);
            && (c.rc == 0 <==> HasFreeInode(s) && HasRoom(s, x))
            && (c.rc == ENOMEM <==> !HasFreeInode(s))
            && (c.rc == ENOSPC <==> HasFreeInode(s) && !HasRoom(s, x))
            && (c.rc == ENOMEM ==> c.s == s) && (c.rc == ENOSPC ==> OnlyUnused(s, c.s))
            && (c.rc == 0 ==>
                  var n := if HasFreeSlot(s.dev, s.inodes[x].blocks) then 0 else 1;
                  c.s.logHead == s.logHead + n && c.s.free == s.free - n && c.s.nextId == s.nextId + 1)
  {
    hide FsOk, AddEntry, HasFreeSlot, FindInode;
    BoundsOf(s, x);
    FindsFreeInode(s.inodes, 0);
    if FindInode(s.inodes, 0, 0).Some? {
      var z := FindInode(s.inodes, 0, 0).value;
      FoundIsFree(s.inodes);
      var s1 := NewInode(s, z, kind);
      NewInodeKeepsOk(s, z, kind);
      BoundsOf(s1, x);
      AddEntrySucceeds(s1, x, name, s.nextId, kind);
    }
  }

  lemma FoundIsFree(inodes: seq<Inode>)
    ensures var r := FindInode(inodes, 0, 0); r.Some? ==> r.value < |inodes| && inodes[r.value].id == 0
  {
  }

  /** What aevosfs_create returns for every path on every volume, and what a failure leaves behind. */
  lemma CreateReturns(s: Fs, path: seq<byte>, kind: Kind)
    requires FsOk(s) && BlocksInDevice(s)
    ensures var c := Create(s, path, kind);
            && (c.rc == EINVAL <==> path == [] || path[0] != SLASH)
            && (c.rc == ENOENT <==> path != [] && path[0] == SLASH && forall x: nat :: !ParentIs(s, path, x))
            && (c.rc == EINVAL || c.rc == ENOENT || c.rc == ENOMEM ==> c.s == s)
            && (c.rc == ENOSPC ==> OnlyUnused(s, c.s))
            && (c.rc == EINVAL || c.rc == ENOENT || c.rc == ENOMEM || c.rc == ENOSPC || c.rc == 0)
    ensures forall x: nat | ParentIs(s, path, x) ::
              var c := Create(s, path, kind);
              && x < |s.inodes| && OnDevice(s.dev, s.inodes[x])
              && (c.rc == 0 <==> HasFreeInode(s) && HasRoom(s, x))
              && (c.rc == ENOMEM <==> !HasFreeInode(s))
              && (c.rc == ENOSPC <==> HasFreeInode(s) && !HasRoom(s, x))
  {
    hide FsOk, CreateIn, Resolve, NameOf, ParentOf, HasRoom, HasFreeInode, OnlyUnused, LastSlash;
    InodesOnDevice(s);
    if path != [] && path[0] == SLASH {
      var p := Take(path, PATH_MAX);
      assert p != [] && p[0] == SLASH;
      var slash := FindLastSlash(p);
      forall x: nat | ParentIs(s, path, x)
        ensures Resolve(s, ParentOf(path, slash)) == Some(x) && s.inodes[x].kind == Dir
      {
        var sl: nat :| LastSlashAt(p, sl) && Resolve(s, ParentOf(path, sl)) == Some(x) && s.inodes[x].kind == Dir;
        assert sl == slash;
      }
      if Resolve(s, ParentOf(path, slash)).Some? {
        var x := Resolve(s, ParentOf(path, slash)).value;
        ResolvedHasId(s, ParentOf(path, slash));
        if s.inodes[x].kind == Dir {
          assert ParentIs(s, path, x);
          CreateInExactly(s, x, NameOf(path, slash), kind);
        }
      }
    }
  }

  lemma FindLastSlash(p: seq<byte>) returns (slash: nat)
    requires p != [] && p[0] == SLASH
    ensures LastSlash(p, |p|) == Some(slash) && LastSlashAt(p, slash)
  {
    slash := LastSlash(p, |p|).value;
  }

  // ----- Path resolution across a creation.

  /** An inode in use keeps its id and its kind, and a directory every entry a lookup found. */
  ghost predicate KeepsSlot(s: Fs, s': Fs, y: nat)
    requires y < |s.inodes| == |s'.inodes| && OnDevice(s.dev, s.inodes[y]) && OnDevice(s'.dev, s'.inodes[y])
  {
    s.inodes[y].id != 0 ==>
      && s'.inodes[y].id == s.inodes[y].id && s'.inodes[y].kind == s.inodes[y].kind
      && (s.inodes[y].kind == Dir ==>
            forall nm | LookupAt(s, y, nm).Some? :: LookupAt(s', y, nm) == LookupAt(s, y, nm))
  }

  /** The id of an inode in use is still found in the same slot. */
  ghost predicate KeepsId(s: Fs, s': Fs, id: nat) {
    id != 0 && FindInode(s.inodes, id, 0).Some? ==> FindInode(s'.inodes, id, 0) == FindInode(s.inodes, id, 0)
  }

  ghost predicate Steady(s: Fs, s': Fs) {
    && BlocksInDevice(s) && BlocksInDevice(s') && |s.inodes| == |s'.inodes| && s'.root == s.root
    && (forall y: nat | y < |s.inodes| ::
          OnDevice(s.dev, s.inodes[y]) && OnDevice(s'.dev, s'.inodes[y]) && KeepsSlot(s, s', y))
    && (forall id: nat :: KeepsId(s, s', id))
  }

  lemma {:induction false} WalkKeeps(s: Fs, s': Fs, x: nat, comps: seq<seq<byte>>)
    requires Steady(s, s') && x < |s.inodes| && s.inodes[x].id != 0
    ensures Walk(s, x, comps).Some? ==> Walk(s', x, comps) == Walk(s, x, comps)
    decreases |comps|
  {
    hide Lookup, FindInode, BlocksInDevice;
    if Walk(s, x, comps).Some? && comps != [] {
      assert KeepsSlot(s, s', x);
      var id := LookupAt(s, x, comps[0]).value;
      assert KeepsId(s, s', id);
      WalkKeeps(s, s', FindInode(s.inodes, id, 0).value, comps[1..]);
    }
  }

  lemma ResolveKeeps(s: Fs, s': Fs, path: seq<byte>)
    requires Steady(s, s') && s.root != 0
    ensures Resolve(s, path).Some? ==> Resolve(s', path) == Resolve(s, path)
  {
    hide Walk, FindInode;
    assert KeepsId(s, s', s.root);
    if Resolve(s, path).Some? {
      WalkKeeps(s, s', FindInode(s.inodes, s.root, 0).value, Components(path));
    }
  }

  lemma {:induction false} FindInodeSame(a: seq<Inode>, b: seq<Inode>, z: nat, id: nat, i: nat)
    requires |a| == |b| && i <= |a| && z < |a| && a[z].id != id && b[z].id != id
    requires forall y | 0 <= y < |a| && y != z :: a[y].id == b[y].id
    ensures FindInode(a, id, i) == FindInode(b, id, i)
    decreases |a| - i
  {
    if i < |a| { FindInodeSame(a, b, z, id, i + 1); }
  }

  lemma {:induction false} FindInodeUnique(a: seq<Inode>, z: nat, i: nat)
    requires i <= z < |a| && forall y | 0 <= y < |a| && y != z :: a[y].id != a[z].id
    ensures FindInode(a, a[z].id, i) == Some(z)
    decreases z - i
  {
    if i < z { FindInodeUnique(a, z, i + 1); }
  }

  /** What a successful creation leaves behind. */
  lemma CreateInFacts(s: Fs, x: nat, name: seq<byte>, kind: Kind) returns (z: nat)
    requires FsOk(s) && x < MAX_INODES && s.inodes[x].id != 0 && |name| <= NAME_MAX
    requires CreateIn(s, x, name, kind).rc == 0
    ensures z < MAX_INODES && z != x && s.inodes[z].id == 0
    ensures var s1, s' := NewInode(s, z, kind), CreateIn(s, x, name, kind).s;
            && FsOk(s1) && FsOk(s') && OnlyDirectory(s1, s', x) && s'.nextId == s1.nextId
            && OnDevice(s1.dev, s1.inodes[x]) && AddEntry(s1, x, name, s.nextId, kind) == Some(s')
  {
    hide FsOk, AddEntry, OnlyDirectory;
    BoundsOf(s, x);
    z := FindInode(s.inodes, 0, 0).value;
    var s1 := NewInode(s, z, kind);
    NewInodeKeepsOk(s, z, kind);
    BoundsOf(s1, x);
    AddEntryIsLocal(s1, x, name, s.nextId, kind);
  }

  lemma KeepsSlotAfterCreate(s: Fs, s': Fs, x: nat, z: nat, name: seq<byte>, kind: Kind, y: nat)
    requires FsOk(s) && x < MAX_INODES && z < MAX_INODES && z != x && s.inodes[z].id == 0 && y < MAX_INODES
    requires |name| <= NAME_MAX && CString(name) && 0 < s.nextId < U64
    requires FsOk(NewInode(s, z, kind)) && FsOk(s') && OnlyDirectory(NewInode(s, z, kind), s', x)
    requires OnDevice(NewInode(s, z, kind).dev, NewInode(s, z, kind).inodes[x])
    requires AddEntry(NewInode(s, z, kind), x, name, s.nextId, kind) == Some(s')
    requires OnDevice(s.dev, s.inodes[x]) && HidesNothing(s, x, name)
    ensures OnDevice(s.dev, s.inodes[y]) && OnDevice(s'.dev, s'.inodes[y])
    ensures |s.inodes| == |s'.inodes| && KeepsSlot(s, s', y)
  {
    hide FsOk, AddEntry, Lookup, Tidy;
    BoundsOf(s, y);
    BoundsOf(s', y);
    var s1 := NewInode(s, z, kind);
    if s.inodes[y].id != 0 {
      forall nm | LookupAt(s, y, nm).Some? ensures LookupAt(s', y, nm) == LookupAt(s, y, nm) {
        if y == x {
          AddEntryShows(s1, s', x, name, s.nextId, kind, nm);
        } else {
          OtherDirectoriesSame(s1, s', x, y, nm);
        }
      }
    }
  }

  /** No bytes, and no block. */
  ghost predicate Unwritten(n: Inode) { n.size == 0 && forall k | 0 <= k < |n.blocks| :: n.blocks[k] == 0 }

  lemma IdsAfterCreate(s: Fs, s': Fs, x: nat, z: nat, kind: Kind)
    requires FsOk(s) && FsOk(s') && x < MAX_INODES && z < MAX_INODES && z != x && s.inodes[z].id == 0
    requires OnlyDirectory(NewInode(s, z, kind), s', x) && 0 < s.nextId
    ensures forall id: nat :: KeepsId(s, s', id)
    ensures s'.inodes[z].id == s.nextId && s'.inodes[z].kind == kind && s'.inodes[z].blocks == NoBlocks()
    ensures Unwritten(s'.inodes[z])
    ensures FindInode(s'.inodes, s.nextId, 0) == Some(z)
  {
    hide FindInode;
    forall id: nat ensures KeepsId(s, s', id) {
      if id != 0 && FindInode(s.inodes, id, 0).Some? {
        var y := FindInode(s.inodes, id, 0).value;
        assert InodeOk(s, y);
        FindInodeSame(s.inodes, s'.inodes, z, id, 0);
      }
    }
    forall y | 0 <= y < MAX_INODES && y != z ensures s'.inodes[y].id != s.nextId { assert InodeOk(s, y); }
    FindInodeUnique(s'.inodes, z, 0);
  }

  lemma CreateInIsSteady(s: Fs, x: nat, name: seq<byte>, kind: Kind) returns (z: nat)
    requires FsOk(s) && x < MAX_INODES && s.inodes[x].id != 0 && |name| <= NAME_MAX && CString(name)
    requires 0 < s.nextId < U64
    requires OnDevice(s.dev, s.inodes[x]) && HidesNothing(s, x, name)
    requires CreateIn(s, x, name, kind).rc == 0
    ensures var s' := CreateIn(s, x, name, kind).s;
            && FsOk(s') && Steady(s, s')
            && z < MAX_INODES && s'.inodes[z].id == s.nextId && s'.inodes[z].kind == kind
            && s.inodes[z].id == 0 && s'.inodes[z].blocks == NoBlocks() && Unwritten(s'.inodes[z])
            && FindInode(s'.inodes, s.nextId, 0) == Some(z)
            && OnDevice(s'.dev, s'.inodes[x])
            && LookupAt(s', x, name) == Added(LookupAt(s, x, name), true, s.nextId)
  {
    hide FsOk, AddEntry, Lookup, FindInode, NewInode, Tidy;
    BoundsOf(s, x);
    var s' := CreateIn(s, x, name, kind).s;
    z := CreateInFacts(s, x, name, kind);
    var s1 := NewInode(s, z, kind);
    NewInodeLookup(s, z, kind, x, name);
    InodesOnDevice(s);
    InodesOnDevice(s');
    forall y: nat | y < |s.inodes|
      ensures OnDevice(s.dev, s.inodes[y]) && OnDevice(s'.dev, s'.inodes[y]) && |s.inodes| == |s'.inodes|
      ensures KeepsSlot(s, s', y)
    {
      KeepsSlotAfterCreate(s, s', x, z, name, kind, y);
    }
    IdsAfterCreate(s, s', x, z, kind);
    AddEntryShows(s1, s', x, name, s.nextId, kind, name);
  }

  lemma NewInodeLookup(s: Fs, z: nat, kind: Kind, x: nat, name: seq<byte>)
    requires z < |s.inodes| && x < |s.inodes| && x != z && OnDevice(s.dev, s.inodes[x])
    ensures var s1 := NewInode(s, z, kind);
            && x < |s1.inodes| && OnDevice(s1.dev, s1.inodes[x]) && LookupAt(s1, x, name) == LookupAt(s, x, name)
            && s1.root == s.root && (TidyAt(s, x) <==> TidyAt(s1, x))
  {
  }

  /** Walking on from a directory whose first component leads to a new, empty inode. */
  lemma WalkToNew(s: Fs, x: nat, z: nat, id: nat, comps: seq<seq<byte>>)
    requires BlocksInDevice(s) && x < |s.inodes| && z < |s.inodes| && s.inodes[x].kind == Dir && comps != []
    requires OnDevice(s.dev, s.inodes[x]) && LookupAt(s, x, comps[0]) == Some(id)
    requires FindInode(s.inodes, id, 0) == Some(z)
    requires s.inodes[z].blocks == NoBlocks()
    ensures Walk(s, x, comps) == if |comps| == 1 then Some(z) else None
  {
    hide FindInode;
    assert Walk(s, x, comps) == Walk(s, z, comps[1..]);
    if |comps| > 1 && s.inodes[z].kind == Dir {
      assert Lookup(s.dev, s.inodes[z].blocks, comps[1..][0], 0) == None;
    }
  }

  lemma {:induction false} WalkJoin(s: Fs, x: nat, a: seq<seq<byte>>, b: seq<seq<byte>>)
    requires BlocksInDevice(s) && x < |s.inodes|
    ensures Walk(s, x, a + b) == match Walk(s, x, a) { case None => None case Some(y) => Walk(s, y, b) }
    decreases |a|
  {
    hide Lookup, FindInode;
    if a == [] {
      assert a + b == b;
    } else {
      assert (a + b)[0] == a[0] && (a + b)[1..] == a[1..] + b;
      if s.inodes[x].kind == Dir {
        match Lookup(s.dev, s.inodes[x].blocks, a[0], 0) {
          case None =>
          case Some(id) =>
            match FindInode(s.inodes, id, 0) {
              case None =>
              case Some(y) => WalkJoin(s, y, a[1..], b);
            }
        }
      }
    }
  }

  lemma ResolveJoin(s: Fs, parent: seq<byte>, path: seq<byte>, rest: seq<byte>)
    requires BlocksInDevice(s) && Components(path) == Components(parent) + Components(rest)
    ensures Resolve(s, path) ==
            match Resolve(s, parent) { case None => None case Some(y) => Walk(s, y, Components(rest)) }
  {
    hide FindInode, Walk, Components;
    match FindInode(s.inodes, s.root, 0) {
      case None =>
      case Some(x) => WalkJoin(s, x, Components(parent), Components(rest));
    }
  }

  lemma SplitComponents(path: seq<byte>, slash: nat)
    requires slash < |path| && path[slash] == SLASH
    ensures Components(path) == Components(ParentOf(path, slash)) + Components(path[slash + 1..])
  {
    hide Components;
    ComponentsJoin(path[..slash], path[slash + 1..]);
    assert path == path[..slash] + [SLASH] + path[slash + 1..];
    NoComponents();
    assert slash == 0 ==> path[..0] == [];
  }

  /** A path aevosfs_create can split without cutting: at most 511 bytes, with a last slash. */
  ghost predicate Splits(path: seq<byte>, slash: nat) {
    && CString(path) && path != [] && path[0] == SLASH && |path| <= PATH_MAX
    && slash < |path| && path[slash] == SLASH && forall i | slash < i < |path| :: path[i] != SLASH
  }

  lemma LastSlashIs(path: seq<byte>, slash: nat, n: nat)
    requires slash < n <= |path| && path[slash] == SLASH && forall i | slash < i < n :: path[i] != SLASH
    ensures LastSlash(path, n) == Some(slash)
    decreases n
  {
    if n - 1 > slash { LastSlashIs(path, slash, n - 1); }
  }

  lemma CreateIsCreateIn(s: Fs, path: seq<byte>, slash: nat, kind: Kind, x: nat)
    requires FsOk(s) && Splits(path, slash) && BlocksInDevice(s)
    requires Resolve(s, ParentOf(path, slash)) == Some(x) && s.inodes[x].kind == Dir
    ensures x < MAX_INODES && s.inodes[x].id != 0
    ensures NameOf(path, slash) == Take(path[slash + 1..], NAME_MAX)
    ensures Create(s, path, kind) == CreateIn(s, x, NameOf(path, slash), kind)
  {
    hide FsOk, CreateIn, Resolve;
    ResolvedHasId(s, ParentOf(path, slash));
    LastSlashIs(path, slash, |path|);
    assert Take(path, PATH_MAX) == path;
  }

  /** A creation that succeeded had a directory as parent. */
  lemma DirOfCreate(s: Fs, path: seq<byte>, slash: nat, kind: Kind, x: nat)
    requires FsOk(s) && Splits(path, slash) && BlocksInDevice(s)
    requires Resolve(s, ParentOf(path, slash)) == Some(x) && Create(s, path, kind).rc == 0
    ensures s.inodes[x].kind == Dir
  {
    hide FsOk, CreateIn, Resolve;
    LastSlashIs(path, slash, |path|);
    assert Take(path, PATH_MAX) == path;
  }

  lemma Basics(s: Fs)
    requires FsOk(s)
    ensures 0 < s.nextId && s.root != 0 && |s.inodes| == MAX_INODES
  {
    assert InodeOk(s, 0);
  }

  lemma NameIsCString(path: seq<byte>, slash: nat)
    requires Splits(path, slash)
    ensures slash < |Take(path, PATH_MAX)| && CString(NameOf(path, slash))
    ensures |path[slash + 1..]| <= NAME_MAX ==> NameOf(path, slash) == path[slash + 1..]
    ensures |path[slash + 1..]| > NAME_MAX ==> NameOf(path, slash) == path[slash + 1..][..NAME_MAX]
    ensures NoSlash(path[slash + 1..])
  {
    assert Take(path, PATH_MAX) == path;
  }

  lemma KindKept(s: Fs, s': Fs, x: nat)
    requires Steady(s, s') && x < |s.inodes| && s.inodes[x].id != 0
    ensures s'.inodes[x].kind == s.inodes[x].kind
  {
    assert KeepsSlot(s, s', x);
  }

  /** A longer path creates what its first 511 bytes name. */
  lemma LongPathIsCut(s: Fs, path: seq<byte>, kind: Kind)
    requires FsOk(s)
    ensures Create(s, path, kind) == Create(s, Take(path, PATH_MAX), kind)
  {
    hide FsOk, CreateIn, Resolve, LastSlash;
    var p := Take(path, PATH_MAX);
    assert Take(p, PATH_MAX) == p;
    if p != [] && p[0] == SLASH {
      NameInCut(path);
      match LastSlash(p, |p|)
      case None =>
      case Some(slash) =>
        assert ParentOf(p, slash) == ParentOf(path, slash);
    }
  }

  lemma NameInCut(path: seq<byte>)
    requires path != []
    ensures Take(Take(path, PATH_MAX)[1..], NAME_MAX) == Take(path[1..], NAME_MAX)
  {
  }

  /** Path creation.  After a successful creation under a directory x that is tidy or had no such name, every path that
      resolved before resolves to the same inode.  If the name was absent, the new path resolves to the new inode
      exactly when its name has between 1 and 127 characters. */
  lemma PathCreation(s: Fs, path: seq<byte>, slash: nat, kind: Kind, x: nat) returns (z: nat)
    requires FsOk(s) && BlocksInDevice(s) && s.nextId < U64 && Splits(path, slash)
    requires Resolve(s, ParentOf(path, slash)) == Some(x) && OnDevice(s.dev, s.inodes[x])
    requires HidesNothing(s, x, NameOf(path, slash))
    requires Create(s, path, kind).rc == 0
    ensures var s' := Create(s, path, kind).s;
            var name := path[slash + 1..];
            && FsOk(s') && BlocksInDevice(s')
            && z < MAX_INODES && s.inodes[z].id == 0 && s'.inodes[z].id == s.nextId && s'.inodes[z].kind == kind
            && Unwritten(s'.inodes[z])
            && (forall p :: Resolve(s, p).Some? ==> Resolve(s', p) == Resolve(s, p))
            && (name == [] ==> Resolve(s', path) == Some(x))
            && (LookupAt(s, x, NameOf(path, slash)).None? ==>
                  && (Resolve(s', path) == Some(z) <==> 1 <= |name| <= NAME_MAX)
                  && (|name| > NAME_MAX ==> Resolve(s', path).None?))
  {
    hide FsOk, CreateIn, Resolve, Components, KeepsSlot, BlocksInDevice, FindInode, Lookup, Steady, Tidy;
    DirOfCreate(s, path, slash, kind, x);
    CreateIsCreateIn(s, path, slash, kind, x);
    var s' := Create(s, path, kind).s;
    var name := path[slash + 1..];
    Basics(s);
    NameIsCString(path, slash);
    z := CreateInIsSteady(s, x, NameOf(path, slash), kind);
    InodesOnDevice(s');
    forall p | Resolve(s, p).Some? ensures Resolve(s', p) == Resolve(s, p) { ResolveKeeps(s, s', p); }
    SplitComponents(path, slash);
    ComponentsOfName(name);
    ResolveJoin(s', ParentOf(path, slash), path, name);
    KindKept(s, s', x);
    assert Resolve(s', ParentOf(path, slash)) == Some(x);
    if name != [] && LookupAt(s, x, NameOf(path, slash)).None? {
      WalkToNew(s', x, z, s.nextId, Components(name));
    }
  }

  // ----- Volumes on which every directory is tidy.

  /** Every entry a lookup finds names an inode in use. */
  ghost predicate LiveAt(s: Fs, x: nat)
    requires x < |s.inodes| && OnDevice(s.dev, s.inodes[x])
  {
    forall nm | LookupAt(s, x, nm).Some? :: FindInode(s.inodes, LookupAt(s, x, nm).value, 0).Some?
  }

  ghost predicate DirOk(s: Fs, x: nat)
    requires x < |s.inodes| && OnDevice(s.dev, s.inodes[x])
  {
    s.inodes[x].id != 0 && s.inodes[x].kind == Dir ==> TidyAt(s, x) && LiveAt(s, x)
  }

  /** What every volume is from its mount on. */
  ghost predicate TidyFs(s: Fs) {
    && FsOk(s) && BlocksInDevice(s)
    && forall x: nat | x < |s.inodes| :: OnDevice(s.dev, s.inodes[x]) && DirOk(s, x)
  }

  lemma DirAfterCreate(s: Fs, s': Fs, x: nat, z: nat, name: seq<byte>, kind: Kind, y: nat)
    requires TidyFs(s) && x < MAX_INODES && z < MAX_INODES && z != x && s.inodes[z].id == 0 && y < MAX_INODES
    requires s.inodes[x].id != 0 && s.inodes[x].kind == Dir
    requires |name| <= NAME_MAX && CString(name) && 0 < s.nextId < U64
    requires FsOk(NewInode(s, z, kind)) && FsOk(s') && OnlyDirectory(NewInode(s, z, kind), s', x)
    requires OnDevice(NewInode(s, z, kind).dev, NewInode(s, z, kind).inodes[x])
    requires AddEntry(NewInode(s, z, kind), x, name, s.nextId, kind) == Some(s')
    ensures y < |s'.inodes| && OnDevice(s'.dev, s'.inodes[y]) && DirOk(s', y)
  {
    hide FsOk, AddEntry, Lookup, Tidy, FindInode, LiveAt, BlocksInDevice;
    BoundsOf(s, y);
    var s1 := NewInode(s, z, kind);
    BoundsOf(s1, y);
    BoundsOf(s', y);
    assert DirOk(s, x) && DirOk(s, y);
    IdsAfterCreate(s, s', x, z, kind);
    if y == x {
      NewInodeLookup(s, z, kind, x, name);
      TidyAfter(s, s1, s', x, z, name, kind);
    } else if y == z {
      NewIsOk(s', z);
    } else {
      OtherTidy(s, s1, s', x, z, y, kind);
    }
  }

  /** The directory that got the entry. */
  lemma TidyAfter(s: Fs, s1: Fs, s': Fs, x: nat, z: nat, name: seq<byte>, kind: Kind)
    requires FsOk(s) && x < MAX_INODES && z < MAX_INODES && x != z && s1 == NewInode(s, z, kind)
    requires OnDevice(s.dev, s.inodes[x]) && OnDevice(s1.dev, s1.inodes[x]) && TidyAt(s1, x) && LiveAt(s, x)
    requires |name| <= NAME_MAX && CString(name) && 0 < s.nextId < U64
    requires FsOk(s1) && FsOk(s') && AddEntry(s1, x, name, s.nextId, kind) == Some(s')
    requires (forall id: nat :: KeepsId(s, s', id)) && FindInode(s'.inodes, s.nextId, 0).Some?
    ensures x < |s'.inodes| && OnDevice(s'.dev, s'.inodes[x]) && TidyAt(s', x) && LiveAt(s', x)
  {
    hide FsOk, AddEntry, Lookup, Tidy, FindInode;
    BoundsOf(s, x);
    AddEntryExactly(s1, s', x, name, s.nextId, kind, name);
    forall nm | LookupAt(s', x, nm).Some? ensures FindInode(s'.inodes, LookupAt(s', x, nm).value, 0).Some? {
      AddEntryExactly(s1, s', x, name, s.nextId, kind, nm);
      NewInodeLookup(s, z, kind, x, nm);
      if LookupAt(s, x, nm).Some? { assert KeepsId(s, s', LookupAt(s, x, nm).value); }
    }
  }

  /** The new inode has no entries yet. */
  lemma NewIsOk(s: Fs, z: nat)
    requires z < |s.inodes| && OnDevice(s.dev, s.inodes[z]) && s.inodes[z].blocks == NoBlocks()
    ensures DirOk(s, z)
  {
    EmptyIsTidy(s.dev, s.inodes[z].blocks);
  }

  /** Every other directory. */
  lemma OtherTidy(s: Fs, s1: Fs, s': Fs, x: nat, z: nat, y: nat, kind: Kind)
    requires FsOk(s1) && FsOk(s') && x < MAX_INODES && y < MAX_INODES && z < MAX_INODES && y != x && y != z
    requires |s.inodes| == MAX_INODES && s1 == NewInode(s, z, kind) && OnlyDirectory(s1, s', x)
    requires OnDevice(s.dev, s.inodes[y]) && DirOk(s, y) && forall id: nat :: KeepsId(s, s', id)
    ensures y < |s'.inodes| && OnDevice(s'.dev, s'.inodes[y]) && DirOk(s', y)
  {
    hide FsOk, Lookup, Tidy, FindInode;
    BoundsOf(s1, y);
    BoundsOf(s', y);
    if s.inodes[y].id != 0 && s.inodes[y].kind == Dir {
      TidySame(s1.dev, s'.dev, s1.inodes[y].blocks);
      forall nm | LookupAt(s', y, nm).Some? ensures FindInode(s'.inodes, LookupAt(s', y, nm).value, 0).Some? {
        OtherDirectoriesSame(s1, s', x, y, nm);
        NewInodeLookup(s, z, kind, y, nm);
        assert KeepsId(s, s', LookupAt(s, y, nm).value);
      }
    }
  }

  /** Every creation, successful or not, with a new name or one that is there, keeps a volume tidy and every path that
      resolved resolving to the same inode. */
  lemma CreateInKeepsTidy(s: Fs, x: nat, name: seq<byte>, kind: Kind)
    requires TidyFs(s) && x < MAX_INODES && s.inodes[x].id != 0 && s.inodes[x].kind == Dir
    requires |name| <= NAME_MAX && CString(name) && s.nextId < U64
    ensures TidyFs(CreateIn(s, x, name, kind).s) && Steady(s, CreateIn(s, x, name, kind).s)
  {
    hide FsOk, CreateIn, Tidy, Lookup, FindInode, LiveAt, OnlyDirectory, AddEntry, NewInode, KeepsSlot, KeepsId;
    Basics(s);
    CreateInKeepsOk(s, x, name, kind);
    var s' := CreateIn(s, x, name, kind).s;
    InodesOnDevice(s');
    if CreateIn(s, x, name, kind).rc == 0 {
      var z := CreateInFacts(s, x, name, kind);
      forall y: nat | y < |s'.inodes| ensures OnDevice(s'.dev, s'.inodes[y]) && DirOk(s', y) {
        BoundsOf(s', 0);
        DirAfterCreate(s, s', x, z, name, kind, y);
      }
      assert DirOk(s, x);
      var _ := CreateInIsSteady(s, x, name, kind);
    } else {
      FailedIsHarmless(s, x, name, kind);
    }
  }

  /** All directories in use have the same entries. */
  ghost predicate SameEntries(s: Fs, s': Fs, nm: seq<byte>) {
    && |s.inodes| == |s'.inodes|
    && forall y: nat | y < |s.inodes| && s.inodes[y].id != 0 && s.inodes[y].kind == Dir ::
         OnDevice(s.dev, s.inodes[y]) && OnDevice(s'.dev, s'.inodes[y]) && LookupAt(s', y, nm) == LookupAt(s, y, nm)
  }

  /** Creating a name that is there changes no entry. */
  lemma PresentChangesNothing(s: Fs, x: nat, name: seq<byte>, kind: Kind, nm: seq<byte>)
    requires TidyFs(s) && x < MAX_INODES && s.inodes[x].id != 0 && s.inodes[x].kind == Dir
    requires |name| <= NAME_MAX && CString(name) && s.nextId < U64 && CreateIn(s, x, name, kind).rc == 0
    requires OnDevice(s.dev, s.inodes[x]) && LookupAt(s, x, name).Some?
    ensures SameEntries(s, CreateIn(s, x, name, kind).s, nm)
  {
    hide FsOk, CreateIn, Tidy, Lookup, FindInode, AddEntry;
    Basics(s);
    var s' := CreateIn(s, x, name, kind).s;
    var z := CreateInFacts(s, x, name, kind);
    var s1 := NewInode(s, z, kind);
    assert DirOk(s, x);
    forall y: nat | y < |s.inodes| && s.inodes[y].id != 0
      ensures OnDevice(s.dev, s.inodes[y]) && y < |s'.inodes| && OnDevice(s'.dev, s'.inodes[y])
      ensures LookupAt(s', y, nm) == LookupAt(s, y, nm)
    {
      BoundsOf(s', y);
      NewInodeLookup(s, z, kind, y, nm);
      if y == x {
        AddEntryExactly(s1, s', x, name, s.nextId, kind, nm);
      } else {
        OtherDirectoriesSame(s1, s', x, y, nm);
      }
    }
  }

  lemma {:induction false} WalkSame(s: Fs, s': Fs, x: nat, comps: seq<seq<byte>>)
    requires TidyFs(s) && Steady(s, s') && forall nm :: SameEntries(s, s', nm)
    requires x < |s.inodes| && s.inodes[x].id != 0
    ensures Walk(s', x, comps) == Walk(s, x, comps)
    decreases |comps|
  {
    hide Lookup, FindInode, BlocksInDevice, FsOk, Tidy;
    assert KeepsSlot(s, s', x);
    if comps != [] && s.inodes[x].kind == Dir {
      assert SameEntries(s, s', comps[0]) && DirOk(s, x);
      if LookupAt(s, x, comps[0]).Some? {
        var id := LookupAt(s, x, comps[0]).value;
        assert KeepsId(s, s', id);
        WalkSame(s, s', FindInode(s.inodes, id, 0).value, comps[1..]);
      }
    }
  }

  lemma ResolveSame(s: Fs, s': Fs, path: seq<byte>)
    requires TidyFs(s) && Steady(s, s') && forall nm :: SameEntries(s, s', nm)
    requires FindInode(s.inodes, s.root, 0).Some?
    ensures Resolve(s', path) == Resolve(s, path)
  {
    hide Walk, FindInode;
    Basics(s);
    assert KeepsId(s, s', s.root);
    WalkSame(s, s', FindInode(s.inodes, s.root, 0).value, Components(path));
  }

  /** A failed creation changes nothing but an unused inode slot. */
  lemma FailedIsHarmless(s: Fs, x: nat, name: seq<byte>, kind: Kind)
    requires TidyFs(s) && x < MAX_INODES && s.inodes[x].id != 0 && |name| <= NAME_MAX
    requires CreateIn(s, x, name, kind).rc != 0
    ensures TidyFs(CreateIn(s, x, name, kind).s) && Steady(s, CreateIn(s, x, name, kind).s)
  {
    hide FsOk, Tidy, Lookup, FindInode, AddEntry;
    CreateInKeepsOk(s, x, name, kind);
    var s' := CreateIn(s, x, name, kind).s;
    InodesOnDevice(s');
    BoundsOf(s, x);
    BoundsOf(s', x);
    if FindInode(s.inodes, 0, 0).Some? {
      var z := FindInode(s.inodes, 0, 0).value;
      UnusedSlotOnly(s, s', z);
    } else {
      SteadySelf(s);
    }
  }

  lemma SteadySelf(s: Fs)
    requires TidyFs(s)
    ensures Steady(s, s)
  {
    hide FsOk, Tidy, Lookup, FindInode;
  }

  lemma UnusedSlotOnly(s: Fs, s': Fs, z: nat)
    requires TidyFs(s) && FsOk(s') && BlocksInDevice(s') && z < |s.inodes| == |s'.inodes|
    requires s'.dev == s.dev && s'.root == s.root && s.inodes[z].id == 0 && s'.inodes[z].id == 0
    requires forall y | 0 <= y < |s.inodes| && y != z :: s'.inodes[y] == s.inodes[y]
    ensures TidyFs(s') && Steady(s, s')
  {
    hide FsOk, Tidy, Lookup, FindInode;
    InodesOnDevice(s');
    forall id: nat | id != 0 ensures FindInode(s'.inodes, id, 0) == FindInode(s.inodes, id, 0) {
      FindInodeSame(s.inodes, s'.inodes, z, id, 0);
    }
    forall y: nat | y < |s'.inodes| ensures DirOk(s', y) && KeepsSlot(s, s', y) {
      assert DirOk(s, y);
      if y != z && s.inodes[y].id != 0 && s.inodes[y].kind == Dir {
        forall nm | LookupAt(s', y, nm).Some? ensures FindInode(s'.inodes, LookupAt(s', y, nm).value, 0).Some? {
          assert LookupAt(s, y, nm) == LookupAt(s', y, nm);
        }
      }
    }
  }
}
