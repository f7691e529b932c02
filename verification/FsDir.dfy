/** Directory blocks, path components and path resolution of AevOSFS. */
module FsDir {
  import opened Bytes
  import opened FsSpec

  const ENTRY_SIZE: nat := 140
  const PER_BLOCK: nat := 29
  const NAME_MAX: nat := 127
  const SLASH: byte := 47

  /** The string a character array holds: up to the first zero byte. */
  function CStr(s: seq<byte>): (r: seq<byte>)
    ensures |r| <= |s|
  {
    if s == [] || s[0] == 0 then [] else [s[0]] + CStr(s[1..])
  }

  // ----- Directory entries in a block.

  function SlotId(b: Block, i: nat): nat
    requires i < PER_BLOCK
  {
    FromLe(b[ENTRY_SIZE * i..ENTRY_SIZE * i + 8])
  }

  function SlotName(b: Block, i: nat): seq<byte>
    requires i < PER_BLOCK
  {
    CStr(b[ENTRY_SIZE * i + 8..ENTRY_SIZE * i + 136])
  }

  function SlotKind(b: Block, i: nat): nat
    requires i < PER_BLOCK
  {
    FromLe(b[ENTRY_SIZE * i + 136..ENTRY_SIZE * i + 140])
  }

  function KindCode(k: Kind): nat { if k.File? then 0 else 1 }

  function Zeros(n: nat): (s: seq<byte>)
    ensures |s| == n
  {
    seq<byte>(n, _ => 0)
  }

  /** aevosfs_dir_entry_t, packed. */
  function EntryBytes(id: nat, name: seq<byte>, kind: Kind): (s: seq<byte>)
    requires |name| <= NAME_MAX
    ensures |s| == ENTRY_SIZE
  {
    Le(id, 8) + (name + Zeros(128 - |name|)) + Le(KindCode(kind), 4)
  }

  function SetSlot(b: Block, i: nat, id: nat, name: seq<byte>, kind: Kind): (r: Block)
    requires i < PER_BLOCK && |name| <= NAME_MAX
  {
    b[..ENTRY_SIZE * i] + EntryBytes(id, name, kind) + b[ENTRY_SIZE * i + ENTRY_SIZE..]
  }

  lemma {:induction false} CStrOfPadded(name: seq<byte>, n: nat)
    requires CString(name) && 0 < n
    ensures CStr(name + Zeros(n)) == name
  {
    if name == [] {
      assert name + Zeros(n) == Zeros(n);
    } else {
      assert (name + Zeros(n))[1..] == name[1..] + Zeros(n);
      CStrOfPadded(name[1..], n);
    }
  }

  lemma SetSlotHere(b: Block, i: nat, id: nat, name: seq<byte>, kind: Kind)
    requires i < PER_BLOCK && |name| <= NAME_MAX && CString(name) && id < U64
    ensures SlotId(SetSlot(b, i, id, name, kind), i) == id
    ensures SlotName(SetSlot(b, i, id, name, kind), i) == name
    ensures SlotKind(SetSlot(b, i, id, name, kind), i) == if kind == File then 0 else 1
  {
    hide Le, FromLe, CStr, Pow256;
    var r, e := SetSlot(b, i, id, name, kind), EntryBytes(id, name, kind);
    var at := ENTRY_SIZE * i;
    assert r[at..at + 8] == e[..8] == Le(id, 8);
    assert r[at + 8..at + 136] == e[8..136] == name + Zeros(128 - |name|);
    Pow256Values();
    LeRoundTrip(id, 8);
    assert r[at + 136..at + 140] == e[136..140] == Le(KindCode(kind), 4);
    LeRoundTrip(KindCode(kind), 4);
    CStrOfPadded(name, 128 - |name|);
  }

  lemma SetSlotElsewhere(b: Block, i: nat, id: nat, name: seq<byte>, kind: Kind, j: nat)
    requires i < PER_BLOCK && j < PER_BLOCK && i != j && |name| <= NAME_MAX
    ensures SlotId(SetSlot(b, i, id, name, kind), j) == SlotId(b, j)
    ensures SlotName(SetSlot(b, i, id, name, kind), j) == SlotName(b, j)
    ensures SlotKind(SetSlot(b, i, id, name, kind), j) == SlotKind(b, j)
  {
    hide EntryBytes, CStr, FromLe;
    var r := SetSlot(b, i, id, name, kind);
    var at := ENTRY_SIZE * j;
    assert r[at..at + ENTRY_SIZE] == b[at..at + ENTRY_SIZE];
    SliceOfSlice(r, at, at + ENTRY_SIZE, 0, 8);
    SliceOfSlice(b, at, at + ENTRY_SIZE, 0, 8);
    SliceOfSlice(r, at, at + ENTRY_SIZE, 8, 136);
    SliceOfSlice(b, at, at + ENTRY_SIZE, 8, 136);
    SliceOfSlice(r, at, at + ENTRY_SIZE, 136, 140);
    SliceOfSlice(b, at, at + ENTRY_SIZE, 136, 140);
  }

  // ----- Looking a name up.

  /** The first entry from slot i on with this name. */
  function LookupBlock(b: Block, name: seq<byte>, i: nat): (id: Option<nat>)
    requires i <= PER_BLOCK
    ensures id.Some? ==> id.value != 0
    decreases PER_BLOCK - i
  {
    if i == PER_BLOCK then None
    else if SlotId(b, i) != 0 && SlotName(b, i) == name then Some(SlotId(b, i))
    else LookupBlock(b, name, i + 1)
  }

  /** The directory scan: block by block, up to the first empty place of the block list. */
  function Lookup(dev: seq<Block>, blocks: seq<nat>, name: seq<byte>, k: nat): (id: Option<nat>)
    requires k <= |blocks| && forall i | 0 <= i < |blocks| :: blocks[i] < |dev|
    ensures id.Some? ==> id.value != 0
    decreases |blocks| - k
  {
    if k == |blocks| || blocks[k] == 0 then None
    else match LookupBlock(dev[blocks[k]], name, 0) {
      case Some(id) => Some(id)
      case None => Lookup(dev, blocks, name, k + 1)
    }
  }

  // ----- Paths.

  ghost predicate NoSlash(p: seq<byte>) {
    forall i | 0 <= i < |p| :: p[i] != SLASH
  }

  function RunLen(p: seq<byte>, limit: nat): (n: nat)
    ensures n <= |p| && n <= limit
    ensures limit > 0 && p != [] && p[0] != SLASH ==> n > 0
    decreases limit
  {
    if limit == 0 || p == [] || p[0] == SLASH then 0 else 1 + RunLen(p[1..], limit - 1)
  }

  /** The components the path walk visits: a run of more than 127 characters falls apart. */
  function Components(p: seq<byte>): seq<seq<byte>>
    decreases |p|
  {
    if p == [] then []
    else if p[0] == SLASH then Components(p[1..])
    else
      var n := RunLen(p, NAME_MAX);
      [p[..n]] + Components(p[n..])
  }

  /** find_inode: the first slot that holds the id. */
  function FindInode(inodes: seq<Inode>, id: nat, i: nat): (x: Option<nat>)
    requires i <= |inodes|
    ensures x.Some? ==> i <= x.value < |inodes| && inodes[x.value].id == id
    decreases |inodes| - i
  {
    if i == |inodes| then None
    else if inodes[i].id == id then Some(i)
    else FindInode(inodes, id, i + 1)
  }

  ghost predicate BlocksInDevice(s: Fs) {
    forall x, i | 0 <= x < |s.inodes| && 0 <= i < |s.inodes[x].blocks| :: s.inodes[x].blocks[i] < |s.dev|
  }

  function Walk(s: Fs, x: nat, comps: seq<seq<byte>>): (r: Option<nat>)
    requires x < |s.inodes| && BlocksInDevice(s)
    ensures r.Some? ==> r.value < |s.inodes|
    decreases |comps|
  {
    if comps == [] then Some(x)
    else if s.inodes[x].kind != Dir then None
    else match Lookup(s.dev, s.inodes[x].blocks, comps[0], 0) {
      case None => None
      case Some(id) =>
        match FindInode(s.inodes, id, 0) {
          case None => None
          case Some(y) => Walk(s, y, comps[1..])
        }
    }
  }

  /** resolve_path_internal. */
  function Resolve(s: Fs, path: seq<byte>): (r: Option<nat>)
    requires BlocksInDevice(s)
    ensures r.Some? ==> r.value < |s.inodes|
  {
    match FindInode(s.inodes, s.root, 0) {
      case None => None
      case Some(x) => Walk(s, x, Components(path))
    }
  }

  lemma {:induction false} RunLenStops(p: seq<byte>, rest: seq<byte>, limit: nat)
    ensures RunLen(p + [SLASH] + rest, limit) == RunLen(p, limit)
    decreases limit
  {
    var q := p + [SLASH] + rest;
    if limit > 0 && p != [] && p[0] != SLASH {
      assert q[1..] == p[1..] + [SLASH] + rest;
      RunLenStops(p[1..], rest, limit - 1);
    } else if p == [] {
      assert q[0] == SLASH;
    }
  }

  lemma {:induction false} RunLenWhole(p: seq<byte>, limit: nat)
    requires |p| <= limit && NoSlash(p)
    ensures RunLen(p, limit) == |p|
    decreases limit
  {
    if p != [] { RunLenWhole(p[1..], limit - 1); }
  }

  lemma {:induction false} ComponentsStep(p: seq<byte>)
    requires p != []
    ensures p[0] == SLASH ==> Components(p) == Components(p[1..])
    ensures p[0] != SLASH ==>
              var n := RunLen(p, NAME_MAX);
              1 <= n <= |p| && Components(p) == [p[..n]] + Components(p[n..])
  {
  }

  /** Joining two paths joins their components. */
  lemma {:induction false} ComponentsJoin(p: seq<byte>, rest: seq<byte>)
    ensures Components(p + [SLASH] + rest) == Components(p) + Components(rest)
    decreases |p|
  {
    hide RunLen, Components;
    var q := p + [SLASH] + rest;
    ComponentsStep(q);
    if p == [] {
      assert q[1..] == rest;
      NoComponents();
    } else {
      ComponentsStep(p);
      if p[0] == SLASH {
        assert q[1..] == p[1..] + [SLASH] + rest;
        ComponentsJoin(p[1..], rest);
      } else {
        RunLenStops(p, rest, NAME_MAX);
        var n := RunLen(p, NAME_MAX);
        assert q[..n] == p[..n] && q[n..] == p[n..] + [SLASH] + rest;
        ComponentsJoin(p[n..], rest);
      }
    }
  }

  lemma NoComponents()
    ensures Components([]) == [] && Components([SLASH]) == []
  {
    assert [SLASH][1..] == [];
  }

  lemma {:induction false} RunLenCapped(p: seq<byte>, limit: nat)
    requires limit <= |p| && NoSlash(p)
    ensures RunLen(p, limit) == limit
    decreases limit
  {
    if limit > 0 { RunLenCapped(p[1..], limit - 1); }
  }

  /** A name is one component exactly when it has between 1 and 127 characters. */
  lemma ComponentsOfName(name: seq<byte>)
    requires NoSlash(name)
    ensures name == [] ==> Components(name) == []
    ensures 0 < |name| <= NAME_MAX ==> Components(name) == [name]
    ensures |name| > NAME_MAX ==> |Components(name)| >= 2 && Components(name)[0] == name[..NAME_MAX]
  {
    if 0 < |name| <= NAME_MAX {
      RunLenWhole(name, NAME_MAX);
      assert name[..|name|] == name && name[|name|..] == [];
    } else if |name| > NAME_MAX {
      RunLenCapped(name, NAME_MAX);
      assert name[NAME_MAX..] != [] && name[NAME_MAX..][0] != SLASH;
      assert Components(name) == [name[..NAME_MAX]] + Components(name[NAME_MAX..]);
      assert |Components(name[NAME_MAX..])| >= 1;
    }
  }
}
