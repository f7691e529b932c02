/** Whole runs of AevOSFS: any sequence of writes and creations. */
module FsRuns {
  import opened Bytes
  import opened Counting
  import opened FsSpec
  import opened FsDir
  import opened FsSlots
  import opened FsCreate

  /** All that any aevosfs_write through inode x does, whatever the device answers. */
  ghost predicate WriteStep(s: Fs, s': Fs, x: nat) {
    FsOk(s) && FsOk(s') && OnlyInode(s, s', x)
  }

  ghost predicate CreateStep(s: Fs, s': Fs, path: seq<byte>, kind: Kind) {
    FsOk(s) && s' == Create(s, path, kind).s
  }

  /** One operation: aevosfs_write through some inode, or aevosfs_create of some path. */
  ghost predicate Next(s: Fs, s': Fs) {
    || (exists x :: WriteStep(s, s', x))
    || (exists path, kind :: CreateStep(s, s', path, kind))
  }

  ghost predicate IsRun(ss: seq<Fs>) {
    |ss| >= 1 && FsOk(ss[0]) && forall i | 0 <= i < |ss| - 1 :: Next(ss[i], ss[i + 1])
  }

  /** What any operation does to the allocator and to the blocks of a file in slot x. */
  ghost predicate Advances(s: Fs, s': Fs) {
    && FsOk(s') && s'.total == s.total && s.logHead <= s'.logHead && s'.root == s.root
    && (forall b | b in s.owner :: b in s'.owner && s'.owner[b] == s.owner[b])
    && (forall b | b in s'.owner :: b in s.owner || s.logHead <= b)
  }

  ghost predicate IsFile(s: Fs, x: nat) {
    x < |s.inodes| && s.inodes[x].id != 0 && s.inodes[x].kind == File
  }

  ghost predicate KeepsFile(s: Fs, s': Fs, x: nat) {
    IsFile(s, x) ==>
      && |s'.inodes| == |s.inodes| && |s'.dev| == |s.dev|
      && s'.inodes[x].id == s.inodes[x].id && s'.inodes[x].kind == File
      && forall b | b in s.owner && s.owner[b].0 == x && b < |s.dev| :: s'.dev[b] == s.dev[b]
  }

  lemma WriteAdvances(s: Fs, s': Fs, y: nat, x: nat)
    requires WriteStep(s, s', y)
    ensures Advances(s, s') && KeepsFile(s, s', x)
  {
  }

  lemma CreateInAdvances(s: Fs, y: nat, name: seq<byte>, kind: Kind, x: nat)
    requires FsOk(s) && y < MAX_INODES && s.inodes[y].id != 0 && s.inodes[y].kind == Dir && |name| <= NAME_MAX
    ensures Advances(s, CreateIn(s, y, name, kind).s) && KeepsFile(s, CreateIn(s, y, name, kind).s, x)
  {
    CreateInKeepsOk(s, y, name, kind);
    if CreateIn(s, y, name, kind).rc == 0 {
      hide AddEntry, CreateIn, FsOk;
      BoundsOf(s, y);
      var z := CreateInFacts(s, y, name, kind);
      OnlyDirectoryAdvances(s, NewInode(s, z, kind), CreateIn(s, y, name, kind).s, y, z, x, kind);
    }
  }

  lemma OnlyDirectoryAdvances(s: Fs, s1: Fs, s': Fs, y: nat, z: nat, x: nat, kind: Kind)
    requires FsOk(s) && FsOk(s') && z < |s.inodes| && s1 == NewInode(s, z, kind) && OnlyDirectory(s1, s', y)
    requires y != z && s.inodes[z].id == 0 && s.inodes[y].kind == Dir
    ensures Advances(s, s') && KeepsFile(s, s', x)
  {
  }

  lemma CreateAdvances(s: Fs, path: seq<byte>, kind: Kind, x: nat)
    requires FsOk(s)
    ensures Advances(s, Create(s, path, kind).s) && KeepsFile(s, Create(s, path, kind).s, x)
  {
    hide FsOk, CreateIn, Resolve, NameOf, Advances, KeepsFile;
    Unchanged(s, x);
    InodesOnDevice(s);
    if path != [] && path[0] == SLASH {
      match LastSlash(Take(path, PATH_MAX), |Take(path, PATH_MAX)|) {
        case None =>
        case Some(slash) =>
          match Resolve(s, ParentOf(path, slash)) {
            case None =>
            case Some(y) =>
              ResolvedHasId(s, ParentOf(path, slash));
              if s.inodes[y].kind == Dir { CreateInAdvances(s, y, NameOf(path, slash), kind, x); }
          }
      }
    }
  }

  lemma Unchanged(s: Fs, x: nat)
    requires FsOk(s)
    ensures Advances(s, s) && KeepsFile(s, s, x)
  {
  }

  lemma NextAdvances(s: Fs, s': Fs, x: nat)
    requires Next(s, s')
    ensures FsOk(s) && Advances(s, s') && KeepsFile(s, s', x)
  {
    hide FsOk, Advances, KeepsFile, OnlyInode, Create;
    if exists y :: WriteStep(s, s', y) {
      var y :| WriteStep(s, s', y);
      WriteAdvances(s, s', y, x);
    } else {
      var path, kind :| CreateStep(s, s', path, kind);
      CreateAdvances(s, path, kind, x);
    }
  }

  /** Over every run the allocator is conserved, blocks are only ever handed out once, and every block of a
      file keeps its content from the moment it is written. */
  lemma {:induction false} RunAdvances(ss: seq<Fs>, x: nat)
    requires IsRun(ss)
    ensures var s, s' := ss[0], ss[|ss| - 1];
            FsOk(s') && Advances(s, s') && KeepsFile(s, s', x)
            && s'.logHead + s'.free == s'.total == s.total
    decreases |ss|
  {
    if |ss| == 1 {
      Unchanged(ss[0], x);
    } else {
      var front := ss[..|ss| - 1];
      var s, m, s' := ss[0], front[|front| - 1], ss[|ss| - 1];
      assert forall i | 0 <= i < |front| - 1 :: Next(front[i], front[i + 1]) by {
        forall i | 0 <= i < |front| - 1 ensures Next(front[i], front[i + 1]) {
          assert Next(ss[i], ss[i + 1]);
        }
      }
      RunAdvances(front, x);
      assert Next(ss[|ss| - 2], ss[|ss| - 1]);
      NextAdvances(m, s', x);
      AdvancesTwice(s, m, s', x);
    }
  }

  lemma AdvancesTwice(s: Fs, m: Fs, s': Fs, x: nat)
    requires FsOk(s) && Advances(s, m) && Advances(m, s') && KeepsFile(s, m, x) && KeepsFile(m, s', x)
    ensures Advances(s, s') && KeepsFile(s, s', x)
  {
  }

  /** Copy-on-write snapshots: an inode saved from a file reads the same bytes after any run. */
  lemma SnapshotSurvives(ss: seq<Fs>, x: nat, p: nat, end: nat)
    requires IsRun(ss) && IsFile(ss[0], x)
    ensures var saved := ss[0].inodes[x];
            var s, s' := ss[0], ss[|ss| - 1];
            && OnDevice(s.dev, saved) && OnDevice(s'.dev, saved)
            && ReadFrom(s'.dev, saved, p, end) == ReadFrom(s.dev, saved, p, end)
  {
    hide ReadFrom, Next;
    RunAdvances(ss, x);
    var s, s' := ss[0], ss[|ss| - 1];
    BoundsOf(s, x);
    ReadSameBlocks(s.dev, s'.dev, s.inodes[x], p, end);
  }

  /** A write through one inode leaves every other file and directory as it was. */
  lemma WriteFrames(s: Fs, s': Fs, x: nat, y: nat, nm: seq<byte>)
    requires WriteStep(s, s', x) && y < MAX_INODES && y != x
    ensures s'.inodes[y] == s.inodes[y] && OnDevice(s.dev, s.inodes[y]) && OnDevice(s'.dev, s'.inodes[y])
    ensures Contents(s', y) == Contents(s, y) && LookupAt(s', y, nm) == LookupAt(s, y, nm)
  {
    hide ReadFrom, Lookup;
    BoundsOf(s, y);
    BoundsOf(s', y);
    ReadSameBlocks(s.dev, s'.dev, s.inodes[y], 0, s.inodes[y].size);
    LookupSame(s.dev, s'.dev, s.inodes[y].blocks, nm, 0);
  }

  // ----- Paths over whole runs.

  /** aevosfs_write to a file, whatever the device answers, or aevosfs_create of any path. */
  ghost predicate PathStep(s: Fs, s': Fs) {
    || (exists x :: IsFile(s, x) && WriteStep(s, s', x))
    || (exists path, kind :: CString(path) && CreateStep(s, s', path, kind))
  }

  ghost predicate IsPathRun(ss: seq<Fs>) {
    |ss| >= 1 && TidyFs(ss[0]) && forall i | 0 <= i < |ss| - 1 :: PathStep(ss[i], ss[i + 1])
  }

  lemma WriteKeepsTidy(s: Fs, s': Fs, x: nat)
    requires TidyFs(s) && IsFile(s, x) && WriteStep(s, s', x)
    ensures TidyFs(s') && Steady(s, s') && s'.nextId == s.nextId
  {
    hide Tidy, Lookup, FindInode, FsOk, CopyOnWrite;
    InodesOnDevice(s');
    BoundsOf(s, 0);
    WriteKeepsIds(s.inodes, s'.inodes, x);
    forall y: nat | y < |s'.inodes| ensures DirOk(s', y) && KeepsSlot(s, s', y) {
      assert DirOk(s, y);
      if y != x { OtherInodeSame(s, s', x, y); }
    }
  }

  lemma WriteKeepsIds(a: seq<Inode>, b: seq<Inode>, x: nat)
    requires x < |a| == |b| && a[x].id == b[x].id && forall y | 0 <= y < |a| && y != x :: b[y] == a[y]
    ensures forall id: nat :: FindInode(b, id, 0) == FindInode(a, id, 0)
  {
    hide FindInode;
    forall id: nat ensures FindInode(b, id, 0) == FindInode(a, id, 0) { SameIds(a, b, id, 0); }
  }

  lemma {:induction false} SameIds(a: seq<Inode>, b: seq<Inode>, id: nat, i: nat)
    requires |a| == |b| && i <= |a| && forall y | 0 <= y < |a| :: b[y].id == a[y].id
    ensures FindInode(b, id, i) == FindInode(a, id, i)
    decreases |a| - i
  {
    if i < |a| { SameIds(a, b, id, i + 1); }
  }

  lemma OtherInodeSame(s: Fs, s': Fs, x: nat, y: nat)
    requires WriteStep(s, s', x) && y < MAX_INODES && y != x && |s.inodes| == MAX_INODES && OnDevice(s.dev, s.inodes[y])
    requires forall id: nat :: FindInode(s'.inodes, id, 0) == FindInode(s.inodes, id, 0)
    ensures y < |s'.inodes| && OnDevice(s'.dev, s'.inodes[y]) && s'.inodes[y] == s.inodes[y]
    ensures forall nm :: LookupAt(s', y, nm) == LookupAt(s, y, nm)
    ensures DirOk(s, y) ==> DirOk(s', y)
  {
    hide Tidy, Lookup, FindInode, FsOk, ReadFrom;
    BoundsOf(s, y);
    BoundsOf(s', y);
    forall nm ensures LookupAt(s', y, nm) == LookupAt(s, y, nm) { WriteFrames(s, s', x, y, nm); }
    if DirOk(s, y) && s.inodes[y].id != 0 && s.inodes[y].kind == Dir {
      TidySame(s.dev, s'.dev, s.inodes[y].blocks);
    }
  }

  /** The name that aevosfs_create enters is a C string, and its parent a directory. */
  lemma CreateKeepsTidy(s: Fs, path: seq<byte>, kind: Kind)
    requires TidyFs(s) && CString(path) && s.nextId < U64
    ensures TidyFs(Create(s, path, kind).s) && Steady(s, Create(s, path, kind).s)
    ensures s.nextId <= Create(s, path, kind).s.nextId <= s.nextId + 1
  {
    hide FsOk, CreateIn, Resolve, NameOf, Tidy, DirOk, Steady;
    SteadySelf(s);
    InodesOnDevice(s);
    if path != [] && path[0] == SLASH {
      match LastSlash(Take(path, PATH_MAX), |Take(path, PATH_MAX)|) {
        case None =>
        case Some(slash) =>
          match Resolve(s, ParentOf(path, slash)) {
            case None =>
            case Some(x) =>
              ResolvedHasId(s, ParentOf(path, slash));
              if s.inodes[x].kind == Dir {
                NameIsString(path, slash);
                CreateInKeepsTidy(s, x, NameOf(path, slash), kind);
                NextIdAfter(s, x, NameOf(path, slash), kind);
              }
          }
      }
    }
  }

  lemma NameIsString(path: seq<byte>, slash: nat)
    requires CString(path) && path != [] && slash < |Take(path, PATH_MAX)|
    ensures CString(NameOf(path, slash))
  {
  }

  lemma NextIdAfter(s: Fs, x: nat, name: seq<byte>, kind: Kind)
    requires FsOk(s) && x < MAX_INODES && s.inodes[x].id != 0 && |name| <= NAME_MAX
    ensures s.nextId <= CreateIn(s, x, name, kind).s.nextId <= s.nextId + 1
  {
    hide FsOk, AddEntry, FindInode;
    if FindInode(s.inodes, 0, 0).Some? {
      var z := FindInode(s.inodes, 0, 0).value;
      BoundsOf(s, x);
      NewInodeKeepsOk(s, z, kind);
      BoundsOf(NewInode(s, z, kind), x);
      AddEntryIsLocal(NewInode(s, z, kind), x, name, s.nextId, kind);
    }
  }

  lemma StepKeepsTidy(s: Fs, s': Fs)
    requires TidyFs(s) && PathStep(s, s') && s.nextId < U64
    ensures TidyFs(s') && Steady(s, s') && s.nextId <= s'.nextId <= s.nextId + 1
  {
    hide FsOk, TidyFs, Steady, Create, OnlyInode;
    if exists x :: IsFile(s, x) && WriteStep(s, s', x) {
      var x :| IsFile(s, x) && WriteStep(s, s', x);
      WriteKeepsTidy(s, s', x);
    } else {
      var path, kind :| CString(path) && CreateStep(s, s', path, kind);
      CreateKeepsTidy(s, path, kind);
    }
  }

  /** Over every run from a mount, of writes to files and of creations, with names that are new or already there and
      successful or not, every directory stays tidy, and a path that once resolved resolves to the same inode. */
  lemma {:induction false} PathsSurvive(ss: seq<Fs>, i: nat, path: seq<byte>)
    requires IsPathRun(ss) && i < |ss| && ss[0].nextId + |ss| < U64
    ensures var s, s' := ss[i], ss[|ss| - 1];
            && TidyFs(s) && TidyFs(s') && s'.nextId <= ss[0].nextId + |ss| - 1
            && (Resolve(s, path).Some? ==> Resolve(s', path) == Resolve(s, path))
    decreases |ss|
  {
    hide FsOk, TidyFs, Steady, PathStep, Resolve, BlocksInDevice;
    if |ss| > 1 {
      var front := ss[..|ss| - 1];
      var m, s' := front[|front| - 1], ss[|ss| - 1];
      assert forall j | 0 <= j < |front| - 1 :: PathStep(front[j], front[j + 1]) by {
        forall j | 0 <= j < |front| - 1 ensures PathStep(front[j], front[j + 1]) {
          assert PathStep(ss[j], ss[j + 1]);
        }
      }
      PathsSurvive(front, if i < |front| then i else |front| - 1, path);
      assert PathStep(ss[|ss| - 2], ss[|ss| - 1]);
      StepKeepsTidy(m, s');
      TidyMeans(m);
      TidyMeans(s');
      TidyMeans(ss[i]);
      ResolveKeeps(m, s', path);
    } else {
      TidyMeans(ss[0]);
    }
  }

  lemma TidyMeans(s: Fs)
    requires TidyFs(s)
    ensures FsOk(s) && BlocksInDevice(s) && s.root != 0
  {
    Basics(s);
  }

  /** On a tidy volume a successful creation leaves its path resolving, to the inode it had if it resolved before and
      else to the new one, if and only if the name has 1 to 127 characters; an empty name leads to the parent. */
  lemma CreationExactly(s: Fs, path: seq<byte>, slash: nat, kind: Kind, x: nat) returns (z: nat)
    requires TidyFs(s) && s.nextId < U64 && Splits(path, slash)
    requires Resolve(s, ParentOf(path, slash)) == Some(x) && Create(s, path, kind).rc == 0
    ensures var s' := Create(s, path, kind).s;
            var name := path[slash + 1..];
            && TidyFs(s') && z < MAX_INODES && s.inodes[z].id == 0 && s'.inodes[z].id == s.nextId
            && s'.inodes[z].kind == kind && Unwritten(s'.inodes[z])
            && (1 <= |name| <= NAME_MAX ==>
                  Resolve(s', path) == if Resolve(s, path).Some? then Resolve(s, path) else Some(z))
            && (name == [] ==> Resolve(s', path) == Some(x))
            && (|name| > NAME_MAX ==> Resolve(s', path) == Resolve(s, path))
            && (1 <= |name| <= NAME_MAX && Resolve(s, path).Some? ==> forall p :: Resolve(s', p) == Resolve(s, p))
  {
    hide FsOk, CreateIn, Resolve, Components, FindInode, Lookup, Tidy, BlocksInDevice;
    CreateKeepsTidy(s, path, kind);
    TidyMeans(s);
    ResolvedHasId(s, ParentOf(path, slash));
    DirOfCreate(s, path, slash, kind, x);
    assert DirOk(s, x);
    NameIsCString(path, slash);
    z := PathCreation(s, path, slash, kind, x);
    PresentResolves(s, path, slash, x);
    if LookupAt(s, x, NameOf(path, slash)).Some? {
      forall p ensures Resolve(Create(s, path, kind).s, p) == Resolve(s, p) {
        PresentName(s, path, slash, kind, x, p);
      }
    }
  }

  /** Creating a name that is there changes what no path resolves to. */
  lemma PresentName(s: Fs, path: seq<byte>, slash: nat, kind: Kind, x: nat, p: seq<byte>)
    requires TidyFs(s) && s.nextId < U64 && Splits(path, slash)
    requires Resolve(s, ParentOf(path, slash)) == Some(x) && Create(s, path, kind).rc == 0
    requires OnDevice(s.dev, s.inodes[x]) && LookupAt(s, x, NameOf(path, slash)).Some?
    ensures BlocksInDevice(Create(s, path, kind).s) && Resolve(Create(s, path, kind).s, p) == Resolve(s, p)
  {
    hide FsOk, CreateIn, Walk, Components, FindInode, Lookup, Tidy, SameEntries, Steady, Create;
    CreateKeepsTidy(s, path, kind);
    ResolvedHasId(s, ParentOf(path, slash));
    DirOfCreate(s, path, slash, kind, x);
    CreateIsCreateIn(s, path, slash, kind, x);
    NameIsCString(path, slash);
    forall nm ensures SameEntries(s, Create(s, path, kind).s, nm) {
      PresentChangesNothing(s, x, NameOf(path, slash), kind, nm);
    }
    ResolveSame(s, Create(s, path, kind).s, p);
  }

  /** A present name of 1 to 127 characters resolves. */
  lemma PresentResolves(s: Fs, path: seq<byte>, slash: nat, x: nat)
    requires TidyFs(s) && Splits(path, slash) && Resolve(s, ParentOf(path, slash)) == Some(x)
    requires s.inodes[x].id != 0 && s.inodes[x].kind == Dir && OnDevice(s.dev, s.inodes[x])
    ensures var name := path[slash + 1..];
            1 <= |name| <= NAME_MAX ==> (Resolve(s, path).Some? <==> LookupAt(s, x, name).Some?)
  {
    hide FsOk, Components, FindInode, Lookup, Tidy, Resolve;
    var name := path[slash + 1..];
    NameIsCString(path, slash);
    SplitComponents(path, slash);
    ComponentsOfName(name);
    ResolveJoin(s, ParentOf(path, slash), path, name);
    assert DirOk(s, x);
    if 1 <= |name| <= NAME_MAX { WalkOne(s, x, name); }
  }

  lemma WalkOne(s: Fs, x: nat, name: seq<byte>)
    requires BlocksInDevice(s) && x < |s.inodes| && s.inodes[x].kind == Dir
    requires OnDevice(s.dev, s.inodes[x]) && LiveAt(s, x)
    ensures Walk(s, x, [name]).Some? <==> LookupAt(s, x, name).Some?
  {
    hide FindInode, Lookup;
    assert [name][0] == name && [name][1..] == [];
  }
}
