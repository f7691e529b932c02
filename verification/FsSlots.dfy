/** The slots of a directory: where a new entry goes and what a lookup finds afterwards. */
module FsSlots {
  import opened Bytes
  import opened FsSpec
  import opened FsDir

  // ----- Where the entry goes.

  function FreeSlot(b: Block, i: nat): (r: nat)
    requires i <= PER_BLOCK
    ensures i <= r <= PER_BLOCK
    ensures r < PER_BLOCK ==> SlotId(b, r) == 0
    ensures forall j | i <= j < r :: SlotId(b, j) != 0
    decreases PER_BLOCK - i
  {
    if i == PER_BLOCK || SlotId(b, i) == 0 then i else FreeSlot(b, i + 1)
  }

  datatype Place = Nowhere | Place(k: nat, i: nat)

  /** The first free slot of the directory's blocks. */
  function FreePlace(dev: seq<Block>, blocks: seq<nat>, k: nat): (p: Place)
    requires k <= |blocks| && forall i | 0 <= i < |blocks| :: blocks[i] < |dev|
    ensures p.Place? ==> k <= p.k < |blocks| && p.i < PER_BLOCK && SlotId(dev[blocks[p.k]], p.i) == 0
    ensures p.Place? ==> forall j | k <= j <= p.k :: blocks[j] != 0
    decreases |blocks| - k
  {
    if k == |blocks| || blocks[k] == 0 then Nowhere
    else
      var i := FreeSlot(dev[blocks[k]], 0);
      if i < PER_BLOCK then Place(k, i) else FreePlace(dev, blocks, k + 1)
  }

  /** The first empty place of the block list. */
  function EmptyPlace(blocks: seq<nat>, k: nat): (r: nat)
    requires k <= |blocks|
    ensures k <= r <= |blocks|
    ensures r < |blocks| ==> blocks[r] == 0
    ensures forall j | k <= j < r :: blocks[j] != 0
    decreases |blocks| - k
  {
    if k == |blocks| || blocks[k] == 0 then k else EmptyPlace(blocks, k + 1)
  }

  // ----- What a lookup sees afterwards.

  /** Filling a free slot hides no entry, and shows the new name if it was absent. */
  lemma {:induction false} LookupBlockAfter(b: Block, i: nat, id: nat, name: seq<byte>, kind: Kind, nm: seq<byte>,
      j: nat)
    requires i < PER_BLOCK && j <= PER_BLOCK && SlotId(b, i) == 0
    requires |name| <= NAME_MAX && CString(name) && 0 < id < U64
    ensures var b' := SetSlot(b, i, id, name, kind);
            && (nm != name ==> LookupBlock(b', nm, j) == LookupBlock(b, nm, j))
            && (nm == name && LookupBlock(b, name, j).None? && j <= i ==> LookupBlock(b', name, j) == Some(id))
    decreases PER_BLOCK - j
  {
    hide SetSlot, SlotId, SlotName;
    if j < PER_BLOCK {
      LookupBlockAfter(b, i, id, name, kind, nm, j + 1);
      if j == i {
        SetSlotHere(b, i, id, name, kind);
      } else {
        SetSlotElsewhere(b, i, id, name, kind, j);
      }
    }
  }

  /** A lookup sees only the directory's own blocks. */
  lemma {:induction false} LookupSame(dev: seq<Block>, dev': seq<Block>, blocks: seq<nat>, nm: seq<byte>, k: nat)
    requires k <= |blocks| && forall i | 0 <= i < |blocks| :: blocks[i] < |dev| && blocks[i] < |dev'|
    requires forall i | k <= i < |blocks| && blocks[i] != 0 :: dev'[blocks[i]] == dev[blocks[i]]
    ensures Lookup(dev', blocks, nm, k) == Lookup(dev, blocks, nm, k)
    decreases |blocks| - k
  {
    hide LookupBlock;
    if k < |blocks| && blocks[k] != 0 { LookupSame(dev, dev', blocks, nm, k + 1); }
  }

  lemma {:induction false} LookupAfterFill(dev: seq<Block>, blocks: seq<nat>, k0: nat, i: nat, id: nat,
      name: seq<byte>, kind: Kind, nm: seq<byte>, k: nat)
    requires k <= k0 < |blocks| && forall j | 0 <= j < |blocks| :: blocks[j] < |dev|
    requires i < PER_BLOCK && SlotId(dev[blocks[k0]], i) == 0
    requires forall j | 0 <= j <= k0 :: blocks[j] != 0
    requires forall j | 0 <= j < |blocks| && j != k0 :: blocks[j] != blocks[k0]
    requires |name| <= NAME_MAX && CString(name) && 0 < id < U64
    ensures var dev' := dev[blocks[k0] := SetSlot(dev[blocks[k0]], i, id, name, kind)];
            && (nm != name ==> Lookup(dev', blocks, nm, k) == Lookup(dev, blocks, nm, k))
            && (nm == name && Lookup(dev, blocks, name, k).None? ==> Lookup(dev', blocks, name, k) == Some(id))
    decreases k0 - k
  {
    hide LookupBlock, SetSlot, SlotId;
    var b := dev[blocks[k0]];
    var dev' := dev[blocks[k0] := SetSlot(b, i, id, name, kind)];
    if k == k0 {
      LookupBlockAfter(b, i, id, name, kind, nm, 0);
      LookupSame(dev, dev', blocks, nm, k0 + 1);
    } else {
      LookupAfterFill(dev, blocks, k0, i, id, name, kind, nm, k + 1);
    }
  }

  lemma {:induction false} FreshBlockHas(id: nat, name: seq<byte>, kind: Kind)
    requires |name| <= NAME_MAX && CString(name) && 0 < id < U64
    ensures LookupBlock(SetSlot(ZeroBlock(), 0, id, name, kind), name, 0) == Some(id)
  {
    hide SetSlot;
    SetSlotHere(ZeroBlock(), 0, id, name, kind);
  }

  lemma {:induction false} LookupAfterNewBlock(dev: seq<Block>, blocks: seq<nat>, e: nat, blk: nat, id: nat,
      name: seq<byte>, kind: Kind, nm: seq<byte>, k: nat)
    requires k <= e < |blocks| && forall j | 0 <= j < |blocks| :: blocks[j] < blk
    requires 0 < blk < |dev| && blocks[e] == 0 && forall j | 0 <= j < e :: blocks[j] != 0
    requires |name| <= NAME_MAX && CString(name) && 0 < id < U64
    ensures var dev', blocks' := dev[blk := SetSlot(ZeroBlock(), 0, id, name, kind)], blocks[e := blk];
            && (Lookup(dev, blocks, nm, k).Some? ==> Lookup(dev', blocks', nm, k) == Lookup(dev, blocks, nm, k))
            && (nm == name && Lookup(dev, blocks, name, k).None? ==> Lookup(dev', blocks', name, k) == Some(id))
    decreases e - k
  {
    hide LookupBlock, SetSlot;
    if k == e {
      FreshBlockHas(id, name, kind);
    } else {
      LookupAfterNewBlock(dev, blocks, e, blk, id, name, kind, nm, k + 1);
    }
  }

  lemma {:induction false} FromLeOfZeros(n: nat)
    ensures FromLe(Zeros(n)) == 0
  {
    if n > 0 {
      assert Zeros(n)[1..] == Zeros(n - 1);
      FromLeOfZeros(n - 1);
    }
  }

  lemma ZeroBlockIsFree()
    ensures FreeFrom(ZeroBlock(), 0)
  {
    hide FromLe;
    FromLeOfZeros(8);
    forall i: nat | i < PER_BLOCK ensures SlotId(ZeroBlock(), i) == 0 {
      assert ZeroBlock()[ENTRY_SIZE * i..ENTRY_SIZE * i + 8] == Zeros(8);
    }
  }

  // ----- Directories that fill up in scan order.

  /** No entry and no block comes after the first free place. */
  ghost predicate Tidy(dev: seq<Block>, blocks: seq<nat>)
    requires forall i | 0 <= i < |blocks| :: blocks[i] < |dev|
  {
    && (forall j | EmptyPlace(blocks, 0) <= j < |blocks| :: blocks[j] == 0)
    && match FreePlace(dev, blocks, 0) {
         case Nowhere => true
         case Place(k, i) =>
           && (k + 1 < |blocks| ==> blocks[k + 1] == 0)
           && FreeFrom(dev[blocks[k]], i + 1)
       }
  }

  ghost predicate FreeFrom(b: Block, i: nat) {
    forall j | i <= j < PER_BLOCK :: SlotId(b, j) == 0
  }

  ghost predicate FullUpTo(dev: seq<Block>, blocks: seq<nat>, from: nat, k: nat)
    requires k <= |blocks| && forall i | 0 <= i < |blocks| :: blocks[i] < |dev|
  {
    forall j | from <= j < k :: blocks[j] != 0 && FreeSlot(dev[blocks[j]], 0) == PER_BLOCK
  }

  lemma {:induction false} FreePlaceMeans(dev: seq<Block>, blocks: seq<nat>, k: nat)
    requires k <= |blocks| && forall i | 0 <= i < |blocks| :: blocks[i] < |dev|
    ensures match FreePlace(dev, blocks, k) {
              case Place(k1, i) => FullUpTo(dev, blocks, k, k1) && FreeSlot(dev[blocks[k1]], 0) == i
              case Nowhere => FullUpTo(dev, blocks, k, EmptyPlace(blocks, k))
            }
    decreases |blocks| - k
  {
    hide FreeSlot;
    if k < |blocks| && blocks[k] != 0 && FreeSlot(dev[blocks[k]], 0) == PER_BLOCK {
      FreePlaceMeans(dev, blocks, k + 1);
    }
  }

  lemma {:induction false} FreePlaceIs(dev: seq<Block>, blocks: seq<nat>, from: nat, k: nat)
    requires from <= k <= |blocks| && (forall i | 0 <= i < |blocks| :: blocks[i] < |dev|)
    requires FullUpTo(dev, blocks, from, k)
    ensures FreePlace(dev, blocks, from) == FreePlace(dev, blocks, k)
    decreases k - from
  {
    hide FreeSlot;
    if from < k { FreePlaceIs(dev, blocks, from + 1, k); }
  }

  lemma FreeSlotIs(b: Block, i: nat)
    requires i <= PER_BLOCK && (forall j | 0 <= j < i :: SlotId(b, j) != 0) && FreeFrom(b, i)
    ensures FreeSlot(b, 0) == i
  {
    hide SlotId;
    var r := FreeSlot(b, 0);
    assert r < PER_BLOCK ==> SlotId(b, r) == 0;
    assert i < PER_BLOCK ==> SlotId(b, i) == 0;
  }

  /** Filling the first free slot moves it on by one. */
  lemma FilledSlots(b: Block, id: nat, name: seq<byte>, kind: Kind)
    requires FreeSlot(b, 0) < PER_BLOCK && FreeFrom(b, FreeSlot(b, 0) + 1)
    requires |name| <= NAME_MAX && CString(name) && 0 < id < U64
    ensures var i := FreeSlot(b, 0);
            var b' := SetSlot(b, i, id, name, kind);
            FreeSlot(b', 0) == i + 1 && FreeFrom(b', i + 1)
  {
    hide SlotId, SetSlot, SlotName;
    var i := FreeSlot(b, 0);
    var b' := SetSlot(b, i, id, name, kind);
    SetSlotHere(b, i, id, name, kind);
    forall j: nat | j < PER_BLOCK && j != i ensures SlotId(b', j) == SlotId(b, j) {
      SetSlotElsewhere(b, i, id, name, kind, j);
    }
    FreeSlotIs(b', i + 1);
  }

  lemma {:induction false} NothingFrom(b: Block, nm: seq<byte>, j: nat)
    requires j <= PER_BLOCK && FreeFrom(b, j)
    ensures LookupBlock(b, nm, j) == None
    decreases PER_BLOCK - j
  {
    hide SlotId, SlotName;
    if j < PER_BLOCK { NothingFrom(b, nm, j + 1); }
  }

  /** What a lookup finds once an entry is added: the new name if it was absent, and else what it found before. */
  function Added(was: Option<nat>, here: bool, id: nat): Option<nat> {
    if here && was.None? then Some(id) else was
  }

  lemma {:induction false} FillShows(b: Block, i: nat, id: nat, name: seq<byte>, kind: Kind, nm: seq<byte>, j: nat)
    requires j <= i < PER_BLOCK && SlotId(b, i) == 0 && FreeFrom(b, i + 1)
    requires |name| <= NAME_MAX && CString(name) && 0 < id < U64
    ensures LookupBlock(SetSlot(b, i, id, name, kind), nm, j) == Added(LookupBlock(b, nm, j), nm == name, id)
    decreases i - j
  {
    hide SetSlot, SlotId, SlotName;
    if j == i {
      NothingFrom(b, nm, i);
      LookupBlockAfter(b, i, id, name, kind, nm, i);
    } else {
      SetSlotElsewhere(b, i, id, name, kind, j);
      FillShows(b, i, id, name, kind, nm, j + 1);
    }
  }

  lemma {:induction false} FillShowsIn(dev: seq<Block>, blocks: seq<nat>, k0: nat, i: nat, id: nat, name: seq<byte>,
      kind: Kind, nm: seq<byte>, k: nat)
    requires k <= k0 < |blocks| && forall j | 0 <= j < |blocks| :: blocks[j] < |dev|
    requires i < PER_BLOCK && SlotId(dev[blocks[k0]], i) == 0 && FreeFrom(dev[blocks[k0]], i + 1)
    requires (forall j | 0 <= j <= k0 :: blocks[j] != 0) && (k0 + 1 < |blocks| ==> blocks[k0 + 1] == 0)
    requires forall j | 0 <= j < |blocks| && j != k0 :: blocks[j] != blocks[k0]
    requires |name| <= NAME_MAX && CString(name) && 0 < id < U64
    ensures var dev' := dev[blocks[k0] := SetSlot(dev[blocks[k0]], i, id, name, kind)];
            Lookup(dev', blocks, nm, k) == Added(Lookup(dev, blocks, nm, k), nm == name, id)
    decreases k0 - k
  {
    hide LookupBlock, SetSlot, SlotId, FreeFrom;
    if k == k0 {
      FillShows(dev[blocks[k0]], i, id, name, kind, nm, 0);
    } else {
      FillShowsIn(dev, blocks, k0, i, id, name, kind, nm, k + 1);
    }
  }

  lemma {:induction false} NewBlockShows(dev: seq<Block>, blocks: seq<nat>, e: nat, blk: nat, id: nat,
      name: seq<byte>, kind: Kind, nm: seq<byte>, k: nat)
    requires k <= e < |blocks| && forall j | 0 <= j < |blocks| :: blocks[j] < blk
    requires 0 < blk < |dev| && (forall j | 0 <= j < e :: blocks[j] != 0)
    requires forall j | e <= j < |blocks| :: blocks[j] == 0
    requires |name| <= NAME_MAX && CString(name) && 0 < id < U64
    ensures var dev', blocks' := dev[blk := SetSlot(ZeroBlock(), 0, id, name, kind)], blocks[e := blk];
            Lookup(dev', blocks', nm, k) == Added(Lookup(dev, blocks, nm, k), nm == name, id)
    decreases e - k
  {
    hide LookupBlock, SetSlot, SlotId, FreeFrom;
    if k == e {
      ZeroBlockIsFree();
      NothingFrom(ZeroBlock(), nm, 0);
      assert SlotId(ZeroBlock(), 0) == 0 && FreeFrom(ZeroBlock(), 1) by { FreeMeans(ZeroBlock()); }
      FillShows(ZeroBlock(), 0, id, name, kind, nm, 0);
    } else {
      NewBlockShows(dev, blocks, e, blk, id, name, kind, nm, k + 1);
    }
  }

  lemma FreeMeans(b: Block)
    requires FreeFrom(b, 0)
    ensures SlotId(b, 0) == 0 && FreeFrom(b, 1) && FreeSlot(b, 0) == 0
  {
    hide SlotId;
  }

  /** A directory stays tidy when its first free slot is filled. */
  lemma {:induction false} FillKeepsTidy(dev: seq<Block>, blocks: seq<nat>, k: nat, i: nat, id: nat, name: seq<byte>,
      kind: Kind)
    requires (forall j | 0 <= j < |blocks| :: blocks[j] < |dev|) && Tidy(dev, blocks)
    requires FreePlace(dev, blocks, 0) == Place(k, i)
    requires forall j | 0 <= j < |blocks| && j != k :: blocks[j] != blocks[k]
    requires |name| <= NAME_MAX && CString(name) && 0 < id < U64
    ensures Tidy(dev[blocks[k] := SetSlot(dev[blocks[k]], i, id, name, kind)], blocks)
  {
    hide SetSlot, SlotId, FreeFrom, FreeSlot;
    var b' := SetSlot(dev[blocks[k]], i, id, name, kind);
    var dev' := dev[blocks[k] := b'];
    FreePlaceMeans(dev, blocks, 0);
    FilledSlots(dev[blocks[k]], id, name, kind);
    assert FullUpTo(dev', blocks, 0, k);
    FreePlaceIs(dev', blocks, 0, k);
    StillFree(b', i + 1);
  }

  lemma StillFree(b: Block, i: nat)
    requires FreeFrom(b, i)
    ensures FreeFrom(b, i + 1)
  {
    hide SlotId;
  }

  /** And when it gets a new block. */
  lemma {:induction false} NewBlockKeepsTidy(dev: seq<Block>, blocks: seq<nat>, e: nat, blk: nat, id: nat,
      name: seq<byte>, kind: Kind)
    requires (forall j | 0 <= j < |blocks| :: blocks[j] < blk) && 0 < blk < |dev| && Tidy(dev, blocks)
    requires FreePlace(dev, blocks, 0) == Nowhere && e == EmptyPlace(blocks, 0) < |blocks|
    requires |name| <= NAME_MAX && CString(name) && 0 < id < U64
    ensures Tidy(dev[blk := SetSlot(ZeroBlock(), 0, id, name, kind)], blocks[e := blk])
  {
    hide SetSlot, SlotId, FreeFrom, FreeSlot;
    var b' := SetSlot(ZeroBlock(), 0, id, name, kind);
    var dev', blocks' := dev[blk := b'], blocks[e := blk];
    FreePlaceMeans(dev, blocks, 0);
    ZeroBlockIsFree();
    FreeMeans(ZeroBlock());
    FilledSlots(ZeroBlock(), id, name, kind);
    assert FullUpTo(dev', blocks', 0, e);
    FreePlaceIs(dev', blocks', 0, e);
    StillFree(b', 1);
    EmptyPlaceIs(blocks', 0, e + 1);
  }

  lemma {:induction false} EmptyPlaceIs(blocks: seq<nat>, k: nat, e: nat)
    requires k <= e <= |blocks| && (forall j | k <= j < e :: blocks[j] != 0) && (e < |blocks| ==> blocks[e] == 0)
    ensures EmptyPlace(blocks, k) == e
    decreases e - k
  {
    if k < e { EmptyPlaceIs(blocks, k + 1, e); }
  }

  /** Only the directory's own blocks matter. */
  lemma {:induction false} TidySame(dev: seq<Block>, dev': seq<Block>, blocks: seq<nat>)
    requires forall i | 0 <= i < |blocks| :: blocks[i] < |dev| && blocks[i] < |dev'|
    requires forall i | 0 <= i < |blocks| && blocks[i] != 0 :: dev'[blocks[i]] == dev[blocks[i]]
    requires Tidy(dev, blocks)
    ensures Tidy(dev', blocks)
  {
    hide FreeSlot, FreeFrom;
    FreePlaceSame(dev, dev', blocks, 0);
  }

  lemma {:induction false} FreePlaceSame(dev: seq<Block>, dev': seq<Block>, blocks: seq<nat>, k: nat)
    requires k <= |blocks| && forall i | 0 <= i < |blocks| :: blocks[i] < |dev| && blocks[i] < |dev'|
    requires forall i | 0 <= i < |blocks| && blocks[i] != 0 :: dev'[blocks[i]] == dev[blocks[i]]
    ensures FreePlace(dev', blocks, k) == FreePlace(dev, blocks, k)
    decreases |blocks| - k
  {
    hide FreeSlot;
    if k < |blocks| && blocks[k] != 0 { FreePlaceSame(dev, dev', blocks, k + 1); }
  }

  /** A directory without blocks, or with one empty block, is tidy. */
  lemma EmptyIsTidy(dev: seq<Block>, blocks: seq<nat>)
    requires (forall i | 0 <= i < |blocks| :: blocks[i] < |dev|) && forall i | 1 <= i < |blocks| :: blocks[i] == 0
    requires blocks != [] && (blocks[0] != 0 ==> FreeFrom(dev[blocks[0]], 0))
    ensures Tidy(dev, blocks)
  {
    hide FreeSlot, FreeFrom;
    if blocks[0] != 0 {
      FreeMeans(dev[blocks[0]]);
      EmptyPlaceIs(blocks, 0, 1);
    }
  }
}
