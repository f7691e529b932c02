/** history.c as it runs: the ring buffer, its counters and its index. */
module History {
  import opened Bytes
  import opened Counting
  import opened Errno
  import opened Lz4Spec
  import opened HistorySpec
  import opened HistorySerial
  import opened HistBPTree
  import BPForest
  import Lz4

  const FREED := Entry(0, 0, 0, 0, Lost(0), 0)

  /** The RING - 1 positions before n are in other slots. */
  lemma OtherSlots(n: nat)
    ensures forall i | 0 <= i < n && n + 1 <= i + RING :: i % RING != n % RING
  {
  }

  /** A slot computed from a wrapped counter is the slot of the counter. */
  lemma SlotOfWrapped(x: nat)
    ensures x % U32 % RING == x % RING
  {
    var q, r := x / U32, x % U32;
    assert x == q * U32 + r == (q * 0x10_0000) * RING + r;
    ModRing(x, q * 0x10_0000, r);
  }

  lemma ModRing(x: nat, q: nat, r: nat)
    requires x == q * RING + r
    ensures x % RING == r % RING
  {
    var q2 := r / RING;
    assert r == q2 * RING + r % RING;
    assert x == (q + q2) * RING + r % RING;
  }

  /** Slots less than a ring apart differ. */
  lemma SlotsApart(t: nat, i: nat, j: nat)
    requires i < j < i + RING
    ensures (t + i) % RING != (t + j) % RING
  {
  }

  lemma WindowAfterEvict(h: Hist)
    requires h.live != [] && h.live[0].tokens < U32
    ensures Window(Evict(h)) == (Window(h) + (U32 - h.live[0].tokens)) % U32
  {
    var s := Sum(h.live[1..]);
    var t := h.live[0].tokens;
    assert Sum(h.live) == t + s;
    ModShift(t + s, U32 - t);
    assert t + s + (U32 - t) == s + U32;
    ModShift(s, U32);
  }

  lemma AppendCounters(h: Hist, e: Entry)
    requires Good(h) && |h.live| < RING && e.seqno == h.nextSeq
    ensures var h' := h.(live := h.live + [e], nextSeq := h.nextSeq + 1);
            && Good(h') && Tail(h') == Tail(h) && Head(h') == (Head(h) + 1) % U32
            && Window(h') == (Window(h) + e.tokens) % U32
  {
    ModShift(h.evicted + |h.live|, 1);
    ModShift(Sum(h.live), e.tokens);
    SumAppend(h.live, [e]);
    SumOfOne(e);
  }

  lemma MakeRoomLeavesSlot(h: Hist, tok: nat)
    requires |h.live| <= RING
    ensures |MakeRoom(h, tok).live| < RING && MakeRoom(h, tok).nextSeq == h.nextSeq
  {
    hide MakeRoom;
    MakeRoomIsSuffix(h, tok);
  }

  lemma NoIndex()
    ensures Index([], 0) == map[]
  {
  }

  lemma IndexSnoc(live: seq<Entry>, t: nat, e: Entry)
    ensures Index(live + [e], t) == Index(live, t)[e.seqno := (t + |live|) % RING]
  {
    assert (live + [e])[..|live|] == live;
  }

  /** Taking the last token count back out of the wrapped sum. */
  lemma SubtractMod(s: nat, t: nat)
    requires t < U32
    ensures s % U32 == ((s + t) % U32 + (U32 - t)) % U32
  {
    ModShift(s + t, U32 - t);
    ModShift(s, U32);
  }

  lemma {:induction false} SumOfFront(live: seq<Entry>)
    requires live != []
    ensures Sum(live) == Sum(live[..|live| - 1]) + live[|live| - 1].tokens
  {
    var n := |live| - 1;
    SumAppend(live[..n], [live[n]]);
    SumOfOne(live[n]);
    assert live[..n] + [live[n]] == live;
  }

  lemma {:induction false} DropNewestCounters(h: Hist)
    requires Good(h) && Head(h) > Tail(h) && forall i | 0 <= i < |h.live| :: h.live[i].tokens < U32
    ensures h.live != []
    ensures var h' := h.(live := h.live[..|h.live| - 1]);
            && Good(h') && Head(h') + 1 == Head(h)
            && Window(h') == (Window(h) + (U32 - h.live[|h.live| - 1].tokens)) % U32
  {
    hide Sum;
    FewerLive(h);
    var n := |h.live| - 1;
    SumOfFront(h.live);
    SubtractMod(Sum(h.live[..n]), h.live[n].tokens);
    DecrementMod(h.evicted, n);
  }

  lemma DecrementMod(t: nat, n: nat)
    requires n + 1 < U32 && (t + n + 1) % U32 > t % U32
    ensures (t + n) % U32 + 1 == (t + n + 1) % U32
  {
    var q, r := t / U32, t % U32;
    assert t == q * U32 + r;
    WrapsOnce(t, n + 1);
    ModIs(t + n, U32, q, r + n);
    ModIs(t + n + 1, U32, q, r + n + 1);
  }

  /** Dropping the newest entries of an unwrapped history leaves it unwrapped. */
  lemma StillUnwrapped(h: Hist, n: nat)
    requires |h.live| <= RING && 0 < n <= |h.live| && Head(h) > Tail(h)
    ensures Head(h.(live := h.live[..n])) > Tail(h)
  {
    WrapsOnce(h.evicted, |h.live|);
    WrapsOnce(h.evicted, n);
  }

  lemma SerIs(h: Hist)
    ensures Ser(h) == Le(MAGIC_V2, 4) + Le(|h.live|, 4) + Le(h.max, 4) + Le(Window(h), 4) + Le(h.nextSeq,
        8) + SerEntries(h.live)
  {
  }

  lemma {:induction false} NeededSnoc(live: seq<Entry>, i: nat)
    requires i <= |live|
    ensures i == 0 ==> Needed(live[..i]) == 24
    ensures i < |live| ==> Needed(live[..i + 1]) == Needed(live[..i]) + 29 + DataLen(live[i])
    decreases |live|
  {
    if i > 0 {
      assert live[..i][1..] == live[1..][..i - 1];
      if i < |live| { assert live[..i + 1][1..] == live[1..][..i]; }
      NeededSnoc(live[1..], i - 1);
    } else if live != [] {
      assert live[..1][1..] == [];
    }
  }

  lemma {:induction false} SerEntriesSnoc(live: seq<Entry>, i: nat)
    requires i <= |live|
    ensures i == 0 ==> SerEntries(live[..i]) == []
    ensures i < |live| ==> SerEntries(live[..i + 1]) == SerEntries(live[..i]) + SerEntry(live[i])
    decreases |live|
  {
    hide SerEntry;
    if i > 0 {
      assert live[..i][1..] == live[1..][..i - 1];
      if i < |live| { assert live[..i + 1][1..] == live[1..][..i]; }
      SerEntriesSnoc(live[1..], i - 1);
    } else if live != [] {
      assert live[..1][1..] == [];
    }
  }

  lemma EntryRanges(s: seq<byte>, p: nat, v2: bool, freshSeq: nat)
    ensures var r := ReadEntry(s, p, v2, freshSeq);
            r.Some? ==> r.value.0.tokens < U32 && (if v2 then r.value.0.seqno < U64 else r.value.0.seqno == freshSeq)
  {
    hide FromLe;
    Pow256Values();
  }

  lemma LoadCounters(g: Hist, e: Entry, next: nat)
    requires g.evicted == 0
    ensures var g' := g.(live := g.live + [e], nextSeq := next);
            Head(g') == (Head(g) + 1) % U32 && Window(g') == (Window(g) + e.tokens) % U32
  {
    ModShift(|g.live|, 1);
    ModShift(Sum(g.live), e.tokens);
    SumAppend(g.live, [e]);
    SumOfOne(e);
  }

  lemma LoadSlot(g: Hist)
    requires g.evicted == 0
    ensures Head(g) % RING == |g.live| % RING
  {
    SlotOfWrapped(|g.live|);
  }

  lemma FewerLive(h: Hist)
    ensures Head(h) > Tail(h) ==> h.live != []
    ensures h.live != [] ==> |Evict(h).live| < |h.live|
  {
  }

  /** The difference of the wrapped counters is the number of live entries. */
  lemma CountOfWrapped(h: Hist)
    requires |h.live| < U32
    ensures (Head(h) + (U32 - Tail(h))) % U32 == |h.live|
  {
    var t, n := h.evicted, |h.live|;
    var r := t % U32;
    assert t == (t / U32) * U32 + r;
    if r + n < U32 {
      ModIs(t + n, U32, t / U32, r + n);
      ModIs(r + n + (U32 - r), U32, 1, n);
    } else {
      ModIs(t + n, U32, t / U32 + 1, r + n - U32);
      ModIs(r + n - U32 + (U32 - r), U32, 0, n);
    }
  }

  class Store {
    const ring: array<Entry>
    const bpt: Tree
    var head: nat
    var tail: nat
    var window: nat
    var max: nat
    var nextSeq: nat
    /** The abstract history. */
    ghost var H: Hist

    /** The ring and the counters say what H says. */
    ghost predicate RingOk()
      reads this, ring
    {
      && ring.Length == RING
      && head == Head(H) && tail == Tail(H) && window == Window(H)
      && max == H.max < U32 && nextSeq == H.nextSeq <= U64
      && Good(H) && |H.live| <= RING
      && (forall i | 0 <= i < |H.live| :: ring[Slot(H, i)] == H.live[i])
      && (forall i | 0 <= i < |H.live| :: H.live[i].tokens < U32)
    }

    /** The index maps live sequence numbers to their slots, all of them but some of entries without data. */
    ghost predicate Indexed()
      reads this, bpt
    {
      bpt.Valid() && IndexOk(bpt.M, H.live, H.evicted)
    }

    ghost predicate Valid()
      reads this, ring, bpt
    {
      RingOk() && Indexed()
    }

    /** history_init. */
    constructor (maxTokens: nat)
      requires maxTokens < U32
      ensures Valid() && fresh(ring) && fresh(bpt) && H == Hist([], 0, maxTokens, 0)
    {
      ring := new Entry[RING](_ => FREED);
      bpt := new Tree();
      head, tail, window, max, nextSeq := 0, 0, 0, maxTokens, 0;
      H := Hist([], 0, maxTokens, 0);
    }

    /** evict_oldest. */
    method EvictOldest()
      requires RingOk() && H.live != []
      modifies this, ring
      ensures RingOk() && H == Evict(old(H))
    {
      hide Sum;
      ghost var h := H;
      SlotOfWrapped(h.evicted);
      WindowAfterEvict(h);
      var e := ring[tail % RING];
      assert e == ring[Slot(h, 0)] == h.live[0];
      window := (window + (U32 - e.tokens)) % U32;
      forall i | 1 <= i < |h.live| ensures Slot(h, i) != tail % RING { SlotsApart(h.evicted, 0, i); }
      ring[tail % RING] := e.(data := Lost(0), rawLen := 0, tokens := 0);
      tail := (tail + 1) % U32;
      ModShift(h.evicted, 1);
      H := Evict(h);
    }

    /** head - tail in uint32_t arithmetic. */
    method Count() returns (n: nat)
      requires RingOk()
      ensures n == |H.live|
    {
      CountOfWrapped(H);
      n := (head + (U32 - tail)) % U32;
    }

    /** The ring index of the i-th live entry, in uint32_t arithmetic. */
    method SlotAt(i: nat) returns (idx: nat)
      requires RingOk()
      ensures idx == Slot(H, i) < RING
    {
      ModShift(H.evicted, i);
      SlotOfWrapped(H.evicted + i);
      idx := (tail + i) % U32 % RING;
    }

    /** hist_bpt_rebuild. */
    method Rebuild()
      requires RingOk()
      modifies bpt
      ensures bpt.Valid() && bpt.M == Rebuilt(H.live, H.evicted)
    {
      hide BPForest.Inv, Sum;
      bpt.Clear();
      var total := Count();
      for i := 0 to total
        invariant bpt.Valid() && bpt.M == Rebuilt(H.live[..i], H.evicted)
      {
        assert H.live[..i+1][..i] == H.live[..i];
        var idx := SlotAt(i);
        if ring[idx].data.Held? {
          var _ := bpt.Insert(ring[idx].seqno, idx, bpt.height + 1);
        }
      }
      assert H.live[..total] == H.live;
    }

    /** The two eviction loops of history_push. */
    method EvictFor(tok: nat) returns (dirty: bool)
      requires RingOk()
      modifies this, ring
      ensures RingOk() && H == MakeRoom(old(H), tok)
      ensures !dirty ==> H == old(H)
    {
      hide Evict;
      dirty := false;
      var n := Count();
      while n >= RING
        invariant RingOk() && n == |H.live|
        invariant DropFull(H) == DropFull(old(H))
        invariant !dirty ==> H == old(H)
        decreases n
      {
        FewerLive(H);
        EvictOldest();
        dirty := true;
        n := Count();
      }
      while (window + tok) % U32 > max && head > tail
        invariant RingOk()
        invariant DropOver(H, tok) == MakeRoom(old(H), tok)
        invariant !dirty ==> H == old(H)
        decreases |H.live|
      {
        FewerLive(H);
        EvictOldest();
        dirty := true;
      }
    }

    /** Filling the slot at head. */
    method Append(e: Entry)
      requires RingOk() && |H.live| < RING && e.seqno == nextSeq < U64 && e.tokens < U32
      modifies this, ring
      ensures RingOk()
      ensures H == old(H).(live := old(H).live + [e], nextSeq := old(H).nextSeq + 1)
    {
      hide Good, Sum;
      ghost var h := H;
      SlotOfWrapped(h.evicted + |h.live|);
      forall i | 0 <= i < |h.live| ensures Slot(h, i) != head % RING { SlotsApart(h.evicted, i, |h.live|); }
      AppendCounters(h, e);
      ring[head % RING] := e;
      head := (head + 1) % U32;
      window := (window + e.tokens) % U32;
      nextSeq := nextSeq + 1;
      H := h.(live := h.live + [e], nextSeq := h.nextSeq + 1);
    }

    /** history_push; `memory` says whether kmalloc finds a block of a size it can give. */
    method Push(now: nat, role: byte, text: seq<byte>, memory: bool) returns (rc: int)
      requires Valid() && nextSeq < U64
      modifies this, ring, bpt
      ensures Valid()
      ensures rc == if memory && Storable(text) then 0 else ENOMEM
      ensures H == if memory && Storable(text) then HistorySpec.Push(old(H), now, role, text) else old(H)
    {
      hide Good, MakeRoom, CompressSpec, CompressStores, IndexOk, Sum;
      var worst := |text| + |text| / 255 + 16;
      if !memory || worst > KMALLOC_MAX {
        return ENOMEM;
      }
      var c, _ := Lz4.Compress(text, worst);
      var comp := if c.Some? then c.value else text;
      assert comp == Stored(text);
      MakeRoomLeavesSlot(H, EstimateTokens(text));
      Shrink(EstimateTokens(text));
      Insert(Entry(now, nextSeq, role, EstimateTokens(text), Held(comp), |text|));
      return 0;
    }

    /** Evict for the new entry and rebuild the index if anything went. */
    method Shrink(tok: nat)
      requires Valid()
      modifies this, ring, bpt
      ensures Valid() && H == MakeRoom(old(H), tok)
    {
      hide MakeRoom, IndexOk, Rebuilt, Sum, Increasing;
      var dirty := EvictFor(tok);
      if dirty {
        Rebuild();
        RebuiltIsOk(H.live, H.evicted);
      }
    }

    /** Put the entry in the ring and in the index. */
    method Insert(e: Entry)
      requires Valid() && |H.live| < RING && e.seqno == nextSeq < U64 && e.tokens < U32
      modifies this, ring, bpt
      ensures Valid() && H == old(H).(live := old(H).live + [e], nextSeq := old(H).nextSeq + 1)
    {
      hide IndexOk, Sum, Increasing;
      var idx := head % RING;
      SlotOfWrapped(H.evicted + |H.live|);
      IndexOkSnoc(bpt.M, H.live, H.evicted, e);
      Append(e);
      var _ := bpt.Insert(e.seqno, idx, bpt.height + 1);
    }

    /** One turn of the loop of history_truncate_keep. */
    method DropNewest()
      requires RingOk() && head > tail
      modifies this, ring
      ensures RingOk() && old(H).live != []
      ensures H == old(H).(live := old(H).live[..|old(H).live| - 1])
    {
      hide Good, Sum;
      ghost var h := H;
      DropNewestCounters(h);
      ghost var n := |h.live| - 1;
      SlotOfWrapped(h.evicted + n);
      head := head - 1;
      var idx := head % RING;
      assert ring[idx] == h.live[n];
      window := (window + (U32 - ring[idx].tokens)) % U32;
      forall i | 0 <= i < n ensures Slot(h, i) != idx { SlotsApart(h.evicted, i, n); }
      ring[idx] := FREED;
      H := h.(live := h.live[..n]);
    }

    /** history_truncate_keep. */
    method TruncateKeep(keep: nat)
      requires Valid()
      modifies this, ring, bpt
      ensures Valid() && H == HistorySpec.TruncateKeep(old(H), keep)
    {
      hide Increasing, IndexOk, Rebuilt, Sum;
      ghost var h0 := H;
      var total := Count();
      if keep >= total {
        return;
      }
      var i := 0;
      while i < total - keep && head > tail
        invariant 0 <= i <= total - keep && RingOk()
        invariant H == h0.(live := h0.live[..total - i])
        invariant i > 0 ==> Head(h0) > Tail(h0)
        invariant i < total - keep && Head(h0) > Tail(h0) ==> head > tail
      {
        DropNewest();
        assert h0.live[..total - i][..total - i - 1] == h0.live[..total - (i + 1)];
        i := i + 1;
        if 0 < total - i { StillUnwrapped(h0, total - i); }
      }
      assert h0.live[..total] == h0.live;
      Rebuild();
      RebuiltIsOk(H.live, H.evicted);
    }

    /** history_clear. */
    method Clear()
      requires Valid()
      modifies this, ring, bpt
      ensures Valid() && H == HistorySpec.Clear(old(H)) == Start(old(H).max) && bpt.M == map[]
    {
      while head > tail
        invariant RingOk() && H.max == old(H).max
        decreases |H.live|
      {
        FewerLive(H);
        EvictOldest();
      }
      head, tail, window, nextSeq := 0, 0, 0, 0;
      H := HistorySpec.Clear(H);
      bpt.Clear();
    }

    /** hist_bpt_range_from_seq on the history's index. */
    method RangeFrom(min: nat, maxOut: nat) returns (out: seq<nat>)
      requires Valid()
      ensures out == Take(SlotsIn(H.live, H.evicted, min, bpt.M.Keys), maxOut)
      ensures forall i | 0 <= i < |H.live| && H.live[i].data.Held? :: H.live[i].seqno in bpt.M
      ensures AllData(H.live) ==> out == Take(SlotsFrom(H.live, H.evicted, min), maxOut)
    {
      hide KeysFrom, ValuesAt, Part, Sum;
      ghost var ks;
      out, ks := bpt.RangeFromSeq(min, maxOut);
      RangeIsSlots(H.live, H.evicted, min, bpt.M.Keys);
      if AllData(H.live) { SlotsInAll(H.live, H.evicted, min, bpt.M.Keys); }
    }

    /** history_get: the bytes copied out, or None for -ENOENT. */
    method Get(index: nat, bufSize: nat) returns (r: Option<seq<byte>>)
      requires Valid() && bufSize > 0
      ensures r == if index < |H.live| then Read(H.live[index], bufSize) else None
    {
      var n := Count();
      if index >= n {
        return None;
      }
      var idx := SlotAt(index);
      var e := ring[idx];
      if e.data.Lost? || e.data.bytes == [] {
        return None;
      }
      var d := e.data.bytes;
      var dst := new byte[Min(bufSize - 1, e.rawLen)](_ => 0);
      var len := Lz4.Decompress(d, dst);
      if len <= 0 {
        return Some(Raw(d, bufSize));
      }
      return Some(dst[..len]);
    }

    /** history_serialize into a buffer of the given size: the size needed if that is more, else the bytes written. */
    method Serialize(size: nat) returns (rc: nat, out: seq<byte>)
      requires Valid()
      ensures out == if size < Needed(H.live) then [] else Ser(H)
      ensures rc == (if size < Needed(H.live) then Needed(H.live) else |Ser(H)|) && |out| <= size
      ensures rc == Needed(H.live) <==> size < Needed(H.live) || Whole(H.live)
    {
      hide Good, Ser, Needed, SerEntries, SerEntry, Window, Le, Whole;
      NeededIsWritten(H);
      rc := MeasureAll();
      out := [];
      if size < rc {
        return;
      }
      var entries := WriteAll();
      out := Le(MAGIC_V2, 4) + Le((head + (U32 - tail)) % U32, 4) + Le(max, 4) + Le(window, 4) + Le(nextSeq,
          8) + entries;
      CountOfWrapped(H);
      SerIs(H);
      rc := |out|;
    }

    method MeasureAll() returns (needed: nat)
      requires RingOk()
      ensures needed == Needed(H.live)
    {
      hide Good, Needed, DataLen, Sum;
      needed := 24;
      var count := Count();
      NeededSnoc(H.live, 0);
      for i := 0 to count
        invariant needed == Needed(H.live[..i])
      {
        NeededSnoc(H.live, i);
        var idx := SlotAt(i);
        needed := needed + 29 + DataLen(ring[idx]);
      }
      assert H.live[..count] == H.live;
    }

    method WriteAll() returns (out: seq<byte>)
      requires RingOk()
      ensures out == SerEntries(H.live)
    {
      hide Good, SerEntries, SerEntry, Sum;
      out := [];
      var count := Count();
      SerEntriesSnoc(H.live, 0);
      for i := 0 to count
        invariant out == SerEntries(H.live[..i])
      {
        SerEntriesSnoc(H.live, i);
        var idx := SlotAt(i);
        out := out + SerEntry(ring[idx]);
      }
      assert H.live[..count] == H.live;
    }

    /** Between the clear and the end of history_deserialize: g has been loaded so far. */
    ghost predicate Loading(g: Hist)
      reads this, ring, bpt
    {
      && ring.Length == RING && g.evicted == 0
      && head == Head(g) && tail == 0 && window == Window(g)
      && max == g.max < U32 && nextSeq == g.nextSeq
      && (forall i | 0 <= i < |g.live| :: g.live[i].tokens < U32)
      && (forall i | 0 <= i < |g.live| && |g.live| <= i + RING :: ring[i % RING] == g.live[i])
      && bpt.Valid() && bpt.M == Index(g.live, 0)
    }

    /** One loaded entry goes to the slot at head and to the index. */
    method LoadOne(ghost g: Hist, e: Entry, v2: bool)
      requires Loading(g) && e.tokens < U32 && e.seqno < U64
      modifies this, ring, bpt
      ensures Loading(g.(live := g.live + [e], nextSeq := if v2 then g.nextSeq else g.nextSeq + 1))
    {
      hide Index, Sum, BPForest.Inv, Head, Window;
      LoadCounters(g, e, if v2 then g.nextSeq else g.nextSeq + 1);
      IndexSnoc(g.live, 0, e);
      LoadSlot(g);
      OtherSlots(|g.live|);
      var idx := head % RING;
      ring[idx] := e;
      head := (head + 1) % U32;
      window := (window + e.tokens) % U32;
      nextSeq := if v2 then nextSeq else nextSeq + 1;
      var _ := bpt.Insert(e.seqno, idx, bpt.height + 1);
    }

    /** The entry loop of history_deserialize. */
    method LoadAll(ghost g0: Hist, buf: seq<byte>, p0: nat, count: nat, v2: bool)
      requires Loading(g0) && count < U32 && (!v2 ==> g0.nextSeq == 0)
      modifies this, ring, bpt
      ensures Loading(ReadEntries(buf, p0, count, v2, g0))
    {
      hide Index, Sum, BPForest.Inv, ReadEntry, Head, Window;
      ghost var g := g0;
      var p, i := p0, 0;
      while i < count
        invariant 0 <= i <= count && Loading(g) && (!v2 ==> g.nextSeq == i)
        invariant ReadEntries(buf, p0, count, v2, g0) == ReadEntries(buf, p, count - i, v2, g)
      {
        var r := ReadEntry(buf, p, v2, nextSeq);
        if r.None? {
          return;
        }
        EntryRanges(buf, p, v2, nextSeq);
        LoadOne(g, r.value.0, v2);
        g := g.(live := g.live + [r.value.0], nextSeq := if v2 then g.nextSeq else g.nextSeq + 1);
        p, i := r.value.1, i + 1;
      }
    }

    lemma LoadedIsValid()
      requires Loading(H)
      ensures Good(H) && H.nextSeq <= U64 ==> Valid()
    {
      hide Index, Sum, BPForest.Inv, Increasing, IndexOk;
      FullIsOk(H.live, 0);
      assert Tail(H) == 0;
      if |H.live| <= RING {
        forall i | 0 <= i < |H.live| ensures ring[Slot(H, i)] == H.live[i] {
          assert Slot(H, i) == i == i % RING;
        }
      }
    }

    /** history_deserialize.  Buffers with more than a ring of entries, or out of sequence order, leave a state that is
        not Valid, with the last entries in the ring. */
    method Deserialize(buf: seq<byte>) returns (rc: int)
      requires Valid()
      modifies this, ring, bpt
      ensures var o := Deser(buf, old(H));
              && rc == o.rc
              && (Good(o.h) && o.h.nextSeq <= U64 ==> Valid() && H == o.h)
              && (rc == 0 ==> Loading(o.h))
    {
      hide Good, Index, ReadEntry, BPForest.Inv, FromLe, Sum, IndexOk;
      ghost var h0 := H;
      NoIndex();
      if |buf| < 16 {
        return EINVAL;
      }
      Pow256Values();
      var magic := U(buf, 0, 4);
      var v2 := magic == MAGIC_V2;
      if magic != MAGIC_V1 && !v2 {
        return EINVAL;
      }
      var count := U(buf, 4, 4);
      Clear();
      max := U(buf, 8, 4);
      H := H.(max := max);
      if v2 {
        if |buf| < 24 {
          return EINVAL;
        }
        nextSeq := U(buf, 16, 8);
      }
      ghost var g := H.(nextSeq := nextSeq);
      LoadAll(g, buf, if v2 then 24 else 16, count, v2);
      H := Deser(buf, h0).h;
      LoadedIsValid();
      return 0;
    }
  }
}
