/** The conversation history (history.c) as a value: the live entries, oldest first, and the counters. */
module HistorySpec {
  import opened Bytes
  import opened Counting
  import opened Lz4Spec
  import opened Lz4Proofs
  import opened HistBPTree

  const RING: nat := 4096

  /** The fields data and data_len: a payload in memory, or a NULL pointer with the length that is kept beside it. */
  datatype Data = Held(bytes: seq<byte>) | Lost(len: nat)

  /** hist_entry_t. */
  datatype Entry = Entry(timestamp: nat, seqno: nat, role: byte, tokens: nat, data: Data, rawLen: nat)

  /** `evicted` counts every step tail has taken since the last clear; the source keeps it modulo 2^32. */
  datatype Hist = Hist(live: seq<Entry>, evicted: nat, max: nat, nextSeq: nat)

  function Sum(live: seq<Entry>): nat {
    if live == [] then 0 else live[0].tokens + Sum(live[1..])
  }

  // ----- The uint32_t fields.

  function Tail(h: Hist): nat { h.evicted % U32 }
  function Head(h: Hist): nat { (h.evicted + |h.live|) % U32 }
  function Window(h: Hist): nat { Sum(h.live) % U32 }
  function Slot(h: Hist, i: nat): nat { (h.evicted + i) % RING }

  // ----- The operations.

  /** The largest block kmalloc gives out. */
  const KMALLOC_MAX: nat := 65536

  /** The worst-case size history_push asks for is one that kmalloc can give. */
  predicate Storable(text: seq<byte>) { |text| + |text| / 255 + 16 <= KMALLOC_MAX }

  /** estimate_tokens. */
  function EstimateTokens(text: seq<byte>): nat {
    (|text| + 3) / 4
  }

  /** What history_push stores for a text: the compressed block, or the text when compression fails. */
  function Stored(text: seq<byte>): seq<byte> {
    match CompressSpec(text, |text| + |text| / 255 + 16) {
      case Some(c) => c
      case None => text
    }
  }

  /** evict_oldest. */
  function Evict(h: Hist): Hist
    requires h.live != []
  {
    h.(live := h.live[1..], evicted := h.evicted + 1)
  }

  /** The first eviction loop: the ring is full. */
  function DropFull(h: Hist): (r: Hist)
    decreases |h.live|
  {
    if |h.live| >= RING then DropFull(Evict(h)) else h
  }

  /** The second eviction loop: the new entry's tokens do not fit the window. */
  function DropOver(h: Hist, tok: nat): (r: Hist)
    decreases |h.live|
  {
    if (Window(h) + tok) % U32 > h.max && Head(h) > Tail(h) then DropOver(Evict(h), tok) else h
  }

  function MakeRoom(h: Hist, tok: nat): Hist {
    DropOver(DropFull(h), tok)
  }

  function NewEntry(h: Hist, now: nat, role: byte, text: seq<byte>): Entry {
    Entry(now, h.nextSeq, role, EstimateTokens(text), Held(Stored(text)), |text|)
  }

  /** history_push. */
  function Push(h: Hist, now: nat, role: byte, text: seq<byte>): Hist {
    var h1 := MakeRoom(h, EstimateTokens(text));
    h1.(live := h1.live + [NewEntry(h, now, role, text)], nextSeq := h.nextSeq + 1)
  }

  /** history_truncate_keep: the loop gives up at once when head <= tail. */
  function TruncateKeep(h: Hist, keep: nat): Hist {
    if keep >= |h.live| || Head(h) <= Tail(h) then h else h.(live := h.live[..keep])
  }

  /** history_clear. */
  function Clear(h: Hist): Hist {
    h.(live := [], evicted := 0, nextSeq := 0)
  }

  // ----- The index.

  /** The index that maps every live entry's sequence number to its ring slot. */
  function Index(live: seq<Entry>, evicted: nat): map<nat, nat> {
    if live == [] then map[]
    else
      var n := |live| - 1;
      Index(live[..n], evicted)[live[n].seqno := (evicted + n) % RING]
  }

  /** What hist_bpt_rebuild makes: it leaves out entries without data. */
  function Rebuilt(live: seq<Entry>, evicted: nat): map<nat, nat> {
    if live == [] then map[]
    else
      var n := |live| - 1;
      var m := Rebuilt(live[..n], evicted);
      if live[n].data.Held? then m[live[n].seqno := (evicted + n) % RING] else m
  }

  ghost predicate AllData(live: seq<Entry>) {
    forall i | 0 <= i < |live| :: live[i].data.Held?
  }

  ghost predicate Good(h: Hist) {
    && |h.live| <= RING
    && Increasing(h.live)
    && (forall i | 0 <= i < |h.live| :: h.live[i].seqno < h.nextSeq)
  }

  // ----- Evictions drop a prefix.

  lemma {:induction false} DropFullIs(h: Hist)
    requires |h.live| <= RING
    ensures DropFull(h) == if |h.live| == RING then Evict(h) else h
  {
    if |h.live| == RING {
      assert |Evict(h).live| < RING;
    }
  }

  lemma {:induction false} DropOverIsSuffix(h: Hist, tok: nat)
    ensures var k := DropOver(h, tok).evicted - h.evicted;
            0 <= k <= |h.live| && DropOver(h, tok) == h.(live := h.live[k..], evicted := h.evicted + k)
    decreases |h.live|
  {
    if (Window(h) + tok) % U32 > h.max && Head(h) > Tail(h) {
      var next := Evict(h);
      DropOverIsSuffix(next, tok);
      hide DropOver;
      var k := DropOver(next, tok).evicted - next.evicted;
      assert h.live[1..][k..] == h.live[k + 1..];
    }
  }

  lemma MakeRoomIsSuffix(h: Hist, tok: nat)
    requires |h.live| <= RING
    ensures var k := MakeRoom(h, tok).evicted - h.evicted;
            && 0 <= k <= |h.live| && |h.live| - k < RING
            && MakeRoom(h, tok) == h.(live := h.live[k..], evicted := h.evicted + k)
  {
    DropFullIs(h);
    DropOverIsSuffix(DropFull(h), tok);
    var h1 := DropFull(h);
    if h1 != h {
      var k := MakeRoom(h, tok).evicted - h.evicted;
      assert h.live[1..][k - 1..] == h.live[k..];
    }
  }

  // ----- Every operation keeps the sequence numbers in order.

  lemma PushKeepsGood(h: Hist, now: nat, role: byte, text: seq<byte>)
    requires Good(h)
    ensures Good(Push(h, now, role, text))
  {
    hide MakeRoom, Stored;
    MakeRoomIsSuffix(h, EstimateTokens(text));
  }

  lemma TruncateKeepsGood(h: Hist, keep: nat)
    requires Good(h)
    ensures Good(TruncateKeep(h, keep))
    ensures Tail(h) <= Head(h) ==> TruncateKeep(h, keep).live == if keep < |h.live| then h.live[..keep] else h.live
  {
    if Tail(h) == Head(h) && h.live != [] {
      WrapsOnce(h.evicted, |h.live|);
    }
  }

  /** Adding fewer than 2^32 to a uint32_t counter changes it, and lowers it exactly when it wraps. */
  lemma WrapsOnce(t: nat, n: nat)
    requires 0 < n < U32
    ensures (t + n) % U32 != t % U32
    ensures (t + n) % U32 > t % U32 <==> t % U32 + n < U32
  {
    var q, r := t / U32, t % U32;
    assert t == q * U32 + r;
    if r + n < U32 {
      ModIs(t + n, U32, q, r + n);
    } else {
      ModIs(t + n, U32, q + 1, r + n - U32);
    }
  }

  // ----- The token budget.

  lemma {:induction false} SumOfTail(live: seq<Entry>, k: nat)
    requires k <= |live|
    ensures Sum(live[k..]) <= Sum(live)
  {
    if k > 0 {
      assert live[1..][k-1..] == live[k..];
      SumOfTail(live[1..], k - 1);
    } else {
      assert live[0..] == live;
    }
  }

  lemma SumOfOne(e: Entry)
    ensures Sum([e]) == e.tokens
  {
    assert [e][1..] == [];
  }

  lemma {:induction false} SumAppend(a: seq<Entry>, b: seq<Entry>)
    ensures Sum(a + b) == Sum(a) + Sum(b)
  {
    if a == [] {
      assert a + b == b;
    } else {
      assert (a + b)[1..] == a[1..] + b;
      SumAppend(a[1..], b);
    }
  }

  lemma ModShift(a: nat, b: nat)
    ensures (a % U32 + b) % U32 == (a + b) % U32
  {
    var q := a / U32;
    assert a == q * U32 + a % U32;
    var c := a % U32 + b;
    assert c == (c / U32) * U32 + c % U32;
    assert a + b == (q + c / U32) * U32 + c % U32;
    ModIs(a + b, U32, q + c / U32, c % U32);
  }

  /** How many entries the second loop evicts while the counters have not wrapped: it looks at the token sum modulo
      2^32. */
  function FirstFit(live: seq<Entry>, tok: nat, max: nat): (k: nat)
    ensures k <= |live|
    ensures k < |live| ==> (Sum(live[k..]) + tok) % U32 <= max
  {
    if live == [] || (Sum(live) + tok) % U32 <= max then assert live[0..] == live; 0
    else
      var k := FirstFit(live[1..], tok, max);
      assert live[1..][k..] == live[k + 1..];
      1 + k
  }

  /** The second loop evicts up to the first fit, and nothing once the counters straddle 2^32. */
  lemma {:induction false} DropOverIs(h: Hist, tok: nat)
    requires |h.live| <= RING
    ensures var k := if Tail(h) <= Head(h) then FirstFit(h.live, tok, h.max) else 0;
            DropOver(h, tok) == h.(live := h.live[k..], evicted := h.evicted + k)
    decreases |h.live|
  {
    hide Sum, Head, Tail;
    ModShift(Sum(h.live), tok);
    assert h.live[0..] == h.live;
    HeadIsNotTail(h);
    if h.live != [] {
      if (Window(h) + tok) % U32 > h.max && Head(h) > Tail(h) {
        EvictUnwrapped(h);
        DropOverIs(Evict(h), tok);
        var k := FirstFit(h.live[1..], tok, h.max);
        assert h.live[1..][k..] == h.live[k + 1..];
      }
    }
  }

  lemma HeadIsNotTail(h: Hist)
    requires |h.live| <= RING
    ensures Head(h) == Tail(h) <==> h.live == []
  {
    if h.live != [] { WrapsOnce(h.evicted, |h.live|); }
  }

  lemma EvictUnwrapped(h: Hist)
    requires 0 < |h.live| <= RING && Head(h) > Tail(h)
    ensures Head(Evict(h)) >= Tail(Evict(h)) && Sum(Evict(h).live) <= Sum(h.live)
  {
    hide Sum;
    SumOfTail(h.live, 1);
    WrapsOnce(h.evicted, |h.live|);
    AddUnwrapped(h.evicted, 1);
    AddUnwrapped(h.evicted, |h.live|);
    assert h.evicted + 1 + |Evict(h).live| == h.evicted + |h.live|;
  }

  lemma AddUnwrapped(t: nat, n: nat)
    requires t % U32 + n < U32
    ensures (t + n) % U32 == t % U32 + n
  {
    assert t == (t / U32) * U32 + t % U32;
    ModIs(t + n, U32, t / U32, t % U32 + n);
  }

  /** What decides, before the push, whether the budget will hold: the counters have not wrapped and the first fit is
      a real one, or nothing has to go. */
  predicate WillFit(h: Hist, tok: nat) {
    if Tail(h) <= Head(h) then
      var k := FirstFit(h.live, tok, h.max);
      k == |h.live| || Sum(h.live[k..]) + tok < U32
    else Sum(h.live) + tok <= h.max || h.live == []
  }

  /** After a push the tokens are within the maximum, or one entry is live, exactly when that was so. */
  lemma {:induction false} BudgetExactly(h: Hist, now: nat, role: byte, text: seq<byte>)
    requires Good(h) && h.max < U32
    ensures var h' := Push(h, now, role, text);
            Sum(h'.live) <= h.max || |h'.live| == 1 <==> WillFit(DropFull(h), EstimateTokens(text))
  {
    hide Stored, DropOver, DropFull, Sum, FirstFit, Tail, Head;
    var tok, h1 := EstimateTokens(text), DropFull(h);
    DropFullIs(h);
    DropOverIs(h1, tok);
    var k := if Tail(h1) <= Head(h1) then FirstFit(h1.live, tok, h1.max) else 0;
    assert h1.live[0..] == h1.live;
    var e := NewEntry(h, now, role, text);
    SumAppend(h1.live[k..], [e]);
    SumOfOne(e);
    FitIsReal(h1.live, k, tok, h1.max);
  }

  /** A sum below 2^32 is what the loop sees; one at or above it is over any maximum. */
  lemma FitIsReal(live: seq<Entry>, k: nat, tok: nat, max: nat)
    requires k <= |live| && max < U32
    ensures (Sum(live[k..]) + tok) % U32 <= max ==> (Sum(live[k..]) + tok <= max <==> Sum(live[k..]) + tok < U32)
  {
    hide Sum;
  }

  /** While sums stay below 2^32 and the counters have not wrapped, the budget will hold. */
  lemma {:induction false} SmallSumsFit(h: Hist, tok: nat)
    requires Tail(h) <= Head(h) && Sum(h.live) + tok < U32
    ensures WillFit(h, tok)
  {
    SumOfTail(h.live, FirstFit(h.live, tok, h.max));
  }

  /** Two live entries whose counters straddle 2^32: the push evicts nothing and the budget is broken. */
  lemma BudgetFailsAfterWrap(e: Entry, text: seq<byte>)
    requires e.tokens == 10 && |text| == 4
    ensures var h := Hist([e], U32 - 1, 5, e.seqno + 1);
            var h' := Push(h, 0, 0, text);
            Sum(h'.live) == 11 > h'.max && |h'.live| == 2
  {
    hide Stored;
    var h := Hist([e], U32 - 1, 5, e.seqno + 1);
    assert Head(h) == 0 && Tail(h) == U32 - 1;
    var n := NewEntry(h, 0, 0, text);
    SumOfOne(e);
    SumOfOne(n);
    SumAppend([e], [n]);
  }

  /** With the counters unwrapped and the token counts of storable texts, the budget is an invariant and the reported
      window is the exact sum. */
  ghost predicate Budgeted(h: Hist) {
    && h.max < U32 && |h.live| <= RING
    && h.evicted + |h.live| < U32
    && (forall i | 0 <= i < |h.live| :: h.live[i].tokens <= 0x4000)
    && (Sum(h.live) <= h.max || |h.live| <= 1)
  }

  lemma {:induction false} SumBound(live: seq<Entry>)
    requires forall i | 0 <= i < |live| :: live[i].tokens <= 0x4000
    ensures Sum(live) <= 0x4000 * |live|
  {
    if live != [] { SumBound(live[1..]); }
  }

  /** A ring of storable texts has far fewer than 2^32 tokens. */
  lemma BudgetLeavesRoom(h: Hist, tok: nat)
    requires Budgeted(h) && tok <= 0x4000
    ensures Sum(h.live) + tok < U32 && Window(h) == Sum(h.live)
  {
    hide Sum;
    SumBound(h.live);
  }

  lemma {:induction false} UnwrappedAfterDropFull(h: Hist)
    requires h.evicted + |h.live| < U32 && |h.live| <= RING
    ensures Tail(DropFull(h)) <= Head(DropFull(h))
  {
    hide DropFull, Tail, Head;
    DropFullIs(h);
    Unwrapped(DropFull(h));
  }

  lemma Unwrapped(h: Hist)
    requires h.evicted + |h.live| < U32
    ensures Tail(h) <= Head(h)
  {
  }

  lemma {:induction false} PushKeepsBudget(h: Hist, now: nat, role: byte, text: seq<byte>)
    requires Good(h) && Budgeted(h) && h.evicted + |h.live| + 1 < U32 && Storable(text)
    ensures Budgeted(Push(h, now, role, text))
  {
    hide Stored, MakeRoom, DropFull, Head, Tail, Sum, Increasing, WillFit, EstimateTokens, Push, Budgeted;
    var tok := EstimateTokens(text);
    TokenBound(text);
    BudgetLeavesRoom(h, tok);
    UnwrappedAfterDropFull(h);
    DropFullSum(h);
    BudgetMax(h);
    SmallSumsFit(DropFull(h), tok);
    BudgetExactly(h, now, role, text);
    var k := PushIsSuffix(h, now, role, text);
    BudgetedAfter(h, k, NewEntry(h, now, role, text), Push(h, now, role, text));
  }

  lemma BudgetMax(h: Hist)
    requires Budgeted(h)
    ensures h.max < U32
  {
  }

  lemma {:induction false} PushIsSuffix(h: Hist, now: nat, role: byte, text: seq<byte>) returns (k: nat)
    requires |h.live| <= RING
    ensures k <= |h.live| && |h.live| - k < RING
    ensures Push(h, now, role, text) == h.(live := h.live[k..] + [NewEntry(h, now, role, text)],
                                           evicted := h.evicted + k, nextSeq := h.nextSeq + 1)
  {
    hide Stored, MakeRoom, EstimateTokens;
    MakeRoomIsSuffix(h, EstimateTokens(text));
    k := MakeRoom(h, EstimateTokens(text)).evicted - h.evicted;
  }

  lemma {:induction false} BudgetedAfter(h: Hist, k: nat, e: Entry, h': Hist)
    requires Budgeted(h) && k <= |h.live| && |h.live| - k < RING && e.tokens <= 0x4000
    requires h.evicted + |h.live| + 1 < U32
    requires h'.live == h.live[k..] + [e] && h'.evicted == h.evicted + k && h'.max == h.max
    requires Sum(h'.live) <= h.max || |h'.live| == 1
    ensures Budgeted(h')
  {
    hide Sum;
  }

  lemma TokenBound(text: seq<byte>)
    requires Storable(text)
    ensures EstimateTokens(text) <= 0x4000
  {
  }

  lemma {:induction false} DropFullSum(h: Hist)
    requires |h.live| <= RING
    ensures Sum(DropFull(h).live) <= Sum(h.live)
  {
    hide Sum, DropFull;
    DropFullIs(h);
    if |h.live| == RING { SumOfTail(h.live, 1); }
  }

  lemma TruncateKeepsBudget(h: Hist, keep: nat)
    requires Budgeted(h)
    ensures Budgeted(TruncateKeep(h, keep))
  {
    if keep < |h.live| {
      SumAppend(h.live[..keep], h.live[keep..]);
      assert h.live == h.live[..keep] + h.live[keep..];
    }
  }

  // ----- The index answers range queries.

  ghost predicate Increasing(live: seq<Entry>) {
    forall i, j | 0 <= i < j < |live| :: live[i].seqno < live[j].seqno
  }

  /** The index of those live entries whose sequence numbers are in `keys`. */
  function Part(live: seq<Entry>, evicted: nat, keys: set<nat>): map<nat, nat> {
    if live == [] then map[]
    else
      var n := |live| - 1;
      var m := Part(live[..n], evicted, keys);
      if live[n].seqno in keys then m[live[n].seqno := (evicted + n) % RING] else m
  }

  /** What the index always is: some of the live entries, among them all that have data. */
  ghost predicate IndexOk(M: map<nat, nat>, live: seq<Entry>, evicted: nat) {
    M == Part(live, evicted, M.Keys) && forall i | 0 <= i < |live| && live[i].data.Held? :: live[i].seqno in M
  }

  /** The sequence numbers, from m on, of the live entries in `keys`. */
  function SeqnosIn(live: seq<Entry>, m: nat, keys: set<nat>): seq<nat> {
    if live == [] then []
    else
      var n := |live| - 1;
      SeqnosIn(live[..n], m, keys) + if m <= live[n].seqno && live[n].seqno in keys then [live[n].seqno] else []
  }

  /** The ring slots, oldest first, of the live entries in `keys` with sequence number at least m. */
  function SlotsIn(live: seq<Entry>, evicted: nat, m: nat, keys: set<nat>): seq<nat> {
    if live == [] then []
    else
      var n := |live| - 1;
      SlotsIn(live[..n], evicted, m, keys) + if m <= live[n].seqno
          && live[n].seqno in keys then [(evicted + n) % RING] else []
  }

  /** The ring slots of the live entries with sequence number at least m, oldest first. */
  function SlotsFrom(live: seq<Entry>, evicted: nat, m: nat): seq<nat> {
    if live == [] then []
    else
      var n := |live| - 1;
      SlotsFrom(live[..n], evicted, m) + if m <= live[n].seqno then [(evicted + n) % RING] else []
  }

  lemma {:induction false} SlotsInAll(live: seq<Entry>, t: nat, m: nat, keys: set<nat>)
    requires forall i | 0 <= i < |live| :: live[i].seqno in keys
    ensures SlotsIn(live, t, m, keys) == SlotsFrom(live, t, m)
  {
    if live != [] {
      var n := |live| - 1;
      forall i | 0 <= i < n ensures live[..n][i].seqno in keys { assert live[..n][i] == live[i]; }
      SlotsInAll(live[..n], t, m, keys);
    }
  }

  lemma {:induction false} PartKeys(live: seq<Entry>, t: nat, keys: set<nat>)
    requires Increasing(live)
    ensures forall k | k in Part(live, t, keys) :: live != [] && k <= live[|live| - 1].seqno
  {
    if live != [] {
      var n := |live| - 1;
      PartKeys(live[..n], t, keys);
      assert n > 0 ==> live[..n][n - 1].seqno < live[n].seqno;
    }
  }

  lemma RangeStep(M: map<nat, nat>, m: nat, ks: seq<nat>, k: nat, slot: nat)
    requires KeysFrom(M, m, ks) && forall j | j in M :: j < k
    ensures var M' := M[k := slot];
            var ks' := if m <= k then ks + [k] else ks;
            KeysFrom(M', m, ks') && ValuesAt(M', ks') == ValuesAt(M, ks) + if m <= k then [slot] else []
  {
    forall i | 0 <= i < |ks| ensures ks[i] in M && ks[i] < k {
      assert ks[i] in ks;
    }
    assert k !in ks;
  }

  /** A range query on the index lists the slots of the indexed live entries from m on, oldest first. */
  lemma {:induction false} RangeIsSlots(live: seq<Entry>, t: nat, m: nat, keys: set<nat>)
    requires Increasing(live)
    ensures KeysFrom(Part(live, t, keys), m, SeqnosIn(live, m, keys))
    ensures ValuesAt(Part(live, t, keys), SeqnosIn(live, m, keys)) == SlotsIn(live, t, m, keys)
  {
    hide ValuesAt, KeysFrom, Increasing;
    if live == [] {
      EmptyRange(m);
    } else {
      var n := |live| - 1;
      FrontIncreases(live);
      RangeIsSlots(live[..n], t, m, keys);
      PartKeys(live[..n], t, keys);
      if live[n].seqno in keys {
        RangeStep(Part(live[..n], t, keys), m, SeqnosIn(live[..n], m, keys), live[n].seqno, (t + n) % RING);
      }
      AppendNothing(SeqnosIn(live[..n], m, keys));
      AppendNothing(SlotsIn(live[..n], t, m, keys));
    }
  }

  lemma AppendNothing(s: seq<nat>)
    ensures s + [] == s
  {
  }

  lemma EmptyRange(m: nat)
    ensures KeysFrom(map[], m, []) && ValuesAt(map[], []) == []
  {
  }

  lemma FrontIncreases(live: seq<Entry>)
    requires Increasing(live) && live != []
    ensures Increasing(live[..|live| - 1])
    ensures |live| > 1 ==> live[..|live| - 1][|live| - 2].seqno < live[|live| - 1].seqno
  {
  }

  /** A new entry extends the indexed part. */
  lemma {:induction false} PartSnoc(live: seq<Entry>, t: nat, keys: set<nat>, e: Entry)
    requires forall i | 0 <= i < |live| :: live[i].seqno != e.seqno
    ensures Part(live + [e], t, keys + {e.seqno}) == Part(live, t, keys)[e.seqno := (t + |live|) % RING]
  {
    assert (live + [e])[..|live|] == live;
    PartSame(live, t, keys, keys + {e.seqno});
  }

  lemma {:induction false} PartSame(live: seq<Entry>, t: nat, a: set<nat>, b: set<nat>)
    requires forall i | 0 <= i < |live| :: live[i].seqno in a <==> live[i].seqno in b
    ensures Part(live, t, a) == Part(live, t, b)
  {
    if live != [] {
      var n := |live| - 1;
      forall i | 0 <= i < n ensures live[..n][i].seqno in a <==> live[..n][i].seqno in b {
        assert live[..n][i] == live[i];
      }
      PartSame(live[..n], t, a, b);
    }
  }

  lemma {:induction false} IndexOkSnoc(M: map<nat, nat>, live: seq<Entry>, t: nat, e: Entry)
    requires IndexOk(M, live, t) && forall i | 0 <= i < |live| :: live[i].seqno != e.seqno
    ensures IndexOk(M[e.seqno := (t + |live|) % RING], live + [e], t)
  {
    var M' := M[e.seqno := (t + |live|) % RING];
    assert M'.Keys == M.Keys + {e.seqno};
    PartSnoc(live, t, M.Keys, e);
  }

  // ----- Rebuilding.

  lemma {:induction false} RebuiltDomain(live: seq<Entry>, t: nat)
    requires Increasing(live)
    ensures forall k | k in Rebuilt(live, t) :: live != [] && k <= live[|live|-1].seqno
    ensures forall i | 0 <= i < |live| :: live[i].seqno in Rebuilt(live, t) <==> live[i].data.Held?
  {
    if live != [] {
      var n := |live| - 1;
      RebuiltDomain(live[..n], t);
      assert n > 0 ==> live[..n][n-1].seqno < live[n].seqno;
      forall i | 0 <= i < |live| ensures live[i].seqno in Rebuilt(live, t) <==> live[i].data.Held? {
        if i < n { assert live[..n][i] == live[i]; }
      }
    }
  }

  lemma {:induction false} IndexDomain(live: seq<Entry>, t: nat)
    ensures forall i | 0 <= i < |live| :: live[i].seqno in Index(live, t)
  {
    if live != [] {
      var n := |live| - 1;
      IndexDomain(live[..n], t);
      forall i | 0 <= i < |live| ensures live[i].seqno in Index(live, t) {
        if i < n { assert live[..n][i] == live[i]; }
      }
    }
  }

  lemma {:induction false} RebuiltIsIndex(live: seq<Entry>, t: nat)
    requires AllData(live)
    ensures Rebuilt(live, t) == Index(live, t)
  {
    if live != [] { RebuiltIsIndex(live[..|live|-1], t); }
  }

  lemma {:induction false} RebuiltIsPart(live: seq<Entry>, t: nat, keys: set<nat>)
    requires forall i | 0 <= i < |live| :: live[i].seqno in keys <==> live[i].data.Held?
    ensures Rebuilt(live, t) == Part(live, t, keys)
  {
    if live != [] {
      var n := |live| - 1;
      forall i | 0 <= i < n ensures live[..n][i].seqno in keys <==> live[..n][i].data.Held? {
        assert live[..n][i] == live[i];
      }
      RebuiltIsPart(live[..n], t, keys);
    }
  }

  /** A rebuilt index is a right one. */
  lemma {:induction false} RebuiltIsOk(live: seq<Entry>, t: nat)
    requires Increasing(live)
    ensures IndexOk(Rebuilt(live, t), live, t)
  {
    hide Rebuilt;
    RebuiltDomain(live, t);
    RebuiltIsPart(live, t, Rebuilt(live, t).Keys);
  }

  lemma {:induction false} IndexIsPart(live: seq<Entry>, t: nat, keys: set<nat>)
    requires forall i | 0 <= i < |live| :: live[i].seqno in keys
    ensures Index(live, t) == Part(live, t, keys)
  {
    if live != [] {
      var n := |live| - 1;
      forall i | 0 <= i < n ensures live[..n][i].seqno in keys { assert live[..n][i] == live[i]; }
      IndexIsPart(live[..n], t, keys);
    }
  }

  /** So is the index of all entries. */
  lemma {:induction false} FullIsOk(live: seq<Entry>, t: nat)
    ensures IndexOk(Index(live, t), live, t)
  {
    hide Index;
    IndexDomain(live, t);
    IndexIsPart(live, t, Index(live, t).Keys);
  }

  /** A rebuild restores the whole index exactly when every live entry still has its data. */
  lemma RebuildAgreesExactly(live: seq<Entry>, t: nat)
    requires Increasing(live)
    ensures Rebuilt(live, t) == Index(live, t) <==> AllData(live)
  {
    if AllData(live) {
      RebuiltIsIndex(live, t);
    } else {
      hide Index, Rebuilt;
      var i :| 0 <= i < |live| && live[i].data.Lost?;
      IndexDomain(live, t);
      RebuiltDomain(live, t);
      assert live[i].seqno in Index(live, t) && live[i].seqno !in Rebuilt(live, t);
    }
  }

  // ----- Reading back what was pushed.

  /** The raw block, cut at the buffer size less one as a uint32_t. */
  function Raw(d: seq<byte>, bufSize: nat): seq<byte>
    requires bufSize > 0
  {
    d[..Min(|d|, (bufSize - 1) % U32)]
  }

  /** history_get on one entry: what is copied to a buffer of the given size, or None for -ENOENT. */
  function Read(e: Entry, bufSize: nat): Option<seq<byte>>
    requires bufSize > 0
  {
    match e.data {
      case Lost(_) => None
      case Held(d) =>
        if d == [] then None
        else match Decode(d, [], Min(bufSize - 1, e.rawLen)) {
          case Some(text) => if text != [] then Some(text) else Some(Raw(d, bufSize))
          case None => Some(Raw(d, bufSize))
        }
    }
  }

  /** A pushed text comes back if and only if the buffer has room for it and a closing zero and its first match did not
      end early; otherwise the stored block comes back raw, cut at the buffer. */
  lemma PushThenRead(h: Hist, now: nat, role: byte, text: seq<byte>, bufSize: nat)
    requires bufSize > 0 && Storable(text)
    ensures Read(NewEntry(h, now, role, text), bufSize) ==
            if text == [] then None
            else if |text| < bufSize && !MatchesEarly(text) then Some(text)
            else Some(Raw(Stored(text), bufSize))
  {
    hide Decode, MatchesEarly, ParseAll, Roomy, EncSeqs;
    if text != [] {
      CompressNeverFails(text);
      RoundTripExactly(text, Min(bufSize - 1, |text|));
      assert Stored(text) == Enc(ParseAll(text));
      assert |EncLast(ParseAll(text).last)| > 0;
    }
  }

  // ----- Whole runs.

  datatype Op = OpPush(now: nat, role: byte, text: seq<byte>) | OpTruncate(keep: nat) | OpClear

  /** A push of a text that is not storable fails and changes nothing. */
  function Apply(h: Hist, op: Op): Hist {
    match op {
      case OpPush(now, role, text) => if Storable(text) then Push(h, now, role, text) else h
      case OpTruncate(keep) => TruncateKeep(h, keep)
      case OpClear => Clear(h)
    }
  }

  function Run(h: Hist, ops: seq<Op>): Hist {
    if ops == [] then h else Apply(Run(h, ops[..|ops|-1]), ops[|ops|-1])
  }

  function Start(max: nat): Hist { Hist([], 0, max, 0) }

  lemma ApplyKeeps(h: Hist, op: Op)
    requires Good(h) && AllData(h.live)
    ensures Good(Apply(h, op)) && AllData(Apply(h, op).live)
    ensures Apply(h, op).max == h.max
    ensures Apply(h, op).evicted + |Apply(h, op).live| <= h.evicted + |h.live| + 1
    ensures Apply(h, op).nextSeq <= h.nextSeq + 1
  {
    hide Stored, MakeRoom, Head, Tail;
    match op {
      case OpPush(now, role, text) =>
        PushKeepsGood(h, now, role, text);
        MakeRoomIsSuffix(h, EstimateTokens(text));
      case OpTruncate(keep) =>
        TruncateKeepsGood(h, keep);
      case OpClear =>
    }
  }

  /** After any run the live sequence numbers increase below next_seq and every live entry has data, so that
      a range query on the index gives the slots of the live entries from m on, oldest first. */
  lemma {:induction false} RunKeeps(max: nat, ops: seq<Op>)
    ensures Good(Run(Start(max), ops)) && AllData(Run(Start(max), ops).live)
    ensures Run(Start(max), ops).max == max && Run(Start(max), ops).nextSeq <= |ops|
    ensures Run(Start(max), ops).evicted + |Run(Start(max), ops).live| <= |ops|
  {
    if ops != [] {
      hide Apply;
      RunKeeps(max, ops[..|ops|-1]);
      ApplyKeeps(Run(Start(max), ops[..|ops|-1]), ops[|ops|-1]);
    }
  }

  // ----- What the live entries hold.

  /** One token for every four bytes begun. */
  ghost predicate TokensFor(tokens: nat, bytes: nat) { 4 * tokens - 4 < bytes <= 4 * tokens }

  /** An entry as a push of this text, role and time makes it. */
  ghost predicate Made(e: Entry, now: nat, role: byte, text: seq<byte>) {
    && e.timestamp == now && e.role == role && e.rawLen == |text| && TokensFor(e.tokens, |text|)
    && e.data == Held(Stored(text))
  }

  /** How many entries a push evicts: one from a full ring, and then up to the first fit unless the counters straddle
      2^32. */
  ghost function Evictions(h: Hist, tok: nat): nat {
    var h1 := if |h.live| == RING then Evict(h) else h;
    h1.evicted - h.evicted + if Tail(h1) <= Head(h1) then FirstFit(h1.live, tok, h.max) else 0
  }

  /** A push keeps the newest of the live entries as they are, and adds one made from what was pushed, with the next
      sequence number. */
  lemma PushAdds(h: Hist, now: nat, role: byte, text: seq<byte>) returns (k: nat)
    requires |h.live| <= RING
    ensures k <= |h.live| && k == Evictions(h, (|text| + 3) / 4)
    ensures var h' := Push(h, now, role, text);
            && |h'.live| == |h.live| - k + 1 && h'.live[..|h.live| - k] == h.live[k..]
            && Made(h'.live[|h.live| - k], now, role, text) && h'.live[|h.live| - k].seqno == h.nextSeq
            && h'.evicted == h.evicted + k && h'.nextSeq == h.nextSeq + 1 && h'.max == h.max
  {
    hide Stored, DropFull, DropOver, FirstFit, Head, Tail;
    DropFullIs(h);
    DropOverIs(DropFull(h), EstimateTokens(text));
    k := PushIsSuffix(h, now, role, text);
  }

  /** The first fit is the least: every longer suffix is too much. */
  lemma {:induction false} FirstFitIsLeast(live: seq<Entry>, tok: nat, max: nat, j: nat)
    requires j < FirstFit(live, tok, max)
    ensures (Sum(live[j..]) + tok) % U32 > max
  {
    if j == 0 {
      assert live[0..] == live;
    } else {
      assert live[1..][j - 1..] == live[j..];
      FirstFitIsLeast(live[1..], tok, max, j - 1);
    }
  }

  /** Some push of the run made the entry. */
  ghost predicate FromRun(e: Entry, ops: seq<Op>) {
    exists j :: 0 <= j < |ops| && ops[j].OpPush? && Storable(ops[j].text)
                && Made(e, ops[j].now, ops[j].role, ops[j].text)
  }

  lemma {:induction false} FromLonger(e: Entry, ops: seq<Op>, op: Op)
    requires FromRun(e, ops)
    ensures FromRun(e, ops + [op])
  {
    hide Made, Storable;
    var j :| 0 <= j < |ops| && ops[j].OpPush? && Storable(ops[j].text)
             && Made(e, ops[j].now, ops[j].role, ops[j].text);
    assert (ops + [op])[j] == ops[j];
  }

  /** Over every run, each live entry holds the time, role, length and block of a text that was pushed, and a token for
      every four bytes of it begun. */
  lemma {:induction false} RunHolds(max: nat, ops: seq<Op>, i: nat)
    requires i < |Run(Start(max), ops).live|
    ensures FromRun(Run(Start(max), ops).live[i], ops)
    decreases |ops|
  {
    hide Push, TruncateKeep, Made, Stored, FromRun;
    var n := |ops| - 1;
    var front, op := ops[..n], ops[n];
    assert ops == front + [op];
    var h := Run(Start(max), front);
    RunKeeps(max, front);
    match op {
      case OpPush(now, role, text) =>
        if Storable(text) {
          var k := PushAdds(h, now, role, text);
          if i < |h.live| - k {
            var live := Push(h, now, role, text).live;
            assert live[i] == live[..|h.live| - k][i] == h.live[k + i];
            RunHolds(max, front, k + i);
            FromLonger(h.live[k + i], front, op);
          } else {
            FromLast(Push(h, now, role, text).live[i], ops, n);
          }
        } else {
          RunHolds(max, front, i);
          FromLonger(h.live[i], front, op);
        }
      case OpTruncate(keep) =>
        TruncatePrefix(h, keep);
        RunHolds(max, front, i);
        FromLonger(h.live[i], front, op);
      case OpClear =>
    }
  }

  lemma FromLast(e: Entry, ops: seq<Op>, j: nat)
    requires j < |ops| && ops[j].OpPush? && Storable(ops[j].text)
    requires Made(e, ops[j].now, ops[j].role, ops[j].text)
    ensures FromRun(e, ops)
  {
  }

  lemma TruncatePrefix(h: Hist, keep: nat)
    ensures TruncateKeep(h, keep).live <= h.live
  {
  }

  /** The tokens of texts of these lengths. */
  function BytesAsTokens(live: seq<Entry>): nat {
    if live == [] then 0 else (live[0].rawLen + 3) / 4 + BytesAsTokens(live[1..])
  }

  lemma {:induction false} SumIsBytes(live: seq<Entry>)
    requires forall i | 0 <= i < |live| :: TokensFor(live[i].tokens, live[i].rawLen)
    ensures Sum(live) == BytesAsTokens(live)
  {
    if live != [] {
      assert TokensFor(live[0].tokens, live[0].rawLen);
      SumIsBytes(live[1..]);
    }
  }

  lemma {:induction false} RunTokens(max: nat, ops: seq<Op>)
    ensures Sum(Run(Start(max), ops).live) == BytesAsTokens(Run(Start(max), ops).live)
  {
    hide Run, Made, Stored;
    var live := Run(Start(max), ops).live;
    forall i | 0 <= i < |live| ensures TokensFor(live[i].tokens, live[i].rawLen) {
      RunHolds(max, ops, i);
      TokensOfRun(live[i], ops);
    }
    SumIsBytes(live);
  }

  lemma TokensOfRun(e: Entry, ops: seq<Op>)
    requires FromRun(e, ops)
    ensures TokensFor(e.tokens, e.rawLen)
  {
    hide Stored;
  }

  // ----- The budget over whole runs.

  /** The reported window is the exact token sum, and within the maximum unless a single entry is live. */
  ghost predicate InBudget(h: Hist) {
    Window(h) == Sum(h.live) && (Sum(h.live) <= h.max || |h.live| == 1)
  }

  /** Every run of fewer than 2^32 operations stays within budget, whatever the texts and the maximum. */
  lemma {:induction false} RunIsBudgeted(max: nat, ops: seq<Op>)
    requires max < U32 && |ops| < U32
    ensures Budgeted(Run(Start(max), ops)) && InBudget(Run(Start(max), ops))
    ensures Window(Run(Start(max), ops)) == BytesAsTokens(Run(Start(max), ops).live)
  {
    hide Apply, Budgeted, Sum;
    RunTokens(max, ops);
    var h := Run(Start(max), ops);
    if ops == [] {
      StartIsBudgeted(max);
    } else {
      var front, op := ops[..|ops| - 1], ops[|ops| - 1];
      RunIsBudgeted(max, front);
      RunKeeps(max, front);
      ApplyKeepsBudget(Run(Start(max), front), op);
    }
    BudgetLeavesRoom(h, 0);
    BudgetedIsIn(h);
  }

  lemma StartIsBudgeted(max: nat)
    requires max < U32
    ensures Budgeted(Start(max))
  {
  }

  lemma BudgetedIsIn(h: Hist)
    requires Budgeted(h)
    ensures Sum(h.live) <= h.max || |h.live| == 1
  {
    if h.live == [] { assert Sum(h.live) == 0; }
  }

  lemma {:induction false} ApplyKeepsBudget(h: Hist, op: Op)
    requires Good(h) && Budgeted(h) && h.evicted + |h.live| + 1 < U32
    ensures Budgeted(Apply(h, op))
  {
    hide Push, TruncateKeep;
    match op {
      case OpPush(now, role, text) => if Storable(text) { PushKeepsBudget(h, now, role, text); }
      case OpTruncate(keep) => TruncateKeepsBudget(h, keep);
      case OpClear =>
    }
  }
}
