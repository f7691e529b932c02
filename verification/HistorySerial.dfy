/** The byte format of a saved history (history_serialize, history_deserialize). */
module HistorySerial {
  import opened Bytes
  import opened Errno
  import opened HistorySpec
  import opened Lz4Spec
  import opened Lz4Proofs

  const MAGIC_V1: nat := 0x4849_5354
  const MAGIC_V2: nat := 0x3253_4948

  /** What data_len is. */
  function DataLen(e: Entry): nat {
    if e.data.Held? then |e.data.bytes| else e.data.len
  }

  /** The bytes that are written after the length. */
  function Payload(e: Entry): seq<byte> {
    if e.data.Held? then e.data.bytes else []
  }

  /** No payload has been lost: an entry without data has length 0. */
  ghost predicate Whole(live: seq<Entry>) {
    forall i | 0 <= i < |live| :: live[i].data.Held? || live[i].data.len == 0
  }

  // ----- Writing.

  function SerEntry(e: Entry): (s: seq<byte>)
    ensures |s| == 29 + |Payload(e)|
  {
    Le(e.timestamp, 8) + Le(e.seqno, 8) + [e.role] + Le(e.tokens, 4) + Le(e.rawLen, 4) + Le(DataLen(e), 4) + Payload(e)
  }

  function SerEntries(live: seq<Entry>): seq<byte> {
    if live == [] then [] else SerEntry(live[0]) + SerEntries(live[1..])
  }

  function SerHeader(h: Hist): (s: seq<byte>)
    ensures |s| == 24
  {
    Le(MAGIC_V2, 4) + Le(|h.live|, 4) + Le(h.max, 4) + Le(Window(h), 4) + Le(h.nextSeq, 8)
  }

  function Ser(h: Hist): seq<byte> {
    SerHeader(h) + SerEntries(h.live)
  }

  /** The size history_serialize asks for. */
  function Needed(live: seq<Entry>): nat {
    if live == [] then 24 else 29 + DataLen(live[0]) + Needed(live[1..])
  }

  // ----- Reading.

  function U(s: seq<byte>, p: nat, n: nat): nat
    requires p + n <= |s|
  {
    FromLe(s[p..p + n])
  }

  /** kmalloc gives NULL for 0 bytes and for too many: such an entry comes back without data. */
  function Restored(payload: seq<byte>): (d: Data)
    ensures d.Held? ==> d.bytes == payload
    ensures d.Lost? ==> d.len == |payload|
  {
    if payload == [] || |payload| > KMALLOC_MAX then Lost(|payload|) else Held(payload)
  }

  function HeaderSize(v2: bool): nat { if v2 then 29 else 21 }

  /** The entry at p, and where the next one starts; None when the buffer ends first. */
  function ReadEntry(s: seq<byte>, p: nat, v2: bool, freshSeq: nat): (r: Option<(Entry, nat)>)
    ensures r.Some? ==> p + HeaderSize(v2) <= r.value.1 <= |s|
  {
    if p + HeaderSize(v2) > |s| then None
    else
      var q := p + if v2 then 16 else 8;
      var len := U(s, q + 9, 4);
      var d := q + 13;
      if d + len > |s| then None
      else
        var seqno := if v2 then U(s, p + 8, 8) else freshSeq;
        var e := Entry(U(s, p, 8), seqno, s[q], U(s, q + 1, 4), Restored(s[d..d + len]), U(s, q + 5, 4));
        Some((e, d + len))
  }

  /** The entry loop: at most `count` more entries from p on. */
  function ReadEntries(s: seq<byte>, p: nat, count: nat, v2: bool, h: Hist): (r: Hist)
    decreases count
  {
    if count == 0 then h
    else match ReadEntry(s, p, v2, h.nextSeq) {
      case None => h
      case Some((e, q)) =>
        ReadEntries(s, q, count - 1, v2,
                    h.(live := h.live + [e], nextSeq := if v2 then h.nextSeq else h.nextSeq + 1))
    }
  }

  datatype Outcome = Outcome(rc: int, h: Hist)

  /** history_deserialize into a history h0. */
  function Deser(s: seq<byte>, h0: Hist): Outcome {
    if |s| < 16 then Outcome(EINVAL, h0)
    else
      var magic := U(s, 0, 4);
      var v2 := magic == MAGIC_V2;
      if magic != MAGIC_V1 && !v2 then Outcome(EINVAL, h0)
      else
        var h1 := Clear(h0).(max := U(s, 8, 4));
        if v2 && |s| < 24 then Outcome(EINVAL, h1)
        else
          var h2 := if v2 then h1.(nextSeq := U(s, 16, 8)) else h1;
          Outcome(0, ReadEntries(s, if v2 then 24 else 16, U(s, 4, 4), v2, h2))
  }

  // ----- Saving and loading.

  /** Every field fits the width it is saved in. */
  ghost predicate FieldsFit(e: Entry) {
    e.timestamp < U64 && e.seqno < U64 && e.tokens < U32 && e.rawLen < U32 && DataLen(e) < U32
  }

  /** And the payload fits a block of memory. */
  ghost predicate EntryFits(e: Entry) {
    FieldsFit(e) && (e.data.Held? ==> |e.data.bytes| <= KMALLOC_MAX)
  }

  ghost predicate Fits(h: Hist) {
    && |h.live| < U32 && h.max < U32 && h.nextSeq < U64
    && forall i | 0 <= i < |h.live| :: EntryFits(h.live[i])
  }

  /** An entry after saving and loading: only an empty payload leaves a trace. */
  function Back(e: Entry): Entry {
    if DataLen(e) == 0 then e.(data := Lost(0)) else e
  }

  function Reloaded(live: seq<Entry>): (r: seq<Entry>)
    ensures |r| == |live|
    ensures forall i | 0 <= i < |live| :: r[i] == Back(live[i])
  {
    if live == [] then [] else [Back(live[0])] + Reloaded(live[1..])
  }

  /** Never more is written than the size asked for, and exactly that if and only if no payload has been lost. */
  lemma {:induction false} NeededIsWritten(h: Hist)
    ensures |Ser(h)| <= Needed(h.live)
    ensures |Ser(h)| == Needed(h.live) <==> Whole(h.live)
  {
    EntriesSize(h.live);
  }

  lemma {:induction false} EntriesSize(live: seq<Entry>)
    ensures |SerEntries(live)| + 24 <= Needed(live)
    ensures |SerEntries(live)| + 24 == Needed(live) <==> Whole(live)
  {
    if live != [] {
      EntriesSize(live[1..]);
      assert Whole(live) <==> Whole([live[0]]) && Whole(live[1..]) by { WholeCons(live); }
    }
  }

  lemma WholeCons(live: seq<Entry>)
    requires live != []
    ensures Whole(live) <==> Whole([live[0]]) && Whole(live[1..])
  {
    var rest := live[1..];
    if Whole([live[0]]) && Whole(rest) {
      forall i | 0 <= i < |live| ensures live[i].data.Held? || live[i].data.len == 0 {
        assert live[i] == if i == 0 then [live[0]][0] else rest[i - 1];
      }
    }
    if Whole(live) {
      forall i | 0 <= i < |rest| ensures rest[i].data.Held? || rest[i].data.len == 0 { assert rest[i] == live[i + 1]; }
    }
  }

  /** A field found where it was written is read back. */
  lemma FieldBack(s: seq<byte>, p: nat, v: nat, n: nat)
    requires p + n <= |s| && s[p..p + n] == Le(v, n) && v < Pow256(n)
    ensures U(s, p, n) == v
  {
    LeRoundTrip(v, n);
  }

  /** Where the fields of an entry lie. */
  lemma EntryLayout(e: Entry)
    ensures var s := SerEntry(e);
            && s[0..8] == Le(e.timestamp, 8) && s[8..16] == Le(e.seqno, 8) && s[16] == e.role
            && s[17..21] == Le(e.tokens, 4) && s[21..25] == Le(e.rawLen, 4)
            && s[25..29] == Le(DataLen(e), 4) && s[29..] == Payload(e)
  {
    hide Le, Payload, DataLen;
  }

  lemma Middle(pre: seq<byte>, x: seq<byte>, post: seq<byte>, a: nat, b: nat)
    requires a <= b <= |x|
    ensures (pre + x + post)[|pre| + a..|pre| + b] == x[a..b]
  {
  }

  lemma ReadEntryBack(pre: seq<byte>, e: Entry, post: seq<byte>, freshSeq: nat)
    requires FieldsFit(e) && DataLen(e) == |Payload(e)|
    ensures ReadEntry(pre + SerEntry(e) + post, |pre|, true, freshSeq) ==
            Some((e.(data := Restored(Payload(e))), |pre| + |SerEntry(e)|))
  {
    hide SerEntry, Le, FromLe, Payload, DataLen, Restored, Pow256;
    var x := SerEntry(e);
    var s := pre + x + post;
    var p := |pre|;
    FieldsBack(pre, e, post);
    EntryLayout(e);
    Middle(pre, x, post, 29, |x|);
    assert s[p + 16] == x[16];
    assert x[29..|x|] == x[29..];
  }

  lemma FieldsBack(pre: seq<byte>, e: Entry, post: seq<byte>)
    requires FieldsFit(e)
    ensures var s, p := pre + SerEntry(e) + post, |pre|;
            && U(s, p, 8) == e.timestamp && U(s, p + 8, 8) == e.seqno && U(s, p + 17, 4) == e.tokens
            && U(s, p + 21, 4) == e.rawLen && U(s, p + 25, 4) == DataLen(e)
  {
    hide SerEntry, Le, FromLe, Payload, DataLen, Pow256;
    var x := SerEntry(e);
    var s := pre + x + post;
    var p := |pre|;
    EntryLayout(e);
    Pow256Values();
    Middle(pre, x, post, 0, 8);
    Middle(pre, x, post, 8, 16);
    Middle(pre, x, post, 17, 21);
    Middle(pre, x, post, 21, 25);
    Middle(pre, x, post, 25, 29);
    FieldBack(s, p, e.timestamp, 8);
    FieldBack(s, p + 8, e.seqno, 8);
    FieldBack(s, p + 17, e.tokens, 4);
    FieldBack(s, p + 21, e.rawLen, 4);
    FieldBack(s, p + 25, DataLen(e), 4);
  }

  lemma RestoredIsBack(e: Entry)
    requires EntryFits(e) && Whole([e])
    ensures DataLen(e) == |Payload(e)| && e.(data := Restored(Payload(e))) == Back(e)
  {
    assert [e][0].data.Held? || [e][0].data.len == 0;
  }

  lemma {:induction false} ReadEntriesBack(pre: seq<byte>, live: seq<Entry>, h: Hist)
    requires Whole(live) && forall i | 0 <= i < |live| :: EntryFits(live[i])
    ensures ReadEntries(pre + SerEntries(live), |pre|, |live|, true, h) == h.(live := h.live + Reloaded(live))
    decreases |live|
  {
    hide SerEntry, ReadEntry, FieldsFit, ReadEntries, Restored, Payload, Reloaded, SerEntries, Back, DataLen, Whole;
    ReloadedStep(live, h.live);
    if live == [] {
      ReadNoEntries(pre + SerEntries(live), |pre|, h);
    } else {
      var x := SerEntry(live[0]);
      var rest := SerEntries(live[1..]);
      SerEntriesStep(pre, live);
      WholeCons(live);
      RestoredIsBack(live[0]);
      ReadEntryBack(pre, live[0], rest, h.nextSeq);
      var e := Back(live[0]);
      ReadEntriesStep(pre + x + rest, |pre|, |live|, h, e, |pre| + |x|);
      var h1 := h.(live := h.live + [e]);
      ReadEntriesBack(pre + x, live[1..], h1);
    }
  }

  lemma {:induction false} SerEntriesStep(pre: seq<byte>, live: seq<Entry>)
    requires live != []
    ensures pre + SerEntries(live) == pre + SerEntry(live[0]) + SerEntries(live[1..])
  {
    hide SerEntry;
  }

  lemma {:induction false} ReloadedStep(live: seq<Entry>, before: seq<Entry>)
    ensures live == [] ==> before + Reloaded(live) == before
    ensures live != [] ==>
              before + Reloaded(live) == (before + [Back(live[0])]) + Reloaded(live[1..])
  {
    hide Back;
  }

  lemma ReadNoEntries(s: seq<byte>, p: nat, h: Hist)
    ensures ReadEntries(s, p, 0, true, h) == h
  {
  }

  lemma ReadEntriesStep(s: seq<byte>, p: nat, count: nat, h: Hist, e: Entry, q: nat)
    requires count > 0 && ReadEntry(s, p, true, h.nextSeq) == Some((e, q))
    ensures ReadEntries(s, p, count, true, h) == ReadEntries(s, q, count - 1, true, h.(live := h.live + [e]))
  {
    hide ReadEntry;
  }

  lemma HeaderLayout(h: Hist)
    ensures var s := SerHeader(h);
            && s[0..4] == Le(MAGIC_V2, 4) && s[4..8] == Le(|h.live|, 4) && s[8..12] == Le(h.max, 4)
            && s[12..16] == Le(Window(h), 4) && s[16..24] == Le(h.nextSeq, 8)
  {
    hide Le, Window;
    assert forall i | 0 <= i < 8 :: SerHeader(h)[16 + i] == Le(h.nextSeq, 8)[i];
  }

  lemma HeaderBack(h: Hist)
    requires |h.live| < U32 && h.max < U32 && h.nextSeq < U64
    ensures var s := Ser(h);
            && |s| >= 24 && U(s, 0, 4) == MAGIC_V2 && U(s, 4, 4) == |h.live| && U(s, 8, 4) == h.max
            && U(s, 12, 4) == Window(h) && U(s, 16, 8) == h.nextSeq
  {
    hide SerHeader, SerEntries, Le, FromLe, Pow256;
    var s := Ser(h);
    var x := SerHeader(h);
    HeaderLayout(h);
    Pow256Values();
    assert s[0..4] == x[0..4] && s[4..8] == x[4..8] && s[8..12] == x[8..12] && s[12..16] == x[12..16];
    assert s[16..24] == x[16..24];
    FieldBack(s, 12, Window(h), 4);
    FieldBack(s, 0, MAGIC_V2, 4);
    FieldBack(s, 4, |h.live|, 4);
    FieldBack(s, 8, h.max, 4);
    FieldBack(s, 16, h.nextSeq, 8);
  }

  lemma SavedComesBack(h: Hist, h0: Hist)
    requires Fits(h) && Whole(h.live)
    ensures Deser(Ser(h), h0) == Outcome(0, Hist(Reloaded(h.live), 0, h.max, h.nextSeq))
  {
    hide SerHeader, SerEntries, ReadEntries, U, Whole;
    HeaderBack(h);
    ReadEntriesBack(SerHeader(h), h.live, Hist([], 0, h.max, h.nextSeq));
    assert [] + Reloaded(h.live) == Reloaded(h.live);
  }

  /** Every entry that is read takes up its header and the length it has then. */
  lemma {:induction false} ReadTakesRoom(s: seq<byte>, p: nat, count: nat, h: Hist)
    requires p <= |s|
    ensures var r := ReadEntries(s, p, count, true, h);
            && h.live <= r.live && |r.live| <= |h.live| + count
            && p + Needed(r.live[|h.live|..]) - 24 <= |s|
    decreases count
  {
    hide ReadEntry, Needed, DataLen;
    var r := ReadEntries(s, p, count, true, h);
    if count > 0 && ReadEntry(s, p, true, h.nextSeq).Some? {
      var (e, q) := ReadEntry(s, p, true, h.nextSeq).value;
      EntryTakesRoom(s, p, h.nextSeq);
      ReadEntriesStep(s, p, count, h, e, q);
      hide ReadEntries;
      ReadTakesRoom(s, q, count - 1, h.(live := h.live + [e]));
      NeedsMore(r.live, |h.live|);
    } else {
      NeedsMore(r.live, |h.live|);
    }
  }

  lemma NeedsMore(live: seq<Entry>, n: nat)
    requires n <= |live|
    ensures Needed(live[n..]) == if n == |live| then 24 else 29 + DataLen(live[n]) + Needed(live[n + 1..])
  {
    assert n < |live| ==> live[n..][1..] == live[n + 1..];
  }

  lemma EntryTakesRoom(s: seq<byte>, p: nat, freshSeq: nat)
    requires ReadEntry(s, p, true, freshSeq).Some?
    ensures var (e, q) := ReadEntry(s, p, true, freshSeq).value; q == p + 29 + DataLen(e) <= |s|
  {
  }

  /** What was saved comes back, the same entries, budget and numbering with the ring rotated to slot 0, if and only if
      no payload has been lost; only an entry with an empty payload then comes back without data. */
  lemma RoundTrip(h: Hist, h0: Hist)
    requires Fits(h)
    ensures Deser(Ser(h), h0) == Outcome(0, Hist(Reloaded(h.live), 0, h.max, h.nextSeq)) <==> Whole(h.live)
  {
    hide SerHeader, SerEntries, ReadEntries, U, Whole, Needed;
    if Whole(h.live) {
      SavedComesBack(h, h0);
    } else if Deser(Ser(h), h0) == Outcome(0, Hist(Reloaded(h.live), 0, h.max, h.nextSeq)) {
      HeaderBack(h);
      NeededIsWritten(h);
      ReadTakesRoom(Ser(h), 24, |h.live|, Hist([], 0, h.max, h.nextSeq));
      assert Reloaded(h.live)[0..] == Reloaded(h.live);
      ReloadedNeeds(h.live);
    }
  }

  lemma {:induction false} ReloadedNeeds(live: seq<Entry>)
    ensures Needed(Reloaded(live)) == Needed(live)
  {
    if live != [] {
      assert Reloaded(live)[1..] == Reloaded(live[1..]);
      ReloadedNeeds(live[1..]);
    }
  }

  /** A payload that no block of memory can hold: it loads as a good history, whose size is then computed with the
      payload and written without it, and which loads back without the entry. */
  lemma LargePayloadIsLost(e: Entry, h0: Hist)
    requires FieldsFit(e) && e.seqno + 1 < U64 && e.data.Held? && |e.data.bytes| == 70000
    ensures var h := Hist([e], 0, 100, e.seqno + 1);
            var g := Hist([e.(data := Lost(70000))], 0, 100, e.seqno + 1);
            && Deser(Ser(h), h0) == Outcome(0, g) && Good(g)
            && Needed(g.live) == 70053 && |Ser(g)| == 53
            && Deser(Ser(g), h0) == Outcome(0, Hist([], 0, 100, e.seqno + 1))
  {
    hide SerHeader, SerEntry, ReadEntry, Deser, Ser;
    var lost := e.(data := Lost(70000));
    var h, g := Hist([e], 0, 100, e.seqno + 1), Hist([lost], 0, 100, e.seqno + 1);
    LoadOneEntry(h, e, h0);
    LoadOneEntry(g, lost, h0);
    ReadEntryBack(SerHeader(h), e, [], h.nextSeq);
    LostStopsReading(SerHeader(g), lost, g.nextSeq);
    assert g.live[1..] == [];
  }

  /** Loading a saved history of one entry. */
  lemma LoadOneEntry(h: Hist, e: Entry, h0: Hist)
    requires h.live == [e] && h.max < U32 && h.nextSeq < U64
    ensures |Ser(h)| == 24 + |SerEntry(e)|
    ensures Deser(Ser(h), h0) ==
            Outcome(0, Hist(match ReadEntry(SerHeader(h) + SerEntry(e) + [], 24, true, h.nextSeq) {
                              case None => []
                              case Some(r) => [r.0]
                            }, 0, h.max, h.nextSeq))
  {
    hide SerHeader, SerEntry, U, ReadEntry;
    HeaderBack(h);
    assert h.live[1..] == [];
    assert SerEntries(h.live) == SerEntry(e);
    assert Ser(h) == SerHeader(h) + SerEntry(e) + [];
  }

  lemma LostStopsReading(pre: seq<byte>, e: Entry, freshSeq: nat)
    requires FieldsFit(e) && e.data.Lost? && e.data.len > 0
    ensures ReadEntry(pre + SerEntry(e) + [], |pre|, true, freshSeq) == None
  {
    hide SerEntry, U;
    FieldsBack(pre, e, []);
  }

  lemma {:induction false} ReloadedSum(live: seq<Entry>)
    ensures Sum(Reloaded(live)) == Sum(live)
  {
    if live != [] {
      assert Reloaded(live)[1..] == Reloaded(live[1..]);
      ReloadedSum(live[1..]);
    }
  }

  /** The reloaded history is as good as the saved one, and its token window is the same. */
  lemma ReloadedIsGood(h: Hist)
    requires Good(h)
    ensures var r := Hist(Reloaded(h.live), 0, h.max, h.nextSeq);
            Good(r) && Window(r) == Window(h) && (Fits(h) ==> Fits(r))
  {
    hide Back, Sum, EntryFits;
    ReloadedSum(h.live);
    forall i | 0 <= i < |h.live| ensures Back(h.live[i]).seqno == h.live[i].seqno { BackIs(h.live[i]); }
    if Fits(h) {
      forall i | 0 <= i < |h.live| ensures EntryFits(Reloaded(h.live)[i]) { BackIs(h.live[i]); }
    }
  }

  lemma BackIs(e: Entry)
    ensures Back(e).seqno == e.seqno && (EntryFits(e) ==> EntryFits(Back(e)))
  {
  }

  /** Later rebuilds of the reloaded index keep every entry exactly when every saved entry had data. */
  lemma ReloadedSurvivesRebuild(h: Hist)
    requires Good(h)
    ensures Rebuilt(Reloaded(h.live), 0) == Index(Reloaded(h.live), 0) <==>
            forall i | 0 <= i < |h.live| :: h.live[i].data.Held? && h.live[i].data.bytes != []
  {
    hide Rebuilt, Index;
    var r := Reloaded(h.live);
    RebuildAgreesExactly(r, 0);
    assert forall i | 0 <= i < |h.live| ::
             r[i].data.Held? <==> h.live[i].data.Held? && h.live[i].data.bytes != [];
  }

  /** Whatever is pushed can be saved. */
  lemma StoredFits(text: seq<byte>)
    requires Storable(text)
    ensures |Stored(text)| <= KMALLOC_MAX
  {
    hide Enc, ParseAll;
    if 1 <= |text| <= MAX_INPUT_SIZE {
      CompressNeverFails(text);
    }
  }

  lemma PushKeepsFits(h: Hist, now: nat, role: byte, text: seq<byte>)
    requires Good(h) && Fits(h) && now < U64 && Storable(text) && h.nextSeq + 1 < U64
    ensures Fits(Push(h, now, role, text))
  {
    hide Stored, MakeRoom, EntryFits;
    StoredFits(text);
    MakeRoomIsSuffix(h, EstimateTokens(text));
    NewEntryFits(h, now, role, text);
  }

  lemma NewEntryFits(h: Hist, now: nat, role: byte, text: seq<byte>)
    requires |Stored(text)| <= KMALLOC_MAX && now < U64 && Storable(text) && h.nextSeq < U64
    ensures EntryFits(NewEntry(h, now, role, text))
  {
    hide Stored;
  }

  // ----- The older format.

  /** An entry of a version 1 buffer: it has no sequence number. */
  function SerEntryV1(e: Entry): (s: seq<byte>)
    ensures |s| == 21 + |Payload(e)|
  {
    Le(e.timestamp, 8) + [e.role] + Le(e.tokens, 4) + Le(e.rawLen, 4) + Le(DataLen(e), 4) + Payload(e)
  }

  function SerEntriesV1(live: seq<Entry>): seq<byte> {
    if live == [] then [] else SerEntryV1(live[0]) + SerEntriesV1(live[1..])
  }

  function SerHeaderV1(count: nat, max: nat, window: nat): (s: seq<byte>)
    ensures |s| == 16
  {
    Le(MAGIC_V1, 4) + Le(count, 4) + Le(max, 4) + Le(window, 4)
  }

  /** The entries numbered from n on, as a version 1 buffer loads. */
  function Numbered(live: seq<Entry>, n: nat): (r: seq<Entry>)
    ensures |r| == |live|
    ensures forall i | 0 <= i < |live| :: r[i] == Back(live[i]).(seqno := n + i)
  {
    if live == [] then [] else [Back(live[0]).(seqno := n)] + Numbered(live[1..], n + 1)
  }

  lemma EntryLayoutV1(e: Entry)
    ensures var s := SerEntryV1(e);
            && s[0..8] == Le(e.timestamp, 8) && s[8] == e.role && s[9..13] == Le(e.tokens, 4)
            && s[13..17] == Le(e.rawLen, 4) && s[17..21] == Le(DataLen(e), 4) && s[21..] == Payload(e)
  {
    hide Le, Payload, DataLen;
  }

  lemma ReadEntryBackV1(pre: seq<byte>, e: Entry, post: seq<byte>, freshSeq: nat)
    requires EntryFits(e) && Whole([e])
    ensures ReadEntry(pre + SerEntryV1(e) + post, |pre|, false, freshSeq) ==
            Some((Back(e).(seqno := freshSeq), |pre| + |SerEntryV1(e)|))
  {
    RestoredIsBack(e);
    hide SerEntryV1, Le, FromLe, Payload, DataLen, Restored, Pow256, Back, Whole;
    var x := SerEntryV1(e);
    var s := pre + x + post;
    var p := |pre|;
    EntryLayoutV1(e);
    Pow256Values();
    Middle(pre, x, post, 0, 8);
    Middle(pre, x, post, 9, 13);
    Middle(pre, x, post, 13, 17);
    Middle(pre, x, post, 17, 21);
    Middle(pre, x, post, 21, |x|);
    FieldBack(s, p, e.timestamp, 8);
    FieldBack(s, p + 9, e.tokens, 4);
    FieldBack(s, p + 13, e.rawLen, 4);
    FieldBack(s, p + 17, DataLen(e), 4);
    assert s[p + 8] == x[8];
    assert x[21..|x|] == x[21..];
  }

  lemma {:induction false} ReadEntriesBackV1(pre: seq<byte>, live: seq<Entry>, h: Hist)
    requires Whole(live) && forall i | 0 <= i < |live| :: EntryFits(live[i])
    ensures ReadEntries(pre + SerEntriesV1(live), |pre|, |live|, false, h) ==
            h.(live := h.live + Numbered(live, h.nextSeq), nextSeq := h.nextSeq + |live|)
    decreases |live|
  {
    hide SerEntryV1, ReadEntry, FieldsFit, ReadEntries, Restored, Payload, Numbered, SerEntriesV1, Back, DataLen, Whole;
    NumberedStep(live, h.live, h.nextSeq);
    if live == [] {
      ReadNoEntriesV1(pre + SerEntriesV1(live), |pre|, h);
    } else {
      var x := SerEntryV1(live[0]);
      var rest := SerEntriesV1(live[1..]);
      SerEntriesStepV1(pre, live);
      WholeCons(live);
      ReadEntryBackV1(pre, live[0], rest, h.nextSeq);
      var e := Back(live[0]).(seqno := h.nextSeq);
      ReadEntriesStepV1(pre + x + rest, |pre|, |live|, h, e, |pre| + |x|);
      ReadEntriesBackV1(pre + x, live[1..], h.(live := h.live + [e], nextSeq := h.nextSeq + 1));
    }
  }

  lemma {:induction false} SerEntriesStepV1(pre: seq<byte>, live: seq<Entry>)
    requires live != []
    ensures pre + SerEntriesV1(live) == pre + SerEntryV1(live[0]) + SerEntriesV1(live[1..])
  {
    hide SerEntryV1;
  }

  lemma {:induction false} NumberedStep(live: seq<Entry>, before: seq<Entry>, n: nat)
    ensures live == [] ==> before + Numbered(live, n) == before
    ensures live != [] ==>
              before + Numbered(live, n) == (before + [Back(live[0]).(seqno := n)]) + Numbered(live[1..], n + 1)
  {
    hide Back;
  }

  lemma ReadNoEntriesV1(s: seq<byte>, p: nat, h: Hist)
    ensures ReadEntries(s, p, 0, false, h) == h
  {
  }

  lemma ReadEntriesStepV1(s: seq<byte>, p: nat, count: nat, h: Hist, e: Entry, q: nat)
    requires count > 0 && ReadEntry(s, p, false, h.nextSeq) == Some((e, q))
    ensures ReadEntries(s, p, count, false, h) ==
            ReadEntries(s, q, count - 1, false, h.(live := h.live + [e], nextSeq := h.nextSeq + 1))
  {
    hide ReadEntry;
  }

  lemma HeaderBackV1(count: nat, max: nat, window: nat, rest: seq<byte>)
    requires count < U32 && max < U32
    ensures var s := SerHeaderV1(count, max, window) + rest;
            U(s, 0, 4) == MAGIC_V1 && U(s, 4, 4) == count && U(s, 8, 4) == max
  {
    hide Le, FromLe, Pow256;
    var x := SerHeaderV1(count, max, window);
    var s := x + rest;
    Pow256Values();
    assert s[0..4] == x[0..4] == Le(MAGIC_V1, 4) && s[4..8] == x[4..8] == Le(count, 4);
    assert s[8..12] == x[8..12] == Le(max, 4);
    FieldBack(s, 0, MAGIC_V1, 4);
    FieldBack(s, 4, count, 4);
    FieldBack(s, 8, max, 4);
  }

  /** A version 1 buffer loads as its entries, numbered from 0 in order; the saved window does not matter. */
  lemma LoadsV1(live: seq<Entry>, max: nat, window: nat, h0: Hist)
    requires |live| < U32 && max < U32 && Whole(live) && forall i | 0 <= i < |live| :: EntryFits(live[i])
    ensures Deser(SerHeaderV1(|live|, max, window) + SerEntriesV1(live), h0) ==
            Outcome(0, Hist(Numbered(live, 0), 0, max, |live|))
  {
    hide SerHeaderV1, SerEntriesV1, ReadEntries, U, Whole, EntryFits;
    HeaderBackV1(|live|, max, window, SerEntriesV1(live));
    ReadEntriesBackV1(SerHeaderV1(|live|, max, window), live, Hist([], 0, max, 0));
    assert [] + Numbered(live, 0) == Numbered(live, 0);
  }

  // ----- Every reachable history.

  /** The clock fits its field. */
  ghost predicate OpFits(op: Op) { op.OpPush? ==> op.now < U64 }

  lemma {:induction false} ApplyKeepsFits(h: Hist, op: Op)
    requires Good(h) && Fits(h) && OpFits(op) && h.nextSeq + 1 < U64
    ensures Fits(Apply(h, op))
  {
    hide Push, EntryFits, Head, Tail, Good;
    match op {
      case OpPush(now, role, text) => if Storable(text) { PushKeepsFits(h, now, role, text); }
      case OpTruncate(keep) =>
      case OpClear =>
    }
  }

  lemma {:induction false} RunFits(max: nat, ops: seq<Op>)
    requires max < U32 && |ops| < U64 && forall i | 0 <= i < |ops| :: OpFits(ops[i])
    ensures Good(Run(Start(max), ops)) && Fits(Run(Start(max), ops))
  {
    hide Apply, Good;
    RunKeeps(max, ops);
    if ops != [] {
      var front := ops[..|ops| - 1];
      RunFits(max, front);
      RunKeeps(max, front);
      ApplyKeepsFits(Run(Start(max), front), ops[|ops| - 1]);
    }
  }

  /** The round trip of every reachable history: saving writes exactly the size asked for, and loading gives the same
      entries, maximum, numbering and token window, in a valid history with a right index. */
  lemma {:induction false} RunRoundTrip(max: nat, ops: seq<Op>, h0: Hist)
    requires max < U32 && |ops| < U64 && forall i | 0 <= i < |ops| :: OpFits(ops[i])
    ensures var h := Run(Start(max), ops);
            var r := Hist(Reloaded(h.live), 0, h.max, h.nextSeq);
            && Deser(Ser(h), h0) == Outcome(0, r) && |Ser(h)| == Needed(h.live)
            && Good(r) && Window(r) == Window(h) && IndexOk(Index(r.live, 0), r.live, 0)
  {
    hide Run, Good, Fits, Deser, Ser, Needed, Index, IndexOk, Window, Reloaded;
    var h := Run(Start(max), ops);
    RunFits(max, ops);
    RunKeeps(max, ops);
    assert Whole(h.live);
    SavedComesBack(h, h0);
    NeededIsWritten(h);
    ReloadedIsGood(h);
    FullIsOk(Reloaded(h.live), 0);
  }
}
