/** What lz4_decompress makes of what lz4_compress wrote. */
module Lz4Proofs {
  import opened Bytes
  import opened Counting
  import opened Lz4Spec

  ghost predicate LensOk(b: Block) {
    forall q | q in b.seqs :: MIN_MATCH <= q.len
  }

  /** The offset the decompressor rejects. */
  ghost predicate HasZeroOffset(b: Block) {
    exists i | 0 <= i < |b.seqs| :: b.seqs[i].offset == 0
  }

  // ----- Lengths survive the format.

  lemma {:induction false} ReadExtOfRun(acc: nat, r: nat, tail: seq<byte>)
    ensures ReadExt(acc, ExtRun(r) + tail) == Ext_(acc + r, tail)
    decreases r
  {
    hide ReadExt;
    if r >= 255 {
      assert ExtRun(r) + tail == [255] + (ExtRun(r - 255) + tail);
      ReadExtCons(acc, 255, ExtRun(r - 255) + tail);
      ReadExtOfRun(acc + 255, r - 255, tail);
    } else {
      ReadExtCons(acc, r, tail);
    }
  }

  lemma {:induction false} ReadExtCons(acc: nat, b: byte, s: seq<byte>)
    ensures ReadExt(acc, [b] + s) == if b < 255 then Ext_(acc + b, s) else ReadExt(acc + 255, s)
  {
    assert ([b] + s)[1..] == s;
  }

  // ----- A match copies source bytes.

  lemma LowByteAgrees(a: int, x: int, b: int, y: int)
    requires 0 <= a < 256 && 0 <= b < 256 && a + 256 * x == b + 256 * y
    ensures a == b && x == y
  {
  }

  lemma FourBytesAgree(s: seq<byte>, a: nat, b: nat)
    requires a + 4 <= |s| && b + 4 <= |s| && Read32(s, a) == Read32(s, b)
    ensures s[a] == s[b] && s[a+1] == s[b+1] && s[a+2] == s[b+2] && s[a+3] == s[b+3]
  {
    var a0: int, a1: int, a2: int, a3: int := s[a], s[a+1], s[a+2], s[a+3];
    var b0: int, b1: int, b2: int, b3: int := s[b], s[b+1], s[b+2], s[b+3];
    LowByteAgrees(a0, a1 + 0x100 * a2 + 0x1_0000 * a3, b0, b1 + 0x100 * b2 + 0x1_0000 * b3);
    LowByteAgrees(a1, a2 + 0x100 * a3, b1, b2 + 0x100 * b3);
    LowByteAgrees(a2, a3, b2, b3);
  }

  lemma MatchAgrees(s: seq<byte>, ip: nat, ref: nat)
    requires ref <= ip && ip + 4 < |s| && Read32(s, ref) == Read32(s, ip)
    ensures forall i | ip <= i < ip + MatchLen(s, ip, ref) :: s[i] == s[ref + (i - ip)]
  {
    FourBytesAgree(s, ref, ip);
    var n := Count(s, ip + 4, ref + 4);
    forall i | ip <= i < ip + 4 + n ensures s[i] == s[ref + (i - ip)] {
      if i >= ip + 4 { assert s[i] == s[ref + 4 + (i - (ip + 4))]; }
    }
  }

  /** Copying `len` bytes from `offset` back extends one source prefix to a longer one. */
  lemma {:induction false} CopyMatchExtends(s: seq<byte>, p: nat, offset: nat, len: nat)
    requires 1 <= offset <= p && p + len <= |s|
    requires forall i | p <= i < p + len :: s[i] == s[i - offset]
    ensures CopyMatch(s[..p], offset, len) == s[..p + len]
    decreases len
  {
    if len > 0 {
      assert s[..p] + [s[..p][p - offset]] == s[..p + 1];
      CopyMatchExtends(s, p + 1, offset, len - 1);
    }
  }

  // ----- Decoding one sequence.

  lemma TokenParts(lit: nat, m: nat)
    ensures Token(lit, m) / 16 == Min(lit, 15) && Token(lit, m) % 16 == Min(m, 15)
  {
    var t: int := Token(lit, m);
    assert t == 16 * Min(lit, 15) + Min(m, 15);
  }

  /** The literal part of a sequence, as the decompressor reads it. */
  lemma LiteralsDecode(lits: seq<byte>, m: nat, tail: seq<byte>)
    ensures LitPart([Token(|lits|, m)] + Ext(|lits|) + lits + tail) == Ext_(|lits|, lits + tail)
  {
    hide ExtRun, ReadExt, Token;
    var s := [Token(|lits|, m)] + Ext(|lits|) + lits + tail;
    TokenParts(|lits|, m);
    if |lits| >= 15 {
      assert s[1..] == ExtRun(|lits| - 15) + (lits + tail);
      ReadExtOfRun(15, |lits| - 15, lits + tail);
    } else {
      assert s[1..] == lits + tail;
    }
  }

  lemma MatchLenDecodes(lit: nat, len: nat, tail: seq<byte>)
    requires MIN_MATCH <= len
    ensures LenPart(Token(lit, len - MIN_MATCH), Ext(len - MIN_MATCH) + tail) == Ext_(len, tail)
  {
    hide ExtRun, ReadExt, Token;
    TokenParts(lit, len - MIN_MATCH);
    if len - MIN_MATCH >= 15 {
      ReadExtOfRun(19, len - MIN_MATCH - 15, tail);
    } else {
      assert [] + tail == tail;
    }
  }

  lemma Cut(a: seq<byte>, b: seq<byte>)
    ensures (a + b)[..|a|] == a && (a + b)[|a|..] == b
  {
  }

  /** One turn of the decompressor's loop, once the literals are known. */
  lemma {:induction false} DecodeStep(s: seq<byte>, out: seq<byte>, cap: nat, lits: seq<byte>, more: seq<byte>,
      offset: nat, len: nat, tail: seq<byte>)
    requires s != [] && LitPart(s) == Ext_(|lits|, lits + more) && 2 <= |more|
    requires offset == more[0] as int + 256 * (more[1] as int)
    requires LenPart(s[0], more[2..]) == Ext_(len, tail) && |tail| < |s|
    requires offset <= |out| + |lits| && |out| + |lits| + len <= cap
    ensures Decode(s, out, cap) == if offset == 0 then None else Decode(tail, CopyMatch(out + lits, offset, len), cap)
  {
    hide LitPart, LenPart, CopyMatch;
    Cut(lits, more);
    assert TakeTurn(s, out, cap) == AfterLiterals(s[0], more, out + lits, cap);
  }

  lemma SequenceDecodes(q: Sequence, tail: seq<byte>, out: seq<byte>, cap: nat)
    requires MIN_MATCH <= q.len && q.offset <= 65535
    requires q.offset <= |out| + |q.lits| && |out| + |q.lits| + q.len <= cap
    ensures Decode(EncSequence(q) + tail, out, cap) ==
            if q.offset == 0 then None else Decode(tail, CopyMatch(out + q.lits, q.offset, q.len), cap)
  {
    hide Ext, Token, LitPart, LenPart, Decode;
    var m := q.len - MIN_MATCH;
    var s := EncSequence(q) + tail;
    var more := Le16(q.offset) + (Ext(m) + tail);
    assert s == [Token(|q.lits|, m)] + Ext(|q.lits|) + q.lits + more;
    LiteralsDecode(q.lits, m, more);
    assert more[2..] == Ext(m) + tail;
    MatchLenDecodes(|q.lits|, q.len, tail);
    DecodeStep(s, out, cap, q.lits, more, q.offset, q.len, tail);
  }

  lemma LastDecodes(last: seq<byte>, out: seq<byte>, cap: nat)
    requires |out| + |last| <= cap
    ensures Decode(EncLast(last), out, cap) == Some(out + last)
  {
    var s := EncLast(last);
    assert s == [Token(|last|, 0)] + Ext(|last|) + last + [];
    LiteralsDecode(last, 0, []);
    assert last + [] == last;
    assert last[..|last|] == last;
  }

  // ----- The whole block.

  /** Decoding what the compressor emits from ip on, after the source up to anchor has been rebuilt. */
  lemma {:induction false} ParseDecodes(s: seq<byte>, ip: nat, anchor: nat, table: seq<nat>, cap: nat)
    requires anchor <= ip && anchor <= |s| <= cap && TableOk(table, ip)
    ensures Decode(Enc(Parse(s, ip, anchor, table)), s[..anchor], cap) ==
            if HasZeroOffset(Parse(s, ip, anchor, table)) then None else Some(s)
    decreases |s| - ip
  {
    hide Decode, Remember, Reseed, MatchLen, EncLast, EncSequence, Hash, Read32;
    var b := Parse(s, ip, anchor, table);
    if ip + MIN_MATCH >= |s| {
      LastDecodes(s[anchor..], s[..anchor], cap);
      assert s[..anchor] + s[anchor..] == s;
      assert EncSeqs([]) + EncLast(b.last) == EncLast(b.last);
    } else {
      var ref := table[Hash(Read32(s, ip))];
      var seen := Remember(s, ip, table);
      if !Probe(s, ip, table) {
        ParseDecodes(s, ip + 1, anchor, seen, cap);
      } else {
        var next := ip + MatchLen(s, ip, ref);
        var rest := Parse(s, next, next, Reseed(s, next, seen));
        ParseDecodes(s, next, next, Reseed(s, next, seen), cap);
        MatchDecodes(s, ip, anchor, ref, rest, cap);
      }
    }
  }

  lemma ZeroOffsetOfCons(q: Sequence, rest: Block)
    ensures HasZeroOffset(Block([q] + rest.seqs, rest.last)) <==> q.offset == 0 || HasZeroOffset(rest)
  {
    var b := Block([q] + rest.seqs, rest.last);
    if q.offset == 0 {
      assert b.seqs[0].offset == 0;
    }
    if HasZeroOffset(rest) {
      var i :| 0 <= i < |rest.seqs| && rest.seqs[i].offset == 0;
      assert b.seqs[i + 1].offset == 0;
    }
  }

  lemma EncOfCons(q: Sequence, rest: Block)
    requires MIN_MATCH <= q.len && LensOk(rest)
    ensures LensOk(Block([q] + rest.seqs, rest.last))
    ensures Enc(Block([q] + rest.seqs, rest.last)) == EncSequence(q) + Enc(rest)
  {
    var qs := [q] + rest.seqs;
    assert qs[0] == q && qs[1..] == rest.seqs;
    assert forall x | x in qs :: x == q || x in rest.seqs;
  }

  lemma MatchDecodes(s: seq<byte>, ip: nat, anchor: nat, ref: nat, rest: Block, cap: nat)
    requires anchor <= ip && ip + MIN_MATCH < |s| <= cap && ref <= ip <= ref + 65535
    requires Read32(s, ref) == Read32(s, ip) && LensOk(rest)
    requires Decode(Enc(rest), s[..ip + MatchLen(s, ip, ref)], cap) == if HasZeroOffset(rest) then None else Some(s)
    ensures var b := Block([Sequence(s[anchor..ip], ip - ref, MatchLen(s, ip, ref))] + rest.seqs, rest.last);
            LensOk(b) && Decode(Enc(b), s[..anchor], cap) == if HasZeroOffset(b) then None else Some(s)
  {
    hide Decode, Enc, MatchLen, HasZeroOffset, Read32, CopyMatch;
    var q := Sequence(s[anchor..ip], ip - ref, MatchLen(s, ip, ref));
    EncOfCons(q, rest);
    ZeroOffsetOfCons(q, rest);
    SequenceDecodes(q, Enc(rest), s[..anchor], cap);
    assert s[..anchor] + q.lits == s[..ip];
    if ref < ip {
      MatchAgrees(s, ip, ref);
      CopyMatchExtends(s, ip, ip - ref, q.len);
    }
  }

  // ----- A buffer that is too small.

  /** A turn that would write past the capacity fails. */
  lemma {:induction false} TurnFails(s: seq<byte>, out: seq<byte>, cap: nat, lits: seq<byte>, more: seq<byte>, len: nat)
    requires s != [] && LitPart(s) == Ext_(|lits|, lits + more) && |out| + |lits| + len > cap
    requires if more == [] then len == 0 else 2 <= |more| && LenPart(s[0], more[2..]).n == len
    ensures Decode(s, out, cap) == None
  {
    hide LitPart, LenPart, CopyMatch;
    Cut(lits, more);
    if |out| + |lits| <= cap {
      assert TakeTurn(s, out, cap) == AfterLiterals(s[0], more, out + lits, cap);
    }
  }

  lemma {:induction false} SequenceOverflows(q: Sequence, tail: seq<byte>, out: seq<byte>, cap: nat)
    requires MIN_MATCH <= q.len && |out| + |q.lits| + q.len > cap
    ensures Decode(EncSequence(q) + tail, out, cap) == None
  {
    hide Ext, Token, LitPart, LenPart, Decode;
    var m := q.len - MIN_MATCH;
    var s := EncSequence(q) + tail;
    var more := Le16(q.offset) + (Ext(m) + tail);
    assert s == [Token(|q.lits|, m)] + Ext(|q.lits|) + q.lits + more;
    LiteralsDecode(q.lits, m, more);
    assert more[2..] == Ext(m) + tail;
    MatchLenDecodes(|q.lits|, q.len, tail);
    TurnFails(s, out, cap, q.lits, more, q.len);
  }

  lemma {:induction false} LastOverflows(last: seq<byte>, out: seq<byte>, cap: nat)
    requires |out| + |last| > cap
    ensures Decode(EncLast(last), out, cap) == None
  {
    hide Decode, LitPart, Ext, Token;
    var s := EncLast(last);
    assert s == [Token(|last|, 0)] + Ext(|last|) + last + [];
    LiteralsDecode(last, 0, []);
    TurnFails(s, out, cap, last, [], 0);
  }

  /** Decoding into less room than the source fails, wherever the room runs out. */
  lemma {:induction false} ParseOverflows(s: seq<byte>, ip: nat, anchor: nat, table: seq<nat>, cap: nat)
    requires anchor <= ip && anchor <= cap < |s| && TableOk(table, ip)
    ensures Decode(Enc(Parse(s, ip, anchor, table)), s[..anchor], cap) == None
    decreases |s| - ip
  {
    hide Decode, Remember, Reseed, MatchLen, EncLast, EncSequence, Hash, Read32;
    var b := Parse(s, ip, anchor, table);
    if ip + MIN_MATCH >= |s| {
      LastOverflows(s[anchor..], s[..anchor], cap);
      assert EncSeqs([]) + EncLast(b.last) == EncLast(b.last);
    } else {
      var ref := table[Hash(Read32(s, ip))];
      var seen := Remember(s, ip, table);
      if !Probe(s, ip, table) {
        ParseOverflows(s, ip + 1, anchor, seen, cap);
      } else {
        var next := ip + MatchLen(s, ip, ref);
        var rest := Parse(s, next, next, Reseed(s, next, seen));
        if next <= cap { ParseOverflows(s, next, next, Reseed(s, next, seen), cap); }
        MatchOverflows(s, ip, anchor, ref, rest, cap);
      }
    }
  }

  lemma {:induction false} MatchOverflows(s: seq<byte>, ip: nat, anchor: nat, ref: nat, rest: Block, cap: nat)
    requires anchor <= ip && anchor <= cap && ip + MIN_MATCH < |s| && ref <= ip <= ref + 65535
    requires Read32(s, ref) == Read32(s, ip) && LensOk(rest)
    requires var next := ip + MatchLen(s, ip, ref); next <= cap ==> Decode(Enc(rest), s[..next], cap) == None
    ensures var b := Block([Sequence(s[anchor..ip], ip - ref, MatchLen(s, ip, ref))] + rest.seqs, rest.last);
            LensOk(b) && Decode(Enc(b), s[..anchor], cap) == None
  {
    hide Decode, Enc, MatchLen, Read32, CopyMatch;
    var q := Sequence(s[anchor..ip], ip - ref, MatchLen(s, ip, ref));
    EncOfCons(q, rest);
    if ip + q.len > cap {
      SequenceOverflows(q, Enc(rest), s[..anchor], cap);
    } else {
      SequenceDecodes(q, Enc(rest), s[..anchor], cap);
      assert s[..anchor] + q.lits == s[..ip];
      if ref < ip {
        MatchAgrees(s, ip, ref);
        CopyMatchExtends(s, ip, ip - ref, q.len);
      }
    }
  }

  /** LZ4 never yields wrong bytes: decompression returns the source, or fails, and it fails exactly when a zero offset
      was emitted or the source does not fit. */
  lemma RoundTrip(s: seq<byte>, cap: nat)
    requires 1 <= |s|
    ensures Decode(Enc(ParseAll(s)), [], cap) == if HasZeroOffset(ParseAll(s)) || cap < |s| then None else Some(s)
  {
    hide Decode, Enc, Parse;
    assert s[..0] == [];
    if cap < |s| {
      ParseOverflows(s, 1, 0, seq(HASH_SIZE, _ => 0), cap);
    } else {
      ParseDecodes(s, 1, 0, seq(HASH_SIZE, _ => 0), cap);
    }
  }

  // ----- Exactly when an offset 0 is emitted.

  ghost predicate Below(table: seq<nat>, n: nat) {
    forall h | 0 <= h < |table| :: table[h] < n
  }

  /** Past the first 64 KiB no remembered position is the current one. */
  lemma {:induction false} LateIsClean(s: seq<byte>, ip: nat, anchor: nat, table: seq<nat>)
    requires anchor <= ip && anchor <= |s| && TableOk(table, ip) && Below(table, 65536) && 65536 <= ip
    ensures !HasZeroOffset(Parse(s, ip, anchor, table))
    decreases |s| - ip
  {
    hide MatchLen, Hash, Read32, HasZeroOffset;
    if ip + MIN_MATCH < |s| {
      var ref := table[Hash(Read32(s, ip))];
      var seen := Remember(s, ip, table);
      if !Probe(s, ip, table) {
        LateIsClean(s, ip + 1, anchor, seen);
      } else {
        var next := ip + MatchLen(s, ip, ref);
        LateIsClean(s, next, next, Reseed(s, next, seen));
        ZeroOffsetOfCons(Sequence(s[anchor..ip], ip - ref, next - ip), Parse(s, next, next, Reseed(s, next, seen)));
      }
    } else {
      NoZeroInEmpty(s[anchor..]);
    }
  }

  lemma NoZeroInEmpty(last: seq<byte>)
    ensures !HasZeroOffset(Block([], last))
  {
  }

  /** Right after a match that ends early, the probe finds the position itself. */
  lemma EarlyEndEmitsZero(s: seq<byte>, next: nat, table: seq<nat>)
    requires next + MIN_MATCH < |s| && next < 65536 && TableOk(table, next)
    ensures HasZeroOffset(Parse(s, next, next, Reseed(s, next, table)))
  {
    hide MatchLen, Hash, Read32;
    var t := Reseed(s, next, table);
    assert t[Hash(Read32(s, next))] == next;
    assert Probe(s, next, t);
    assert Parse(s, next, next, t).seqs[0].offset == 0;
  }

  lemma {:induction false} ZeroOffsetExactly(s: seq<byte>, ip: nat, anchor: nat, table: seq<nat>)
    requires anchor <= ip && anchor <= |s| && TableOk(table, ip) && Below(table, ip) && Below(table, 65536)
    ensures HasZeroOffset(Parse(s, ip, anchor, table)) <==>
            match FirstMatchEnd(s, ip, table) {
              case None => false
              case Some(end) => end < 65536 && end + MIN_MATCH < |s|
            }
    decreases |s| - ip
  {
    hide MatchLen, Hash, Read32, HasZeroOffset;
    if ip + MIN_MATCH < |s| {
      var ref := table[Hash(Read32(s, ip))];
      var seen := Remember(s, ip, table);
      if !Probe(s, ip, table) {
        ZeroOffsetExactly(s, ip + 1, anchor, seen);
      } else {
        var next := ip + MatchLen(s, ip, ref);
        var rest := Parse(s, next, next, Reseed(s, next, seen));
        ZeroOffsetOfCons(Sequence(s[anchor..ip], ip - ref, next - ip), rest);
        if next + MIN_MATCH >= |s| {
          NoZeroInEmpty(s[next..]);
        } else if next < 65536 {
          EarlyEndEmitsZero(s, next, seen);
        } else {
          LateIsClean(s, next, next, Reseed(s, next, seen));
        }
      }
    } else {
      NoZeroInEmpty(s[anchor..]);
    }
  }

  /** The round trip holds if and only if the source fits and the first match does not end early. */
  lemma RoundTripExactly(s: seq<byte>, cap: nat)
    requires 1 <= |s|
    ensures Decode(Enc(ParseAll(s)), [], cap) == if MatchesEarly(s) || cap < |s| then None else Some(s)
  {
    hide Decode, Enc;
    RoundTrip(s, cap);
    ZeroOffsetExactly(s, 1, 0, seq(HASH_SIZE, _ => 0));
  }

  /** "aaaaaabcdef": the first match runs over the a's, the next probe matches itself, and the text does
      not come back. */
  lemma {:induction false} RoundTripFails()
    ensures exists s: seq<byte> :: |s| >= 1 && Decode(Enc(ParseAll(s)), [], |s|) == None
  {
    var s: seq<byte> := [97, 97, 97, 97, 97, 97, 98, 99, 100, 101, 102];
    var zeros := seq(HASH_SIZE, _ => 0);
    assert Read32(s, 0) == Read32(s, 1);
    assert Probe(s, 1, zeros);
    assert Count(s, 6, 5) == 0;
    assert Count(s, 5, 4) == 1;
    assert MatchLen(s, 1, 0) == 5;
    assert FirstMatchEnd(s, 1, zeros) == Some(6);
    RoundTripExactly(s, |s|);
  }

  // ----- How much is written.

  lemma {:induction false} RunSize(r: nat)
    ensures |ExtRun(r)| == r / 255 + 1
  {
    if r >= 255 { RunSize(r - 255); }
  }

  lemma ExtSize(n: nat)
    ensures |Ext(n)| == if n >= 15 then (n - 15) / 255 + 1 else 0
  {
    if n >= 15 { RunSize(n - 15); }
  }

  /** A sequence takes no more than the source bytes it stands for and a 255th of its literals. */
  lemma SequenceSize(q: Sequence)
    requires MIN_MATCH <= q.len
    ensures |EncSequence(q)| <= |q.lits| + q.len + |q.lits| / 255
  {
    ExtSize(|q.lits|);
    ExtSize(q.len - MIN_MATCH);
  }

  lemma LastSize(last: seq<byte>)
    ensures |EncLast(last)| <= |last| + |last| / 255 + 2
  {
    ExtSize(|last|);
  }

  /** The 255ths of the parts add up to no more than that of the whole. */
  lemma PiecesFit(anchor: nat, ip: nat, next: nat, n: nat, written: nat, size: nat)
    requires anchor <= ip <= next <= n && written <= anchor + anchor / 255
    requires size <= next - anchor + (ip - anchor) / 255
    ensures written + size <= next + next / 255 <= n + n / 255
  {
  }

  lemma {:induction false} LastFits(last: seq<byte>, written: nat, anchor: nat, n: nat, cap: nat)
    requires anchor + |last| == n && written <= anchor + anchor / 255 && n + n / 255 + 4 <= cap
    ensures Roomy([], last, written, cap) && written + |Enc(Block([], last))| <= n + n / 255 + 2
  {
    hide EncLast;
    LastSize(last);
    assert Enc(Block([], last)) == EncLast(last);
  }

  lemma {:induction false} SequenceFits(q: Sequence, rest: Block, written: nat, anchor: nat, n: nat, cap: nat)
    requires MIN_MATCH <= q.len && LensOk(rest) && anchor + |q.lits| + q.len <= n
    requires written <= anchor + anchor / 255 && n + n / 255 + 4 <= cap
    requires Roomy(rest.seqs, rest.last, written + |EncSequence(q)|, cap)
    ensures LensOk(Block([q] + rest.seqs, rest.last)) && Roomy([q] + rest.seqs, rest.last, written, cap)
    ensures |Enc(Block([q] + rest.seqs, rest.last))| == |EncSequence(q)| + |Enc(rest)|
  {
    hide Enc, EncSequence;
    EncOfCons(q, rest);
    assert ([q] + rest.seqs)[1..] == rest.seqs;
  }

  /** With n + n / 255 + 4 bytes of room every check passes, and at most n + n / 255 + 2 are written. */
  lemma {:induction false} ParseFits(s: seq<byte>, ip: nat, anchor: nat, table: seq<nat>, written: nat, cap: nat)
    requires anchor <= ip && anchor <= |s| && TableOk(table, ip)
    requires written <= anchor + anchor / 255 && |s| + |s| / 255 + 4 <= cap
    ensures Roomy(Parse(s, ip, anchor, table).seqs, Parse(s, ip, anchor, table).last, written, cap)
    ensures written + |Enc(Parse(s, ip, anchor, table))| <= |s| + |s| / 255 + 2
    decreases |s| - ip
  {
    hide Remember, Reseed, MatchLen, Hash, Read32, EncSequence, EncLast, Enc, Roomy, Probe;
    if ip + MIN_MATCH >= |s| {
      LastFits(s[anchor..], written, anchor, |s|, cap);
    } else {
      var ref := table[Hash(Read32(s, ip))];
      var seen := Remember(s, ip, table);
      if !Probe(s, ip, table) {
        ParseFits(s, ip + 1, anchor, seen, written, cap);
      } else {
        var next := ip + MatchLen(s, ip, ref);
        var t := Reseed(s, next, seen);
        var q := Sequence(s[anchor..ip], ip - ref, next - ip);
        SequenceSize(q);
        PiecesFit(anchor, ip, next, |s|, written, |EncSequence(q)|);
        ParseFits(s, next, next, t, written + |EncSequence(q)|, cap);
        SequenceFits(q, Parse(s, next, next, t), written, anchor, |s|, cap);
      }
    }
  }

  /** The capacity history_push allows is always enough. */
  lemma CompressNeverFails(s: seq<byte>)
    requires 1 <= |s|
    ensures Roomy(ParseAll(s).seqs, ParseAll(s).last, 0, |s| + |s| / 255 + 16)
    ensures |Enc(ParseAll(s))| <= |s| + |s| / 255 + 2
  {
    hide Parse, Roomy, Enc;
    ParseFits(s, 1, 0, seq(HASH_SIZE, _ => 0), 0, |s| + |s| / 255 + 16);
  }

  // ----- The room checks can be one byte short.

  lemma ExtRoom(n: nat)
    ensures |Ext(n)| == n / 255 + if n % 255 >= 15 then 1 else 0
  {
    hide Ext;
    ExtSize(n);
  }

  lemma MatchRoom(len: nat)
    requires MIN_MATCH <= len
    ensures |Ext(len - MIN_MATCH)| == len / 255 + if len % 255 >= 19 then 1 else 0
  {
    hide Ext;
    ExtSize(len - MIN_MATCH);
  }

  lemma LastRoom(last: seq<byte>)
    ensures |EncLast(last)| == WorstLast(last) + if |last| % 255 >= 15 then 1 else 0
  {
    hide Ext;
    ExtRoom(|last|);
  }

  /** A sequence can take one byte more, or one less, than its check counts. */
  lemma SequenceRoom(q: Sequence)
    requires MIN_MATCH <= q.len
    ensures |EncSequence(q)| + 1 ==
            Worst(q) + (if |q.lits| % 255 >= 15 then 1 else 0) + (if q.len % 255 >= 19 then 1 else 0)
  {
    hide Ext;
    ExtRoom(|q.lits|);
    MatchRoom(q.len);
  }

  /** Room check i, the one before sequence i or before the closing literals, is met exactly, and one byte more than it
      counts will be stored. */
  ghost predicate Tight(b: Block, i: nat, written: nat, cap: nat)
    requires LensOk(b)
  {
    && i <= |b.seqs| && (forall q | q in b.seqs[..i] :: MIN_MATCH <= q.len)
    && var w := written + |EncSeqs(b.seqs[..i])|;
    if i < |b.seqs| then w + Worst(b.seqs[i]) == cap && |b.seqs[i].lits| % 255 >= 15 && b.seqs[i].len % 255 >= 19
    else w + WorstLast(b.last) == cap && |b.last| % 255 >= 15
  }

  ghost predicate SomeTight(b: Block, written: nat, cap: nat)
    requires LensOk(b)
  {
    exists i: nat :: Tight(b, i, written, cap)
  }

  lemma {:induction false} TightCons(b: Block, i: nat, written: nat, cap: nat)
    requires LensOk(b) && b.seqs != []
    ensures LensOk(Block(b.seqs[1..], b.last))
    ensures Tight(b, i + 1, written, cap) <==>
            Tight(Block(b.seqs[1..], b.last), i, written + |EncSequence(b.seqs[0])|, cap)
  {
    hide EncSequence, Worst, WorstLast;
    if i < |b.seqs| {
      assert b.seqs[..i + 1][1..] == b.seqs[1..][..i];
      assert b.seqs[..i + 1][0] == b.seqs[0];
    }
  }

  lemma {:induction false} TightFirst(b: Block, written: nat, cap: nat)
    requires LensOk(b)
    ensures Tight(b, 0, written, cap) <==>
            if b.seqs == [] then written + WorstLast(b.last) == cap && |b.last| % 255 >= 15
            else written + Worst(b.seqs[0]) == cap && |b.seqs[0].lits| % 255 >= 15 && b.seqs[0].len % 255 >= 19
  {
    assert b.seqs[..0] == [];
  }

  /** A tight check further on needs more room than the check at hand. */
  lemma {:induction false} TightIsFar(b: Block, i: nat, written: nat, cap: nat)
    requires LensOk(b) && Tight(b, i, written, cap)
    ensures written <= cap
    ensures b.seqs != [] ==> written + Worst(b.seqs[0]) <= cap
    decreases i
  {
    if b.seqs == [] || i == 0 {
      TightFirst(b, written, cap);
    } else {
      hide Tight, EncSequence;
      TightCons(b, i - 1, written, cap);
      var rest := Block(b.seqs[1..], b.last);
      SequenceRoom(b.seqs[0]);
      TightIsFar(rest, i - 1, written + |EncSequence(b.seqs[0])|, cap);
      NextNeedsRoom(rest, i - 1, written + |EncSequence(b.seqs[0])|, cap);
    }
  }

  lemma {:induction false} NextNeedsRoom(b: Block, i: nat, written: nat, cap: nat)
    requires LensOk(b) && Tight(b, i, written, cap)
    requires b.seqs != [] ==> written + Worst(b.seqs[0]) <= cap
    ensures written + 1 <= cap
  {
    if b.seqs == [] { TightFirst(b, written, cap); }
  }

  /** What is stored from `written` on reaches at most one byte past the capacity, and does so exactly when some check
      is tight. */
  lemma {:induction false} StoresReach(b: Block, written: nat, cap: nat)
    requires LensOk(b)
    ensures var end := written + |Stores(b.seqs, b.last, written, cap)|;
            && (written <= cap ==> end <= cap + 1)
            && (written <= cap ==> (end == cap + 1 <==> SomeTight(b, written, cap)))
            && (written > cap ==> end == written)
    decreases |b.seqs|
  {
    hide Tight, SomeTight, EncSequence, EncLast, Worst;
    TightFirst(b, written, cap);
    if b.seqs == [] {
      LastRoom(b.last);
      OnlyFirst(b, written, cap);
    } else {
      var q, rest := b.seqs[0], Block(b.seqs[1..], b.last);
      SequenceRoom(q);
      WorstIsPositive(q);
      if written + Worst(q) <= cap {
        var w := written + |EncSequence(q)|;
        TightEither(b, rest, written, w, cap);
        StoresReach(rest, w, cap);
        if w > cap { NoneBeyond(rest, w, cap); }
      } else {
        NoneBeyond(b, written, cap);
      }
    }
  }

  lemma WorstIsPositive(q: Sequence)
    ensures Worst(q) >= 4
  {
  }

  lemma OnlyFirst(b: Block, written: nat, cap: nat)
    requires LensOk(b) && b.seqs == []
    ensures SomeTight(b, written, cap) <==> Tight(b, 0, written, cap)
  {
    if SomeTight(b, written, cap) {
      var i: nat :| Tight(b, i, written, cap);
      assert i == 0;
    }
  }

  lemma NoneBeyond(b: Block, written: nat, cap: nat)
    requires LensOk(b) && (written > cap || (b.seqs != [] && written + Worst(b.seqs[0]) > cap))
    ensures !SomeTight(b, written, cap)
  {
    hide Tight, Worst;
    if SomeTight(b, written, cap) {
      var i: nat :| Tight(b, i, written, cap);
      TightIsFar(b, i, written, cap);
    }
  }

  lemma TightEither(b: Block, rest: Block, written: nat, w: nat, cap: nat)
    requires LensOk(b) && b.seqs != [] && rest == Block(b.seqs[1..], b.last) && w == written + |EncSequence(b.seqs[0])|
    ensures LensOk(rest)
    ensures SomeTight(b, written, cap) <==> Tight(b, 0, written, cap) || SomeTight(rest, w, cap)
  {
    hide Tight, EncSequence;
    TightCons(b, 0, written, cap);
    if SomeTight(b, written, cap) {
      var i: nat :| Tight(b, i, written, cap);
      if i > 0 { TightCons(b, i - 1, written, cap); }
    }
    if SomeTight(rest, w, cap) {
      var i: nat :| Tight(rest, i, w, cap);
      TightCons(b, i, written, cap);
      assert Tight(b, i + 1, written, cap);
    }
  }

  /** Whether it succeeds or not, lz4_compress stores at most one byte past its capacity, and does so if and only if one
      of its room checks is tight. */
  lemma StoredSize(s: seq<byte>, cap: nat)
    requires 1 <= |s| <= MAX_INPUT_SIZE
    ensures var n := |CompressStores(s, cap)|;
            && n <= cap + 1
            && (n == cap + 1 <==> SomeTight(ParseAll(s), 0, cap))
  {
    hide ParseAll, SomeTight, Stores;
    StoresReach(ParseAll(s), 0, cap);
  }

  /** A successful run stores the block. */
  lemma {:induction false} StoresAll(qs: seq<Sequence>, last: seq<byte>, written: nat, cap: nat)
    requires (forall q | q in qs :: MIN_MATCH <= q.len) && Roomy(qs, last, written, cap)
    ensures Stores(qs, last, written, cap) == EncSeqs(qs) + EncLast(last)
    decreases |qs|
  {
    hide EncSequence, EncLast;
    if qs == [] {
      assert [] + EncLast(last) == EncLast(last);
    } else {
      var e := EncSequence(qs[0]);
      StoresAll(qs[1..], last, written + |e|, cap);
      assert e + (EncSeqs(qs[1..]) + EncLast(last)) == (e + EncSeqs(qs[1..])) + EncLast(last);
    }
  }

  lemma {:induction false} RoomyMeans(qs: seq<Sequence>, last: seq<byte>, written: nat, cap: nat)
    requires (forall q | q in qs :: MIN_MATCH <= q.len) && Roomy(qs, last, written, cap)
    ensures written + |EncSeqs(qs)| + WorstLast(last) <= cap
    decreases |qs|
  {
    hide EncSequence;
    if qs != [] { RoomyMeans(qs[1..], last, written + |EncSequence(qs[0])|, cap); }
  }

  /** A successful compression writes at most one byte more than its capacity, and does so exactly when the last room
      check was tight. */
  lemma ResultSize(s: seq<byte>, cap: nat)
    requires 1 <= |s| && CompressSpec(s, cap).Some?
    ensures var c, b := CompressSpec(s, cap).value, ParseAll(s);
            && c == CompressStores(s, cap) && |c| <= cap + 1
            && (|c| == cap + 1 <==> |EncSeqs(b.seqs)| + WorstLast(b.last) == cap && |b.last| % 255 >= 15)
  {
    hide EncLast, EncSeqs, Roomy, ParseAll, WorstLast, Stores;
    var b := ParseAll(s);
    RoomyMeans(b.seqs, b.last, 0, cap);
    StoresAll(b.seqs, b.last, 0, cap);
    LastRoom(b.last);
  }

  /** Up to position p no four bytes repeat: the search comes to p with nothing matched, and remembers p - 1. */
  lemma {:induction false} SearchSkips(s: seq<byte>, ip: nat, anchor: nat, table: seq<nat>, p: nat)
    returns (t: seq<nat>)
    requires anchor <= ip <= p && anchor <= |s| && p + MIN_MATCH <= |s| && TableOk(table, ip) && Below(table, ip)
    requires forall a, b | 0 <= a < b < p && b + 4 <= |s| :: Read32(s, a) != Read32(s, b)
    requires 1 <= ip && p <= 65536
    ensures TableOk(t, p) && Below(t, p) && Parse(s, ip, anchor, table) == Parse(s, p, anchor, t)
    ensures if ip == p then t == table else t[Hash(Read32(s, p - 1))] == p - 1
    decreases p - ip
  {
    hide Parse;
    if ip == p {
      t := table;
    } else {
      SearchStep(s, ip, anchor, table);
      t := SearchSkips(s, ip + 1, anchor, Remember(s, ip, table), p);
    }
  }

  lemma {:induction false} SearchStep(s: seq<byte>, ip: nat, anchor: nat, table: seq<nat>)
    requires anchor <= ip < 65536 && anchor <= |s| && ip + MIN_MATCH < |s| && TableOk(table, ip) && Below(table, ip)
    requires forall a | 0 <= a < ip && a + 4 <= |s| :: Read32(s, a) != Read32(s, ip)
    ensures var t := Remember(s, ip, table);
            && TableOk(t, ip + 1) && Below(t, ip + 1) && t[Hash(Read32(s, ip))] == ip
            && Parse(s, ip, anchor, table) == Parse(s, ip + 1, anchor, t)
  {
    hide Read32, Hash, MatchLen;
    assert !Probe(s, ip, table);
  }

  /** A source without a repeated run of four bytes is all closing literals. */
  lemma {:induction false} NoMatchNoSequence(s: seq<byte>)
    requires 5 <= |s| <= 65536
    requires forall a, b | 0 <= a < b && b + 4 <= |s| :: Read32(s, a) != Read32(s, b)
    ensures ParseAll(s) == Block([], s)
  {
    hide Read32, Hash, MatchLen;
    var t := SearchSkips(s, 1, 0, seq(HASH_SIZE, _ => 0), |s| - MIN_MATCH);
    assert s[0..] == s;
  }

  /** Fifteen different bytes: 17 are written where 16 were allowed. */
  lemma {:induction false} OneByteOver()
    ensures var s: seq<byte> := [1, 2, 3, 4, 5, 6, 7, 8, 9, 10, 11, 12, 13, 14, 15];
            CompressSpec(s, 16).Some? && |CompressSpec(s, 16).value| == 17
  {
    var s: seq<byte> := [1, 2, 3, 4, 5, 6, 7, 8, 9, 10, 11, 12, 13, 14, 15];
    FifteenDiffer(s);
    NoMatchNoSequence(s);
    hide ParseAll, EncLast;
    LastRoom(s);
  }

  /** Fourteen different bytes and then twenty equal ones: the compressor fails, and has stored 20 bytes where 19 were
      allowed. */
  lemma {:induction false} FailsOneByteOver(s: seq<byte>)
    requires |s| == 34 && (forall i | 0 <= i < 14 :: s[i] == i + 1) && forall i | 14 <= i < 34 :: s[i] == 99
    ensures CompressSpec(s, 19) == None && |CompressStores(s, 19)| == 20
  {
    hide Parse, ParseAll, EncSequence;
    var q := Sequence(s[..15], 1, 19);
    OneSequence(s);
    SequenceRoom(q);
    StoresOne(q, 19);
  }

  lemma {:induction false} StoresOne(q: Sequence, cap: nat)
    requires MIN_MATCH <= q.len && Worst(q) <= cap < |EncSequence(q)|
    ensures !Roomy([q], [], 0, cap) && Stores([q], [], 0, cap) == EncSequence(q)
  {
    hide EncSequence, Worst;
    var e := EncSequence(q);
    assert [q][1..] == [];
    assert !Roomy([], [], 0 + |e|, cap) && Stores([], [], 0 + |e|, cap) == [];
    assert e + [] == e;
  }

  lemma {:induction false} OneSequence(s: seq<byte>)
    requires |s| == 34 && (forall i | 0 <= i < 14 :: s[i] == i + 1) && forall i | 14 <= i < 34 :: s[i] == 99
    ensures ParseAll(s) == Block([Sequence(s[..15], 1, 19)], [])
  {
    RunDiffers(s);
    hide Read32, Hash, Parse, Probe, MatchLen;
    var t := SearchSkips(s, 1, 0, seq(HASH_SIZE, _ => 0), 15);
    assert Read32(s, 14) == Read32(s, 15) by { SameFour(s, 14, 15); }
    MatchToTheEnd(s, 15, t, 14);
    assert s[0..15] == s[..15];
  }

  lemma {:induction false} MatchToTheEnd(s: seq<byte>, ip: nat, t: seq<nat>, ref: nat)
    requires ref == ip - 1 && ip == 15 && |s| == 34 && (forall i | 14 <= i < 34 :: s[i] == 99) && TableOk(t, ip)
    requires Read32(s, ref) == Read32(s, ip) && t[Hash(Read32(s, ip))] == ref
    ensures Parse(s, ip, 0, t) == Block([Sequence(s[0..ip], 1, 19)], [])
  {
    hide Read32, Hash, Count;
    CountRun(s, 19);
    assert Probe(s, ip, t) && MatchLen(s, ip, ref) == 19;
    hide MatchLen, Probe;
    var seen := Reseed(s, 34, Remember(s, ip, t));
    assert Parse(s, 34, 34, seen) == Block([], []) by { assert s[34..] == []; }
  }

  lemma SameFour(s: seq<byte>, a: nat, b: nat)
    requires a + 4 <= |s| && b + 4 <= |s| && s[a..a + 4] == s[b..b + 4]
    ensures Read32(s, a) == Read32(s, b)
  {
    var x, y := s[a..a + 4], s[b..b + 4];
    assert x[0] == s[a] && x[1] == s[a + 1] && x[2] == s[a + 2] && x[3] == s[a + 3];
    assert y[0] == s[b] && y[1] == s[b + 1] && y[2] == s[b + 2] && y[3] == s[b + 3];
  }

  lemma {:induction false} CountRun(s: seq<byte>, a: nat)
    requires 15 <= a <= |s| == 34 && forall i | 14 <= i < 34 :: s[i] == 99
    ensures Count(s, a, a - 1) == 34 - a
    decreases 34 - a
  {
    if a < 34 { CountRun(s, a + 1); }
  }

  lemma {:induction false} RunDiffers(s: seq<byte>)
    requires |s| == 34 && (forall i | 0 <= i < 14 :: s[i] == i + 1) && forall i | 14 <= i < 34 :: s[i] == 99
    ensures forall a, b | 0 <= a < b < 15 && b + 4 <= |s| :: Read32(s, a) != Read32(s, b)
  {
    hide Read32;
    forall a: nat, b: nat | a < b < 15 && b + 4 <= |s| ensures Read32(s, a) != Read32(s, b) {
      if Read32(s, a) == Read32(s, b) { FourBytesAgree(s, a, b); }
    }
  }

  lemma {:induction false} FifteenDiffer(s: seq<byte>)
    requires |s| == 15 && forall i | 0 <= i < |s| :: s[i] == i + 1
    ensures forall a, b | 0 <= a < b && b + 4 <= |s| :: Read32(s, a) != Read32(s, b)
  {
    hide Read32;
    forall a: nat, b: nat | a < b && b + 4 <= |s| ensures Read32(s, a) != Read32(s, b) {
      if Read32(s, a) == Read32(s, b) { FourBytesAgree(s, a, b); }
    }
  }
}
