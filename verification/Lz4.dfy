/** lz4.c as it runs: the compressor and the decompressor with their cursors and buffers. */
module Lz4 {
  import opened Bytes
  import opened Lz4Spec

  /** lz4_count. */
  method CountFrom(s: seq<byte>, a0: nat, b0: nat) returns (n: nat)
    requires b0 <= a0 <= |s|
    ensures n == Count(s, a0, b0)
  {
    var a, b := a0, b0;
    while a < |s| && s[a] == s[b]
      invariant a0 <= a <= |s| && b == b0 + (a - a0)
      invariant Count(s, a0, b0) == (a - a0) + Count(s, a, b)
    {
      a, b := a + 1, b + 1;
    }
    n := a - a0;
  }

  /** The loop that writes a length extension. */
  method EmitRun(op: seq<byte>, r: nat) returns (out: seq<byte>)
    ensures out == op + ExtRun(r)
  {
    out := op;
    var rem := r;
    while rem >= 255
      invariant out + ExtRun(rem) == op + ExtRun(r)
    {
      assert out + ExtRun(rem) == (out + [255]) + ExtRun(rem - 255);
      out := out + [255];
      rem := rem - 255;
    }
    out := out + [rem];
  }

  method EmitExt(op: seq<byte>, n: nat) returns (out: seq<byte>)
    ensures out == op + Ext(n)
  {
    out := op;
    if n >= 15 {
      out := EmitRun(out, n - 15);
    }
  }

  method EmitSequence(op: seq<byte>, lits: seq<byte>, offset: nat, len: nat) returns (out: seq<byte>)
    requires MIN_MATCH <= len
    ensures out == op + EncSequence(Sequence(lits, offset, len))
  {
    hide Ext, Token;
    out := op + [Token(|lits|, len - MIN_MATCH)];
    out := EmitExt(out, |lits|);
    out := out + lits;
    out := out + Le16(offset);
    out := EmitExt(out, len - MIN_MATCH);
    assert out == op + EncSequence(Sequence(lits, offset, len));
  }

  method EmitLast(op: seq<byte>, last: seq<byte>) returns (out: seq<byte>)
    ensures out == op + EncLast(last)
  {
    hide Ext, Token;
    out := op + [Token(|last|, 0)];
    out := EmitExt(out, |last|);
    out := out + last;
    assert out == op + EncLast(last);
  }

  lemma {:induction false} EncSeqsAppend(qs: seq<Sequence>, q: Sequence)
    requires (forall x | x in qs :: MIN_MATCH <= x.len) && MIN_MATCH <= q.len
    ensures forall x | x in qs + [q] :: MIN_MATCH <= x.len
    ensures EncSeqs(qs + [q]) == EncSeqs(qs) + EncSequence(q)
  {
    hide EncSequence;
    if qs == [] {
      assert qs + [q] == [q];
      assert [q][1..] == [];
      assert EncSeqs([q]) == EncSequence(q) + [];
    } else {
      assert (qs + [q])[1..] == qs[1..] + [q];
      EncSeqsAppend(qs[1..], q);
    }
  }

  /** What the loop of lz4_compress keeps: the finished sequences and the parse still to come make the
      whole block, and the room checks still to come decide the outcome. */
  ghost predicate OnTrack(s: seq<byte>, cap: nat, ip: nat, anchor: nat, table: seq<nat>, done: seq<Sequence>,
      op: seq<byte>) {
    && 1 <= |s| && anchor <= ip && anchor <= |s| && TableOk(table, ip)
    && (forall q | q in done :: MIN_MATCH <= q.len)
    && var rest := Parse(s, ip, anchor, table);
    && ParseAll(s) == Block(done + rest.seqs, rest.last)
    && op == EncSeqs(done)
    && (Roomy(rest.seqs, rest.last, |op|, cap) <==> Roomy(ParseAll(s).seqs, ParseAll(s).last, 0, cap))
    && Stores(ParseAll(s).seqs, ParseAll(s).last, 0, cap) == op + Stores(rest.seqs, rest.last, |op|, cap)
  }

  lemma StartOnTrack(s: seq<byte>, cap: nat)
    requires 1 <= |s|
    ensures OnTrack(s, cap, 1, 0, seq(HASH_SIZE, _ => 0), [], [])
  {
    var b := ParseAll(s);
    assert [] + b.seqs == b.seqs;
    assert [] + Stores(b.seqs, b.last, 0, cap) == Stores(b.seqs, b.last, 0, cap);
  }

  lemma AdvanceOnTrack(s: seq<byte>, cap: nat, ip: nat, anchor: nat, table: seq<nat>, done: seq<Sequence>,
      op: seq<byte>)
    requires OnTrack(s, cap, ip, anchor, table, done, op) && ip + MIN_MATCH < |s| && !Probe(s, ip, table)
    ensures OnTrack(s, cap, ip + 1, anchor, Remember(s, ip, table), done, op)
  {
    hide Probe, ParseAll, Roomy, EncSeqs, Stores;
  }

  lemma MatchOnTrack(s: seq<byte>, cap: nat, ip: nat, anchor: nat, table: seq<nat>, done: seq<Sequence>, op: seq<byte>)
    requires OnTrack(s, cap, ip, anchor, table, done, op) && ip + MIN_MATCH < |s| && Probe(s, ip, table)
    ensures var ref := table[Hash(Read32(s, ip))];
            var next := ip + MatchLen(s, ip, ref);
            var q := Sequence(s[anchor..ip], ip - ref, next - ip);
            if |op| + Worst(q) <= cap then
              OnTrack(s, cap, next, next, Reseed(s, next, Remember(s, ip, table)), done + [q], op + EncSequence(q))
            else !Roomy(ParseAll(s).seqs, ParseAll(s).last, 0, cap)
                 && op == Stores(ParseAll(s).seqs, ParseAll(s).last, 0, cap)
  {
    hide Probe, ParseAll, MatchLen, Hash, Read32, Worst, EncSequence, Remember, Reseed;
    var ref := table[Hash(Read32(s, ip))];
    var next := ip + MatchLen(s, ip, ref);
    var t := Reseed(s, next, Remember(s, ip, table));
    var q := Sequence(s[anchor..ip], ip - ref, next - ip);
    var rest := Parse(s, next, next, t);
    assert Parse(s, ip, anchor, table) == Block([q] + rest.seqs, rest.last);
    assert ([q] + rest.seqs)[1..] == rest.seqs;
    assert done + ([q] + rest.seqs) == (done + [q]) + rest.seqs;
    EncSeqsAppend(done, q);
    var e := EncSequence(q);
    var more := Stores(rest.seqs, rest.last, |op + e|, cap);
    assert op + (e + more) == (op + e) + more;
    assert op + [] == op;
  }

  lemma EndOnTrack(s: seq<byte>, cap: nat, ip: nat, anchor: nat, table: seq<nat>, done: seq<Sequence>, op: seq<byte>)
    requires OnTrack(s, cap, ip, anchor, table, done, op) && |s| <= ip + MIN_MATCH
    ensures Roomy(ParseAll(s).seqs, ParseAll(s).last, 0, cap) <==> |op| + WorstLast(s[anchor..]) <= cap
    ensures Enc(ParseAll(s)) == op + EncLast(s[anchor..])
    ensures Stores(ParseAll(s).seqs, ParseAll(s).last, 0, cap) ==
            op + if |op| + WorstLast(s[anchor..]) <= cap then EncLast(s[anchor..]) else []
  {
    assert done + [] == done;
  }

  /** lz4_compress: the block, or None for a return of -1, and the bytes stored at dst either way. */
  method Compress(s: seq<byte>, cap: nat) returns (r: Option<seq<byte>>, op: seq<byte>)
    ensures r == CompressSpec(s, cap) && op == CompressStores(s, cap)
    ensures r.Some? ==> r.value == op
  {
    hide OnTrack, ParseAll, Parse, Roomy, Enc, EncSequence, EncLast, Count, Hash, Read32, Stores;
    op := [];
    if s == [] || |s| > MAX_INPUT_SIZE {
      return None, op;
    }
    var table: seq<nat> := seq(HASH_SIZE, _ => 0);
    var ip: nat, anchor: nat := 1, 0;
    ghost var done: seq<Sequence> := [];
    StartOnTrack(s, cap);
    while ip + MIN_MATCH < |s|
      invariant OnTrack(s, cap, ip, anchor, table, done, op)
      decreases |s| - ip
    {
      TrackBounds(s, cap, ip, anchor, table, done, op);
      var h := Hash(Read32(s, ip));
      var ref := table[h];
      if ip - ref > 65535 || Read32(s, ref) != Read32(s, ip) {
        AdvanceOnTrack(s, cap, ip, anchor, table, done, op);
        table := table[h := ip % 65536];
        ip := ip + 1;
      } else {
        MatchOnTrack(s, cap, ip, anchor, table, done, op);
        var more := CountFrom(s, ip + MIN_MATCH, ref + MIN_MATCH);
        var len := MIN_MATCH + more;
        var lits := s[anchor..ip];
        if |op| + (1 + |lits| / 255 + |lits| + 2 + len / 255 + 1) > cap {
          return None, op;
        }
        table := table[h := ip % 65536];
        op := EmitSequence(op, lits, ip - ref, len);
        done := done + [Sequence(lits, ip - ref, len)];
        ip := ip + len;
        anchor := ip;
        if ip + MIN_MATCH < |s| {
          table := table[Hash(Read32(s, ip)) := ip % 65536];
        }
      }
    }
    TrackBounds(s, cap, ip, anchor, table, done, op);
    EndOnTrack(s, cap, ip, anchor, table, done, op);
    var last := s[anchor..];
    if |op| + (1 + |last| / 255 + |last|) > cap {
      assert op + [] == op;
      return None, op;
    }
    op := EmitLast(op, last);
    return Some(op), op;
  }

  lemma TrackBounds(s: seq<byte>, cap: nat, ip: nat, anchor: nat, table: seq<nat>, done: seq<Sequence>, op: seq<byte>)
    requires OnTrack(s, cap, ip, anchor, table, done, op)
    ensures anchor <= ip && anchor <= |s| && TableOk(table, ip)
  {
  }

  // ----- Decompression.

  /** The loop that reads a length extension. */
  method AddExt(s: seq<byte>, ip0: nat, acc: nat) returns (n: nat, ip: nat)
    requires ip0 <= |s|
    ensures ip0 <= ip <= |s| && ReadExt(acc, s[ip0..]) == Ext_(n, s[ip..])
  {
    hide ReadExt;
    n, ip := acc, ip0;
    while ip < |s|
      invariant ip0 <= ip <= |s| && ReadExt(acc, s[ip0..]) == ReadExt(n, s[ip..])
    {
      ReadExtStep(s, ip, n);
      var b := s[ip];
      ip := ip + 1;
      n := n + b;
      if b < 255 {
        return;
      }
    }
    ReadExtEnd(s[ip..], n);
  }

  lemma {:induction false} ReadExtStep(s: seq<byte>, ip: nat, n: nat)
    requires ip < |s|
    ensures ReadExt(n, s[ip..]) == if s[ip] < 255 then Ext_(n + s[ip], s[ip + 1..]) else ReadExt(n + s[ip], s[ip + 1..])
  {
    assert s[ip..][1..] == s[ip + 1..];
  }

  lemma {:induction false} ReadExtEnd(s: seq<byte>, n: nat)
    requires s == []
    ensures ReadExt(n, s) == Ext_(n, s)
  {
  }

  lemma {:induction false} CopyMatchSnoc(out: seq<byte>, offset: nat, i: nat)
    requires 1 <= offset <= |out|
    ensures CopyMatch(out, offset, i + 1) ==
            CopyMatch(out, offset, i) + [CopyMatch(out, offset, i)[|out| + i - offset]]
    decreases i
  {
    if i > 0 {
      CopyMatchSnoc(out + [out[|out| - offset]], offset, i - 1);
    }
  }

  lemma CopyMatchZero(out: seq<byte>, offset: nat)
    requires 1 <= offset <= |out|
    ensures CopyMatch(out, offset, 0) == out
  {
  }

  lemma {:induction false} CopyMatchApart(out: seq<byte>, offset: nat, len: nat)
    requires len <= offset && 1 <= offset <= |out|
    ensures CopyMatch(out, offset, len) == out + out[|out| - offset..|out| - offset + len]
    decreases len
  {
    if len > 0 {
      CopyMatchApart(out, offset, len - 1);
      CopyMatchSnoc(out, offset, len - 1);
      var at := |out| - offset;
      assert CopyMatch(out, offset, len - 1)[at + len - 1] == out[at + len - 1];
      assert out[at..at + len] == out[at..at + len - 1] + [out[at + len - 1]];
    }
  }

  /** The match copy at op: memcpy when source and target lie apart, else byte by byte. */
  method CopyInto(dst: array<byte>, op: nat, offset: nat, len: nat)
    requires 1 <= offset <= op && op + len <= dst.Length
    modifies dst
    ensures dst[..op + len] == CopyMatch(old(dst[..op]), offset, len)
  {
    hide CopyMatch;
    ghost var out := dst[..op];
    if offset >= len {
      forall i | 0 <= i < len { dst[op + i] := dst[op - offset + i]; }
      CopyMatchApart(out, offset, len);
      assert dst[..op + len] == out + out[op - offset..op - offset + len];
    } else {
      CopyMatchZero(out, offset);
      for i := 0 to len
        invariant dst[..op + i] == CopyMatch(out, offset, i)
      {
        CopyMatchSnoc(out, offset, i);
        assert dst[op - offset + i] == dst[..op + i][op - offset + i];
        dst[op + i] := dst[op - offset + i];
        assert dst[..op + i + 1] == dst[..op + i] + [dst[op + i]];
      }
    }
  }

  /** The token's literal count with its extension. */
  method LitLength(s: seq<byte>, ip0: nat) returns (n: nat, ip: nat)
    requires ip0 < |s|
    ensures ip0 < ip <= |s| && LitPart(s[ip0..]) == Ext_(n, s[ip..])
  {
    hide ReadExt;
    assert s[ip0..][1..] == s[ip0+1..];
    n, ip := s[ip0] / 16, ip0 + 1;
    if n == 15 {
      n, ip := AddExt(s, ip, n);
    }
  }

  /** The literal memcpy. */
  method CopyLiterals(s: seq<byte>, ip: nat, dst: array<byte>, op: nat, n: nat)
    requires ip + n <= |s| && op + n <= dst.Length
    modifies dst
    ensures dst[..op + n] == old(dst[..op]) + s[ip..][..n]
  {
    forall i | 0 <= i < n { dst[op + i] := s[ip + i]; }
  }

  /** The first half of a turn: token, literal length, literals. */
  method TakeLiterals(s: seq<byte>, ip0: nat, dst: array<byte>, op0: nat) returns (ok: bool, ip: nat, op: nat)
    requires ip0 < |s| && op0 <= dst.Length
    modifies dst
    ensures var lit := LitPart(s[ip0..]);
            && ok == (lit.n <= |lit.rest| && op0 + lit.n <= dst.Length)
            && (ok ==> && ip0 < ip <= |s| && op <= dst.Length
                       && s[ip..] == lit.rest[lit.n..]
                       && dst[..op] == old(dst[..op0]) + lit.rest[..lit.n])
  {
    hide LitPart;
    op := op0;
    var n;
    n, ip := LitLength(s, ip0);
    ok := ip + n <= |s| && op + n <= dst.Length;
    if ok {
      CopyLiterals(s, ip, dst, op, n);
      assert s[ip..][n..] == s[ip + n..];
      ip, op := ip + n, op + n;
    }
  }

  /** The second half of a turn: offset, match length, match. */
  method TakeMatch(token: byte, s: seq<byte>, ip0: nat, dst: array<byte>, op0: nat) returns (ok: bool, ip: nat, op: nat)
    requires ip0 < |s| && op0 <= dst.Length
    modifies dst
    ensures match AfterLiterals(token, s[ip0..], old(dst[..op0]), dst.Length) {
              case Fail => !ok
              case Done(_) => false
              case Again(rest, out) => ok && ip0 < ip <= |s| && rest == s[ip..] && op <= dst.Length && out == dst[..op]
            }
  {
    hide ReadExt, CopyMatch;
    ok, ip, op := false, ip0, op0;
    if ip + 2 > |s| {
      return;
    }
    var offset: nat := s[ip] as int + 256 * (s[ip+1] as int);
    assert s[ip0..][2..] == s[ip0+2..];
    ip := ip + 2;
    if offset == 0 {
      return;
    }
    var len: nat := token % 16 + MIN_MATCH;
    if token % 16 == 15 {
      len, ip := AddExt(s, ip, len);
    }
    assert LenPart(token, s[ip0..][2..]) == Ext_(len, s[ip..]);
    if offset > op || op + len > dst.Length {
      return;
    }
    CopyInto(dst, op, offset, len);
    ok, op := true, op + len;
  }

  /** lz4_decompress: the number of bytes produced, or -1. */
  method Decompress(s: seq<byte>, dst: array<byte>) returns (n: int)
    modifies dst
    ensures match Decode(s, [], dst.Length) {
              case None => n == -1
              case Some(out) => n == |out| && n <= dst.Length && dst[..n] == out
            }
  {
    hide LitPart, AfterLiterals;
    var ip, op: nat := 0, 0;
    assert s[0..] == s && dst[..0] == [];
    while ip < |s|
      invariant 0 <= ip <= |s| && op <= dst.Length
      invariant Decode(s, [], dst.Length) == Decode(s[ip..], dst[..op], dst.Length)
    {
      var token := s[ip];
      var ok;
      ok, ip, op := TakeLiterals(s, ip, dst, op);
      if !ok {
        return -1;
      }
      if ip >= |s| {
        NothingAfterLast(token, s[ip..], dst[..op], dst.Length);
        return op;
      }
      ok, ip, op := TakeMatch(token, s, ip, dst, op);
      if !ok {
        return -1;
      }
    }
    return op;
  }

  lemma NothingAfterLast(token: byte, s: seq<byte>, out: seq<byte>, cap: nat)
    ensures s == [] ==> AfterLiterals(token, s, out, cap) == Done(out)
  {
  }
}
