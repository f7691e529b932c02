/** The LZ4 block codec of lz4.c, as functions: what the compressor emits for a source and what the
    decompressor makes of a byte string. */
module Lz4Spec {
  import opened Bytes
  import opened Counting

  const HASH_SIZE: nat := 4096
  const MIN_MATCH: nat := 4
  const MAX_INPUT_SIZE: nat := 0x7E00_0000

  /** One emitted sequence: literals, then a match of `len` bytes `offset` back. */
  datatype Sequence = Sequence(lits: seq<byte>, offset: nat, len: nat)

  /** A compressed block before it is written out: sequences, then the closing literals. */
  datatype Block = Block(seqs: seq<Sequence>, last: seq<byte>)

  // ----- The compressor's choices.

  function Read32(s: seq<byte>, p: nat): nat
    requires p + 4 <= |s|
  {
    s[p] as int + 0x100 * (s[p+1] as int) + 0x1_0000 * (s[p+2] as int) + 0x100_0000 * (s[p+3] as int)
  }

  /** lz4_hash: the top 12 bits of a 32-bit product. */
  function Hash(v: nat): (h: nat)
    ensures h < HASH_SIZE
  {
    (v * 2654435761) % 0x1_0000_0000 / 0x10_0000
  }

  /** The table holds source positions truncated to 16 bits, none beyond ip. */
  ghost predicate TableOk(table: seq<nat>, ip: nat) {
    |table| == HASH_SIZE && forall h | 0 <= h < HASH_SIZE :: table[h] <= ip
  }

  /** lz4_count: how far the bytes from a on agree with those from b on. */
  function Count(s: seq<byte>, a: nat, b: nat): (n: nat)
    requires b <= a <= |s|
    ensures a + n <= |s|
    ensures forall i | a <= i < a + n :: s[i] == s[b + (i - a)]
    decreases |s| - a
  {
    if a < |s| && s[a] == s[b] then 1 + Count(s, a + 1, b + 1) else 0
  }

  /** The probe at ip finds its four bytes at the remembered position. */
  predicate Probe(s: seq<byte>, ip: nat, table: seq<nat>)
    requires ip + 4 < |s| && TableOk(table, ip)
  {
    var ref := table[Hash(Read32(s, ip))];
    ip - ref <= 65535 && Read32(s, ref) == Read32(s, ip)
  }

  function Remember(s: seq<byte>, ip: nat, table: seq<nat>): (t: seq<nat>)
    requires ip + 4 <= |s| && |table| == HASH_SIZE
    ensures |t| == HASH_SIZE && forall h | 0 <= h < HASH_SIZE :: t[h] <= table[h] || t[h] <= ip
  {
    table[Hash(Read32(s, ip)) := ip % 65536]
  }

  function MatchLen(s: seq<byte>, ip: nat, ref: nat): (n: nat)
    requires ref <= ip && ip + 4 < |s|
    ensures 4 <= n && ip + n <= |s|
  {
    MIN_MATCH + Count(s, ip + MIN_MATCH, ref + MIN_MATCH)
  }

  /** The table the search goes on with after a match that ended at ip. */
  function Reseed(s: seq<byte>, ip: nat, table: seq<nat>): (t: seq<nat>)
    requires ip <= |s| && |table| == HASH_SIZE
    ensures |t| == HASH_SIZE && forall h | 0 <= h < HASH_SIZE :: t[h] <= table[h] || t[h] <= ip
  {
    if ip + MIN_MATCH < |s| then Remember(s, ip, table) else table
  }

  /** The main loop of lz4_compress from position ip, with literals pending from anchor. */
  function Parse(s: seq<byte>, ip: nat, anchor: nat, table: seq<nat>): (b: Block)
    requires anchor <= ip && anchor <= |s| && TableOk(table, ip)
    ensures forall q | q in b.seqs :: MIN_MATCH <= q.len
    decreases |s| - ip
  {
    if ip + MIN_MATCH >= |s| then Block([], s[anchor..])
    else
      var ref := table[Hash(Read32(s, ip))];
      var seen := Remember(s, ip, table);
      if !Probe(s, ip, table) then Parse(s, ip + 1, anchor, seen)
      else
        var next := ip + MatchLen(s, ip, ref);
        var rest := Parse(s, next, next, Reseed(s, next, seen));
        Block([Sequence(s[anchor..ip], ip - ref, next - ip)] + rest.seqs, rest.last)
  }

  function ParseAll(s: seq<byte>): (b: Block)
    requires 1 <= |s|
    ensures forall q | q in b.seqs :: MIN_MATCH <= q.len
  {
    Parse(s, 1, 0, seq(HASH_SIZE, _ => 0))
  }

  /** Where the first match the search comes to ends, if it comes to one. */
  function FirstMatchEnd(s: seq<byte>, ip: nat, table: seq<nat>): (e: Option<nat>)
    requires TableOk(table, ip)
    decreases |s| - ip
  {
    if ip + MIN_MATCH >= |s| then None
    else if Probe(s, ip, table) then Some(ip + MatchLen(s, ip, table[Hash(Read32(s, ip))]))
    else FirstMatchEnd(s, ip + 1, Remember(s, ip, table))
  }

  /** The search meets a first match that ends where the re-seeded table makes it match itself:
      inside the first 64 KiB and short of the last four bytes. */
  predicate MatchesEarly(s: seq<byte>) {
    |s| >= 1 && match FirstMatchEnd(s, 1, seq(HASH_SIZE, _ => 0)) {
      case None => false
      case Some(end) => end < 65536 && end + MIN_MATCH < |s|
    }
  }

  // ----- The byte format.

  /** A length extension: bytes of 255 and a closing smaller one. */
  function ExtRun(r: nat): seq<byte> {
    if r >= 255 then [255] + ExtRun(r - 255) else [r]
  }

  function Ext(n: nat): seq<byte> {
    if n >= 15 then ExtRun(n - 15) else []
  }

  function Token(lit: nat, match_: nat): byte {
    16 * Min(lit, 15) + Min(match_, 15)
  }

  function Le16(v: nat): seq<byte> {
    [v % 256, v / 256 % 256]
  }

  function EncSequence(q: Sequence): seq<byte>
    requires MIN_MATCH <= q.len
  {
    [Token(|q.lits|, q.len - MIN_MATCH)] + Ext(|q.lits|) + q.lits + Le16(q.offset) + Ext(q.len - MIN_MATCH)
  }

  function EncLast(last: seq<byte>): seq<byte> {
    [Token(|last|, 0)] + Ext(|last|) + last
  }

  function EncSeqs(qs: seq<Sequence>): seq<byte>
    requires forall q | q in qs :: MIN_MATCH <= q.len
  {
    if qs == [] then [] else EncSequence(qs[0]) + EncSeqs(qs[1..])
  }

  function Enc(b: Block): seq<byte>
    requires forall q | q in b.seqs :: MIN_MATCH <= q.len
  {
    EncSeqs(b.seqs) + EncLast(b.last)
  }

  // ----- The room checks.

  /** The estimate the compressor compares with the room left before it writes a sequence. */
  function Worst(q: Sequence): nat {
    1 + |q.lits| / 255 + |q.lits| + 2 + q.len / 255 + 1
  }

  function WorstLast(last: seq<byte>): nat {
    1 + |last| / 255 + |last|
  }

  predicate Roomy(qs: seq<Sequence>, last: seq<byte>, written: nat, cap: nat)
    requires forall q | q in qs :: MIN_MATCH <= q.len
  {
    if qs == [] then written + WorstLast(last) <= cap
    else written + Worst(qs[0]) <= cap && Roomy(qs[1..], last, written + |EncSequence(qs[0])|, cap)
  }

  /** lz4_compress: the block it writes, or None for a return of -1. */
  function CompressSpec(s: seq<byte>, cap: nat): Option<seq<byte>> {
    if s == [] || |s| > MAX_INPUT_SIZE then None
    else
      var b := ParseAll(s);
      if Roomy(b.seqs, b.last, 0, cap) then Some(Enc(b)) else None
  }

  /** All bytes that are stored after `written` of them, also when a later room check fails. */
  function Stores(qs: seq<Sequence>, last: seq<byte>, written: nat, cap: nat): seq<byte>
    requires forall q | q in qs :: MIN_MATCH <= q.len
  {
    if qs == [] then if written + WorstLast(last) <= cap then EncLast(last) else []
    else if written + Worst(qs[0]) <= cap then
      EncSequence(qs[0]) + Stores(qs[1..], last, written + |EncSequence(qs[0])|, cap)
    else []
  }

  /** What lz4_compress leaves at dst, whatever it returns. */
  function CompressStores(s: seq<byte>, cap: nat): seq<byte> {
    if s == [] || |s| > MAX_INPUT_SIZE then []
    else Stores(ParseAll(s).seqs, ParseAll(s).last, 0, cap)
  }

  // ----- The decompressor.

  datatype Ext_ = Ext_(n: nat, rest: seq<byte>)

  /** The loop that adds up extension bytes. */
  function ReadExt(acc: nat, s: seq<byte>): (r: Ext_)
    ensures |r.rest| <= |s| && r.rest == s[|s| - |r.rest|..]
    decreases |s|
  {
    if s == [] then Ext_(acc, [])
    else if s[0] < 255 then Ext_(acc + s[0], s[1..])
    else ReadExt(acc + 255, s[1..])
  }

  /** The byte-by-byte match copy, which may read bytes it has just written. */
  function CopyMatch(out: seq<byte>, offset: nat, len: nat): (r: seq<byte>)
    requires 1 <= offset <= |out|
    ensures |r| == |out| + len && out <= r
    decreases len
  {
    if len == 0 then out else CopyMatch(out + [out[|out| - offset]], offset, len - 1)
  }

  /** Token and literal-length extension: the literal count and what follows. */
  function LitPart(s: seq<byte>): (r: Ext_)
    requires s != []
    ensures |r.rest| < |s|
  {
    if s[0] / 16 == 15 then ReadExt(15, s[1..]) else Ext_(s[0] / 16, s[1..])
  }

  /** Match-length extension: the match length and what follows. */
  function LenPart(token: byte, s: seq<byte>): (r: Ext_)
    ensures |r.rest| <= |s|
  {
    if token % 16 == 15 then ReadExt(15 + MIN_MATCH, s) else Ext_(token % 16 + MIN_MATCH, s)
  }

  /** How one turn of the decompressor's loop ends: with an error, with the last literals, or with a match
      copied and more input to read. */
  datatype Turn = Fail | Done(out: seq<byte>) | Again(rest: seq<byte>, out: seq<byte>)

  function AfterLiterals(token: byte, s: seq<byte>, out: seq<byte>, cap: nat): (t: Turn)
    ensures t.Again? ==> |t.rest| <= |s|
  {
    if s == [] then Done(out)
    else if |s| < 2 then Fail
    else
      var offset := s[0] as int + 256 * (s[1] as int);
      var len := LenPart(token, s[2..]);
      if offset == 0 || offset > |out| || |out| + len.n > cap then Fail
      else Again(len.rest, CopyMatch(out, offset, len.n))
  }

  function TakeTurn(s: seq<byte>, out: seq<byte>, cap: nat): (t: Turn)
    requires s != []
    ensures t.Again? ==> |t.rest| < |s|
  {
    var lit := LitPart(s);
    if lit.n > |lit.rest| || |out| + lit.n > cap then Fail
    else AfterLiterals(s[0], lit.rest[lit.n..], out + lit.rest[..lit.n], cap)
  }

  /** lz4_decompress of `s` after `out` has been produced; None is a return of -1. */
  function Decode(s: seq<byte>, out: seq<byte>, cap: nat): (r: Option<seq<byte>>)
    decreases |s|
  {
    if s == [] then Some(out)
    else match TakeTurn(s, out, cap) {
      case Fail => None
      case Done(all) => Some(all)
      case Again(rest, more) => Decode(rest, more, cap)
    }
  }
}
