/** The compressor's search without its hash table: at every position the latest one before it with the same hash is
    compared, and a match is taken as far as it goes. */
module Lz4Search {
  import opened Bytes
  import opened Lz4Spec
  import opened Lz4Proofs

  /** The positions entered so far, in order. */
  ghost predicate Entered(s: seq<byte>, vs: seq<nat>, ip: nat) {
    forall i | 0 <= i < |vs| :: vs[i] <= ip && vs[i] + 4 <= |s|
  }

  /** The latest position entered whose four bytes have this hash, or 0. */
  ghost function Latest(s: seq<byte>, vs: seq<nat>, h: nat): (v: nat)
    requires forall i | 0 <= i < |vs| :: vs[i] + 4 <= |s|
    ensures v == 0 || v in vs
  {
    if vs == [] then 0
    else
      var n := |vs| - 1;
      if Hash(Read32(s, vs[n])) == h then vs[n] else Latest(s, vs[..n], h)
  }

  /** The four bytes at ip are those at ref, not too far back. */
  ghost predicate Hit(s: seq<byte>, ip: nat, ref: nat)
    requires ref <= ip && ip + 4 < |s|
  {
    ip - ref <= 65535 && s[ref..ref + 4] == s[ip..ip + 4]
  }

  /** The sequences found from ip on; positions are compared through their low 16 bits. */
  ghost function Search(s: seq<byte>, ip: nat, anchor: nat, vs: seq<nat>): (b: Block)
    requires anchor <= ip && anchor <= |s| && Entered(s, vs, ip)
    decreases |s| - ip
  {
    if ip + 4 >= |s| then Block([], s[anchor..])
    else
      LatestIsBefore(s, vs, ip, Hash(Read32(s, ip)));
      var ref := Latest(s, vs, Hash(Read32(s, ip))) % 0x1_0000;
      if !Hit(s, ip, ref) then Search(s, ip + 1, anchor, vs + [ip])
      else
        var end := ip + MatchLen(s, ip, ref);
        var rest := Search(s, end, end, if end + 4 < |s| then vs + [ip, end] else vs + [ip]);
        Block([Sequence(s[anchor..ip], ip - ref, end - ip)] + rest.seqs, rest.last)
  }

  lemma LatestIsBefore(s: seq<byte>, vs: seq<nat>, ip: nat, h: nat)
    requires Entered(s, vs, ip)
    ensures Latest(s, vs, h) % 0x1_0000 <= Latest(s, vs, h) <= ip
  {
    hide Hash, Read32;
  }

  /** The table shows what was entered. */
  ghost predicate Shows(s: seq<byte>, table: seq<nat>, vs: seq<nat>)
    requires forall i | 0 <= i < |vs| :: vs[i] + 4 <= |s|
  {
    |table| == HASH_SIZE && forall h | 0 <= h < HASH_SIZE :: table[h] == Latest(s, vs, h) % 0x1_0000
  }

  lemma ShowsMore(s: seq<byte>, table: seq<nat>, vs: seq<nat>, ip: nat)
    requires ip + 4 <= |s| && Entered(s, vs, ip) && Shows(s, table, vs)
    ensures Shows(s, Remember(s, ip, table), vs + [ip])
  {
    hide Hash, Read32;
    var more := vs + [ip];
    assert more[..|vs|] == vs;
  }

  lemma SameFour(s: seq<byte>, a: nat, b: nat)
    requires a + 4 <= |s| && b + 4 <= |s|
    ensures Read32(s, a) == Read32(s, b) <==> s[a..a + 4] == s[b..b + 4]
  {
    if Read32(s, a) == Read32(s, b) {
      FourBytesAgree(s, a, b);
    } else if s[a..a + 4] == s[b..b + 4] {
      FourAt(s, a);
      FourAt(s, b);
    }
  }

  lemma FourAt(s: seq<byte>, p: nat)
    requires p + 4 <= |s|
    ensures var f := s[p..p + 4]; f[0] == s[p] && f[1] == s[p + 1] && f[2] == s[p + 2] && f[3] == s[p + 3]
  {
  }

  /** A match is counted as far as it goes. */
  lemma {:induction false} CountIsMaximal(s: seq<byte>, a: nat, b: nat)
    requires b <= a <= |s|
    ensures var n := Count(s, a, b); a + n == |s| || s[a + n] != s[b + n]
    decreases |s| - a
  {
    if a < |s| && s[a] == s[b] { CountIsMaximal(s, a + 1, b + 1); }
  }

  lemma SearchStep(s: seq<byte>, ip: nat, anchor: nat, vs: seq<nat>, ref: nat)
    requires anchor <= ip && Entered(s, vs, ip) && ip + 4 < |s|
    requires ref == Latest(s, vs, Hash(Read32(s, ip))) % 0x1_0000 && ref <= ip
    ensures !Hit(s, ip, ref) ==> Search(s, ip, anchor, vs) == Search(s, ip + 1, anchor, vs + [ip])
    ensures Hit(s, ip, ref) ==>
              var end := ip + MatchLen(s, ip, ref);
              var rest := Search(s, end, end, if end + 4 < |s| then vs + [ip, end] else vs + [ip]);
              Search(s, ip, anchor, vs) == Block([Sequence(s[anchor..ip], ip - ref, end - ip)] + rest.seqs, rest.last)
  {
    hide Hash, Read32, MatchLen, Latest, Hit;
  }

  lemma ParseStep(s: seq<byte>, ip: nat, anchor: nat, table: seq<nat>, ref: nat)
    requires anchor <= ip && TableOk(table, ip) && ip + 4 < |s| && ref == table[Hash(Read32(s, ip))]
    ensures !Hit(s, ip, ref) ==> Parse(s, ip, anchor, table) == Parse(s, ip + 1, anchor, Remember(s, ip, table))
    ensures Hit(s, ip, ref) ==>
              var end := ip + MatchLen(s, ip, ref);
              var rest := Parse(s, end, end, Reseed(s, end, Remember(s, ip, table)));
              Parse(s, ip, anchor, table) ==
              Block([Sequence(s[anchor..ip], ip - ref, end - ip)] + rest.seqs, rest.last)
  {
    hide Hash, Read32, MatchLen, Remember, Reseed;
    SameFour(s, ref, ip);
  }

  lemma BothEnd(s: seq<byte>, ip: nat, anchor: nat, table: seq<nat>, vs: seq<nat>)
    requires anchor <= ip && anchor <= |s| && TableOk(table, ip) && Entered(s, vs, ip) && ip + 4 >= |s|
    ensures Parse(s, ip, anchor, table) == Search(s, ip, anchor, vs)
  {
  }

  /** With the table the compressor finds exactly that. */
  lemma {:induction false} ParseIsSearch(s: seq<byte>, ip: nat, anchor: nat, table: seq<nat>, vs: seq<nat>)
    requires anchor <= ip && anchor <= |s| && TableOk(table, ip) && Entered(s, vs, ip) && Shows(s, table, vs)
    ensures Parse(s, ip, anchor, table) == Search(s, ip, anchor, vs)
    decreases |s| - ip
  {
    hide Hash, Read32, Shows, Remember, MatchLen, Latest, Parse, Search, Hit, Reseed;
    if ip + 4 >= |s| {
      BothEnd(s, ip, anchor, table, vs);
    } else {
      var ref := ShownAt(s, table, vs, Hash(Read32(s, ip)));
      SearchStep(s, ip, anchor, vs, ref);
      ParseStep(s, ip, anchor, table, ref);
      ShowsMore(s, table, vs, ip);
      var seen := Remember(s, ip, table);
      if !Hit(s, ip, ref) {
        ParseIsSearch(s, ip + 1, anchor, seen, vs + [ip]);
      } else {
        var end := ip + MatchLen(s, ip, ref);
        var next := ReseedShows(s, ip, end, seen, vs);
        ParseIsSearch(s, end, end, Reseed(s, end, seen), next);
      }
    }
  }

  lemma ReseedShows(s: seq<byte>, ip: nat, end: nat, seen: seq<nat>, vs: seq<nat>) returns (next: seq<nat>)
    requires ip < end <= |s| && Entered(s, vs, ip) && ip + 4 <= |s| && Shows(s, seen, vs + [ip])
    ensures next == if end + 4 < |s| then vs + [ip, end] else vs + [ip]
    ensures Entered(s, next, end) && Shows(s, Reseed(s, end, seen), next)
  {
    hide Hash, Read32, Remember, Latest, Shows;
    next := if end + 4 < |s| then vs + [ip, end] else vs + [ip];
    if end + 4 < |s| {
      ShowsMore(s, seen, vs + [ip], end);
      assert vs + [ip] + [end] == vs + [ip, end];
    }
  }

  lemma ShownAt(s: seq<byte>, table: seq<nat>, vs: seq<nat>, h: nat) returns (ref: nat)
    requires h < HASH_SIZE && (forall i | 0 <= i < |vs| :: vs[i] + 4 <= |s|) && Shows(s, table, vs)
    ensures ref == table[h] == Latest(s, vs, h) % 0x1_0000
  {
    ref := table[h];
  }

  /** Over a whole text, from an empty table. */
  lemma ParseAllIsSearch(s: seq<byte>)
    requires 1 <= |s|
    ensures ParseAll(s) == Search(s, 1, 0, [])
  {
    hide Parse, Search;
    ParseIsSearch(s, 1, 0, seq(HASH_SIZE, _ => 0), []);
  }
}
