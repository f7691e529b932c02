/** The byte-pair tokenizer of llm_runtime.c. */
module Bpe {
  import opened Bytes

  /** Vocabulary strings and their scores; both tables can be missing. */
  datatype Ctx = Ctx(vocab: Option<seq<Option<seq<byte>>>>, scores: Option<seq<real>>)

  const MERGE_ROOM: nat := 512
  const LOWEST: real := -1000000000000000000000000000000.0

  function Size(c: Ctx): nat { if c.vocab.Some? then |c.vocab.value| else 0 }

  ghost predicate CtxOk(c: Ctx) { c.vocab.Some? && c.scores.Some? ==> |c.scores.value| == |c.vocab.value| }

  predicate Merging(c: Ctx) { c.vocab.Some? && c.scores.Some? && |c.vocab.value| > 256 }

  /** llm_detokenize; token 0 is the empty string. */
  function Detok(c: Ctx, t: nat): seq<byte> {
    if t == 0 then []
    else if t < 256 then [t]
    else if t < Size(c) && c.vocab.value[t].Some? then c.vocab.value[t].value
    else []
  }

  /** The text of a token sequence. */
  function Text(c: Ctx, ts: seq<nat>): seq<byte> {
    if ts == [] then [] else Text(c, ts[..|ts| - 1]) + Detok(c, ts[|ts| - 1])
  }

  lemma {:induction false} TextAppend(c: Ctx, a: seq<nat>, b: seq<nat>)
    ensures Text(c, a + b) == Text(c, a) + Text(c, b)
    decreases |b|
  {
    if b == [] {
      assert a + b == a;
    } else {
      var n := |b| - 1;
      assert (a + b)[..|a + b| - 1] == a + b[..n];
      TextAppend(c, a, b[..n]);
    }
  }

  predicate Spells(c: Ctx, v: nat, s: seq<byte>) { v < Size(c) && c.vocab.value[v] == Some(s) }

  /** The first entry from v on that spells s, or the size of the vocabulary. */
  function FirstFrom(c: Ctx, s: seq<byte>, v: nat): (r: nat)
    requires v <= Size(c)
    ensures v <= r <= Size(c) && (r < Size(c) ==> Spells(c, r, s)) && forall j | v <= j < r :: !Spells(c, j, s)
    decreases Size(c) - v
  {
    if v == Size(c) || Spells(c, v, s) then v else FirstFrom(c, s, v + 1)
  }

  /** What two neighbouring tokens could merge into. */
  function Candidate(c: Ctx, a: nat, b: nat): (r: Option<nat>)
    requires CtxOk(c) && Merging(c)
    ensures r.Some? ==> 256 <= r.value < Size(c)
  {
    var s := Detok(c, a) + Detok(c, b);
    if |s| >= MERGE_ROOM then None
    else
      var v := FirstFrom(c, s, 256);
      if v < Size(c) && c.scores.value[v] > LOWEST then Some(v) else None
  }

  /** v is the first entry above the bytes that spells the two tokens together, which are short enough, and its score is
      above the lowest. */
  ghost predicate CanBecome(c: Ctx, a: nat, b: nat, v: nat)
    requires CtxOk(c) && Merging(c)
  {
    var s := Detok(c, a) + Detok(c, b);
    && 256 <= v < Size(c) && c.vocab.value[v] == Some(s) && |s| < 512
    && c.scores.value[v] > -1000000000000000000000000000000.0
    && forall j | 256 <= j < v :: c.vocab.value[j] != Some(s)
  }

  lemma CandidateExactly(c: Ctx, a: nat, b: nat, v: nat)
    requires CtxOk(c) && Merging(c)
    ensures Candidate(c, a, b) == Some(v) <==> CanBecome(c, a, b, v)
  {
    var s := Detok(c, a) + Detok(c, b);
    var f := FirstFrom(c, s, 256);
    if CanBecome(c, a, b, v) {
      assert Spells(c, v, s);
    } else if f == v {
      forall j | 256 <= j < v ensures c.vocab.value[j] != Some(s) { assert !Spells(c, j, s); }
    }
  }

  /** The candidate spells the two tokens together. */
  lemma CandidateSpells(c: Ctx, a: nat, b: nat)
    requires CtxOk(c) && Merging(c) && Candidate(c, a, b).Some?
    ensures Detok(c, Candidate(c, a, b).value) == Detok(c, a) + Detok(c, b)
  {
  }

  datatype Pick = Pick(pos: nat, id: nat)

  function Score(c: Ctx, v: nat): real
    requires CtxOk(c) && Merging(c) && v < Size(c)
  {
    c.scores.value[v]
  }

  /** The best merge among the first k pairs. */
  function BestOf(c: Ctx, ts: seq<nat>, k: nat): (r: Option<Pick>)
    requires CtxOk(c) && Merging(c) && (k == 0 || k < |ts|)
    ensures r.Some? ==> r.value.pos < k && r.value.id < Size(c)
  {
    if k == 0 then None
    else
      var b := BestOf(c, ts, k - 1);
      var v := Candidate(c, ts[k - 1], ts[k]);
      if v.Some? && (b.None? || Score(c, v.value) > Score(c, b.value.id)) then Some(Pick(k - 1, v.value)) else b
  }

  /** The best merge is the leftmost of the highest score, and there is none only when no pair can merge. */
  lemma {:induction false} BestIsBest(c: Ctx, ts: seq<nat>, k: nat, i: nat)
    requires CtxOk(c) && Merging(c) && k < |ts| && i < k && Candidate(c, ts[i], ts[i + 1]).Some?
    ensures var b := BestOf(c, ts, k); var v := Candidate(c, ts[i], ts[i + 1]).value;
            && b.Some? && Score(c, v) <= Score(c, b.value.id)
            && (i < b.value.pos ==> Score(c, v) < Score(c, b.value.id))
  {
    hide Candidate, Score;
    if i < k - 1 {
      BestIsBest(c, ts, k - 1, i);
    }
  }

  lemma {:induction false} BestIsCandidate(c: Ctx, ts: seq<nat>, k: nat)
    requires CtxOk(c) && Merging(c) && (k == 0 || k < |ts|) && BestOf(c, ts, k).Some?
    ensures var p := BestOf(c, ts, k).value; Candidate(c, ts[p.pos], ts[p.pos + 1]) == Some(p.id)
  {
    hide Candidate, Score;
    if BestOf(c, ts, k).value.pos < k - 1 {
      BestIsCandidate(c, ts, k - 1);
    }
  }

  function Best(c: Ctx, ts: seq<nat>): Option<Pick>
    requires CtxOk(c) && Merging(c)
  {
    BestOf(c, ts, if |ts| < 2 then 0 else |ts| - 1)
  }

  function Merged(ts: seq<nat>, p: Pick): (r: seq<nat>)
    requires p.pos + 1 < |ts|
    ensures |r| == |ts| - 1
  {
    ts[..p.pos] + [p.id] + ts[p.pos + 2..]
  }

  /** The whole rewriting: the best pair is merged until none can be. */
  function Reduce(c: Ctx, ts: seq<nat>): seq<nat>
    requires CtxOk(c) && Merging(c)
    decreases |ts|
  {
    match Best(c, ts)
    case None => ts
    case Some(p) => Reduce(c, Merged(ts, p))
  }

  lemma MergeKeepsText(c: Ctx, ts: seq<nat>, p: Pick)
    requires p.pos + 1 < |ts| && Detok(c, p.id) == Detok(c, ts[p.pos]) + Detok(c, ts[p.pos + 1])
    ensures Text(c, Merged(ts, p)) == Text(c, ts)
  {
    hide Text, Detok;
    var a, x, y, b := ts[..p.pos], ts[p.pos], ts[p.pos + 1], ts[p.pos + 2..];
    assert ts == a + [x] + [y] + b;
    TextOne(c, x);
    TextOne(c, y);
    TextOne(c, p.id);
    TextAppend(c, a + [x] + [y], b);
    TextAppend(c, a + [x], [y]);
    TextAppend(c, a, [x]);
    TextAppend(c, a + [p.id], b);
    TextAppend(c, a, [p.id]);
    Join(Text(c, a), Detok(c, x), Detok(c, y));
  }

  lemma Join(a: seq<byte>, x: seq<byte>, y: seq<byte>)
    ensures (a + x) + y == a + (x + y)
  {
  }

  lemma TextOne(c: Ctx, t: nat)
    ensures Text(c, [t]) == Detok(c, t)
  {
    assert [t][..0] == [];
  }

  /** No two neighbours can become one token. */
  ghost predicate Final(c: Ctx, ts: seq<nat>)
    requires CtxOk(c) && Merging(c)
  {
    forall i, v | 0 <= i < |ts| - 1 && 256 <= v < Size(c) :: !MergesAt(c, ts, i, v)
  }

  ghost predicate MergesAt(c: Ctx, ts: seq<nat>, i: nat, v: nat)
    requires CtxOk(c) && Merging(c) && i + 1 < |ts|
  {
    CanBecome(c, ts[i], ts[i + 1], v)
  }

  /** The rewriting loses nothing, and in the end no two neighbours can be merged. */
  lemma {:induction false} ReduceIsLosslessAndFinal(c: Ctx, ts: seq<nat>)
    requires CtxOk(c) && Merging(c)
    ensures Text(c, Reduce(c, ts)) == Text(c, ts)
    ensures Final(c, Reduce(c, ts))
    decreases |ts|
  {
    hide Candidate, Text, Merged, Detok, Final;
    match Best(c, ts)
    case None =>
      NoneLeft(c, ts);
    case Some(p) =>
      BestMerges(c, ts, p);
      MergeKeepsText(c, ts, p);
      ReduceIsLosslessAndFinal(c, Merged(ts, p));
  }

  lemma NoneLeft(c: Ctx, ts: seq<nat>)
    requires CtxOk(c) && Merging(c) && Best(c, ts) == None
    ensures Final(c, ts)
  {
    hide Candidate, CanBecome;
    forall i, v | 0 <= i < |ts| - 1 && 256 <= v < Size(c) ensures !MergesAt(c, ts, i, v) {
      CandidateExactly(c, ts[i], ts[i + 1], v);
      if Candidate(c, ts[i], ts[i + 1]).Some? {
        BestIsBest(c, ts, |ts| - 1, i);
      }
    }
  }

  lemma BestMerges(c: Ctx, ts: seq<nat>, p: Pick)
    requires CtxOk(c) && Merging(c) && Best(c, ts) == Some(p)
    ensures p.pos + 1 < |ts| && Detok(c, p.id) == Detok(c, ts[p.pos]) + Detok(c, ts[p.pos + 1])
  {
    hide Candidate, Detok;
    BestIsCandidate(c, ts, |ts| - 1);
    CandidateSpells(c, ts[p.pos], ts[p.pos + 1]);
  }

  function BytesOf(text: seq<byte>): (r: seq<nat>)
    ensures |r| == |text| && forall i | 0 <= i < |r| :: r[i] == text[i]
  {
    seq(|text|, i requires 0 <= i < |text| => text[i])
  }

  lemma {:induction false} BytesSpell(c: Ctx, text: seq<byte>)
    requires CString(text)
    ensures Text(c, BytesOf(text)) == text
  {
    if text != [] {
      var n := |text| - 1;
      assert BytesOf(text)[..n] == BytesOf(text[..n]);
      BytesSpell(c, text[..n]);
      assert text == text[..n] + [text[n]];
    }
  }

  // ----- The loops.

  method FindMerged(c: Ctx, s: seq<byte>) returns (v: nat)
    requires Merging(c)
    ensures v == FirstFrom(c, s, 256)
  {
    v := 256;
    while v < Size(c)
      invariant 256 <= v <= Size(c) && FirstFrom(c, s, 256) == FirstFrom(c, s, v)
    {
      if c.vocab.value[v] == Some(s) {
        return;
      }
      v := v + 1;
    }
  }

  /** The scan of all adjacent pairs for the best merge. */
  method FindBest(c: Ctx, tokens: array<nat>, n: nat) returns (best: Option<Pick>)
    requires CtxOk(c) && Merging(c) && 2 <= n <= tokens.Length
    ensures best == Best(c, tokens[..n])
  {
    hide Detok;
    best := None;
    var bestScore := LOWEST;
    for i := 0 to n - 1
      invariant best == BestOf(c, tokens[..n], i)
      invariant bestScore == if best.Some? then Score(c, best.value.id) else LOWEST
      invariant bestScore >= LOWEST
    {
      var s := Detok(c, tokens[i]) + Detok(c, tokens[i + 1]);
      if |s| < MERGE_ROOM {
        var v := FindMerged(c, s);
        if v < Size(c) && c.scores.value[v] > bestScore {
          bestScore := c.scores.value[v];
          best := Some(Pick(i, v));
        }
      }
    }
  }

  /** The merge in place: one token replaced, the rest shifted left. */
  method MergeAt(tokens: array<nat>, n: nat, p: Pick)
    requires p.pos + 1 < n <= tokens.Length
    modifies tokens
    ensures tokens[..n - 1] == Merged(old(tokens[..n]), p)
  {
    ghost var s := tokens[..n];
    tokens[p.pos] := p.id;
    for i := p.pos + 1 to n - 1
      invariant forall k | 0 <= k < p.pos :: tokens[k] == s[k]
      invariant tokens[p.pos] == p.id
      invariant forall k | p.pos < k < i :: tokens[k] == s[k + 1]
      invariant forall k | i <= k < n :: tokens[k] == s[k]
    {
      tokens[i] := tokens[i + 1];
    }
    var r := Merged(s, p);
    assert forall k | 0 <= k < n - 1 :: tokens[k] == r[k];
  }

  /** How many bytes of the text fit. */
  function Room(text: seq<byte>, max: int): nat {
    if max < 0 then 0 else if |text| < max then |text| else max
  }

  /** llm_tokenize. */
  method Tokenize(c: Ctx, text: seq<byte>, tokens: array<nat>, max: int) returns (n: nat)
    requires CtxOk(c) && CString(text) && max <= tokens.Length
    modifies tokens
    ensures n <= Room(text, max) && Text(c, tokens[..n]) == text[..Room(text, max)]
    ensures tokens[..n] == if Merging(c) then Reduce(c, BytesOf(text[..Room(text, max)]))
        else BytesOf(text[..Room(text, max)])
    ensures Merging(c) ==> Final(c, tokens[..n])
  {
    hide Final, Candidate, Text, Detok, Best, Merged, Reduce;
    var k := Room(text, max);
    n := FillBytes(text, tokens, k);
    ghost var start := BytesOf(text[..k]);
    BytesSpell(c, text[..k]);
    if !Merging(c) {
      return;
    }
    var done := false;
    while n >= 2 && !done
      invariant n <= k && Reduce(c, tokens[..n]) == Reduce(c, start)
      invariant done ==> Reduce(c, tokens[..n]) == tokens[..n]
      decreases n, !done
    {
      var b := FindBest(c, tokens, n);
      ReduceStep(c, tokens[..n]);
      if b.None? {
        done := true;
      } else {
        BestMerges(c, tokens[..n], b.value);
        MergeAt(tokens, n, b.value);
        n := n - 1;
      }
    }
    if n < 2 { ReduceShort(c, tokens[..n]); }
    ReduceIsLosslessAndFinal(c, start);
  }

  method FillBytes(text: seq<byte>, tokens: array<nat>, k: nat) returns (n: nat)
    requires k <= |text| && k <= tokens.Length
    modifies tokens
    ensures n == k && tokens[..n] == BytesOf(text[..k])
  {
    n := 0;
    while n < k
      invariant n <= k && forall i | 0 <= i < n :: tokens[i] == text[i]
    {
      tokens[n] := text[n];
      n := n + 1;
    }
  }

  lemma ReduceStep(c: Ctx, ts: seq<nat>)
    requires CtxOk(c) && Merging(c)
    ensures match Best(c, ts)
            case None => Reduce(c, ts) == ts
            case Some(p) => p.pos + 1 < |ts| && Reduce(c, ts) == Reduce(c, Merged(ts, p))
  {
  }

  lemma ReduceShort(c: Ctx, ts: seq<nat>)
    requires CtxOk(c) && Merging(c) && |ts| < 2
    ensures Reduce(c, ts) == ts
  {
  }
}
