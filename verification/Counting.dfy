/** Small functions, counting arguments and modular positions that several components share. */
module Counting {

  function Min(a: nat, b: nat): nat { if a <= b then a else b }

  /** The first n elements, or all of them. */
  function Take<T>(s: seq<T>, n: nat): seq<T> {
    if n <= |s| then s[..n] else s
  }

  /** The numbers below n. */
  function Range(n: nat): (s: set<nat>)
    ensures forall i: nat :: i in s <==> i < n
    ensures |s| == n
  {
    if n == 0 then {} else Range(n - 1) + {n - 1}
  }

  lemma {:induction false} SubsetSize<T>(a: set<T>, b: set<T>)
    requires a <= b
    ensures |a| <= |b|
  {
    assert b == a + (b - a);
  }

  ghost predicate Distinct<T>(s: seq<T>) {
    forall i, j | 0 <= i < j < |s| :: s[i] != s[j]
  }

  ghost function Elems<T(!new)>(s: seq<T>): (r: set<T>)
    ensures forall x :: x in r <==> x in s
  {
    set x | x in s
  }

  lemma {:induction false} DistinctSize<T(!new)>(s: seq<T>)
    requires Distinct(s)
    ensures |Elems(s)| == |s|
  {
    if s != [] {
      var front, last := s[..|s| - 1], s[|s| - 1];
      DistinctSize(front);
      assert s == front + [last];
      assert Elems(s) == Elems(front) + {last};
      assert last !in front;
    }
  }

  /** n pigeonholes, one of them taken by somebody else. */
  lemma Pigeonhole(s: seq<nat>, n: nat, other: nat)
    requires Distinct(s) && other < n && other !in s && forall i | 0 <= i < |s| :: s[i] < n
    ensures |s| < n
  {
    DistinctSize(s);
    assert other !in Elems(s);
    SubsetSize(Elems(s) + {other}, Range(n));
  }

  function Pow2(n: nat): (r: nat)
    ensures r >= 1
  {
    if n == 0 then 1 else 2 * Pow2(n - 1)
  }

  // ----- Positions modulo a ring size.

  lemma MulSplit(a: nat, b: nat, n: nat)
    ensures (a + b) * n == a * n + b * n
  {
  }

  lemma MulAtLeast(k: nat, n: nat)
    requires k >= 1
    ensures k * n >= n
  {
    MulSplit(1, k - 1, n);
  }

  /** Quotient and remainder are unique. */
  lemma QuotientUnique(q: nat, r: nat, q': nat, r': nat, n: nat)
    requires r < n && r' < n && q * n + r == q' * n + r'
    ensures q == q' && r == r'
  {
    if q < q' {
      MulSplit(q, q' - q, n);
      MulAtLeast(q' - q, n);
    } else if q' < q {
      MulSplit(q', q - q', n);
      MulAtLeast(q - q', n);
    }
  }

  lemma DivMod(x: nat, n: nat)
    requires n > 0
    ensures x == (x / n) * n + x % n && 0 <= x % n < n
  {
  }

  lemma ModIs(x: nat, n: nat, q: nat, r: nat)
    requires n > 0 && x == q * n + r && r < n
    ensures x % n == r && x / n == q
  {
    DivMod(x, n);
    QuotientUnique(q, r, x / n, x % n, n);
  }

  /** Positions less than a ring apart fall in different slots. */
  lemma ModApart(i: nat, j: nat, n: nat)
    requires n > 0 && i < j < i + n
    ensures i % n != j % n
  {
    DivMod(i, n);
    DivMod(j, n);
    if i % n == j % n {
      SameSlotFarApart(i / n, j / n, i % n, n);
    }
  }

  lemma SameSlotFarApart(qi: nat, qj: nat, r: nat, n: nat)
    requires qi * n + r < qj * n + r
    ensures qj * n + r >= qi * n + r + n
  {
    if qj <= qi {
      MulSplit(qj, qi - qj, n);
    } else {
      MulSplit(qi, qj - qi, n);
      MulAtLeast(qj - qi, n);
    }
  }

  lemma MulAssoc(a: nat, b: nat, n: nat)
    ensures a * (b * n) == (a * b) * n
  {
  }

  /** A wrapped counter has the slot of the unwrapped one when the ring size divides the modulus. */
  lemma ModOfMod(x: nat, m: nat, n: nat)
    requires n > 0 && m > 0 && m % n == 0
    ensures (x % m) % n == x % n
  {
    DivMod(x, m);
    DivMod(m, n);
    var q, k, r := x / m, m / n, x % m;
    DivMod(r, n);
    MulAssoc(q, k, n);
    MulSplit(q * k, r / n, n);
    ModIs(x, n, q * k + r / n, r % n);
  }
}
