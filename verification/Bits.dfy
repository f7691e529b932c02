/** Bitwise operations on natural numbers, as hashmap.c uses them on size_t. */
module Bits {
  import opened Counting

  /** a & b. */
  function And(a: nat, b: nat): nat {
    if a == 0 || b == 0 then 0 else 2 * And(a / 2, b / 2) + (if a % 2 == 1 && b % 2 == 1 then 1 else 0)
  }

  /** a | b. */
  function Or(a: nat, b: nat): nat
    decreases a + b
  {
    if a == 0 && b == 0 then 0 else 2 * Or(a / 2, b / 2) + (if a % 2 == 1 || b % 2 == 1 then 1 else 0)
  }

  /** a ^ b. */
  function Xor(a: nat, b: nat): nat
    decreases a + b
  {
    if a == 0 && b == 0 then 0 else 2 * Xor(a / 2, b / 2) + (if a % 2 != b % 2 then 1 else 0)
  }

  /** a >> n. */
  function Shr(a: nat, n: nat): nat {
    if n == 0 then a else Shr(a / 2, n - 1)
  }

  // ----- Masks.

  lemma HalfMod(a: nat, p: nat)
    requires p > 0
    ensures a % (2 * p) == 2 * ((a / 2) % p) + a % 2
  {
    var q, r := (a / 2) / p, (a / 2) % p;
    assert a / 2 == q * p + r;
    assert a == q * (2 * p) + (2 * r + a % 2) by {
      assert a == 2 * (a / 2) + a % 2;
      assert 2 * (q * p) == q * (2 * p);
    }
    ModIs(a, 2 * p, q, 2 * r + a % 2);
  }

  /** Masking with a power of two less one is the remainder. */
  lemma {:induction false} MaskIsMod(h: nat, k: nat)
    ensures And(h, Pow2(k) - 1) == h % Pow2(k)
  {
    if k > 0 {
      MaskIsMod(h / 2, k - 1);
      HalfMod(h, Pow2(k - 1));
      if h > 0 {
        assert (Pow2(k) - 1) / 2 == Pow2(k - 1) - 1 && (Pow2(k) - 1) % 2 == 1;
      }
    }
  }

  // ----- Rounding up to a power of two.

  /** x has exactly the n low bits that are its own, and its m highest ones are all set: x >> (n - m) is all ones. */
  ghost predicate TopOnes(x: nat, n: nat, m: nat) {
    m <= n && Shr(x, n - m) == Pow2(m) - 1
  }

  lemma {:induction false} ShrShr(x: nat, a: nat, b: nat)
    ensures Shr(Shr(x, a), b) == Shr(x, a + b)
    decreases a
  {
    if a > 0 { ShrShr(x / 2, a - 1, b); }
  }

  lemma {:induction false} ShrOr(x: nat, y: nat, n: nat)
    ensures Shr(Or(x, y), n) == Or(Shr(x, n), Shr(y, n))
    decreases n
  {
    if n > 0 {
      assert Or(x, y) / 2 == Or(x / 2, y / 2);
      ShrOr(x / 2, y / 2, n - 1);
    }
  }

  /** The all-ones number of a bits shifted right by b. */
  lemma {:induction false} ShrOnes(a: nat, b: nat)
    requires b <= a
    ensures Shr(Pow2(a) - 1, b) == Pow2(a - b) - 1
  {
    if b > 0 {
      assert (Pow2(a) - 1) / 2 == Pow2(a - 1) - 1;
      ShrOnes(a - 1, b - 1);
    }
  }

  /** Or with r low ones replaces the r low bits by ones. */
  lemma {:induction false} OrOnes(x: nat, r: nat, t: nat)
    requires Shr(x, r) == Pow2(t) - 1
    ensures Or(x, Pow2(r) - 1) == Pow2(r + t) - 1
    decreases r
  {
    if r == 0 {
      OrZero(x);
    } else {
      OrOnes(x / 2, r - 1, t);
      assert (Pow2(r) - 1) / 2 == Pow2(r - 1) - 1 && (Pow2(r) - 1) % 2 == 1;
    }
  }

  lemma {:induction false} OrZero(x: nat)
    ensures Or(x, 0) == x
  {
    if x > 0 { OrZero(x / 2); }
  }

  /** One step v |= v >> s makes up to s more of the top bits ones. */
  lemma Smear(x: nat, n: nat, m: nat, s: nat)
    requires TopOnes(x, n, m) && s <= m
    ensures TopOnes(Or(x, Shr(x, s)), n, if m + s < n then m + s else n)
  {
    hide Shr, Or, Pow2;
    var m' := if m + s < n then m + s else n;
    var t, d := m' - m, n - m';
    var r := m + t - s;
    var a := Shr(x, d);
    ShrOr(x, Shr(x, s), d);
    ShrShr(x, s, d);
    ShrShr(x, d, s);
    ShrShr(x, d, t);
    ShrShr(a, t, s - t);
    ShrOnes(m, s - t);
    assert Shr(a, s) == Pow2(r) - 1;
    ShrShr(a, t, r - t);
    ShrOnes(m, r - t);
    OrOnes(a, r, m' - r);
  }

  /** Every number below 2^64 lies between two powers of two. */
  lemma {:induction false} BitLength(x: nat, k: nat) returns (n: nat)
    requires x < Pow2(k)
    ensures n <= k && x < Pow2(n) && (n > 0 ==> Pow2(n - 1) <= x && TopOnes(x, n, 1)) && (n == 0 ==> x == 0)
  {
    hide TopOnes, Shr;
    if x == 0 {
      n := 0;
    } else {
      var h := BitLength(x / 2, k - 1);
      n := h + 1;
      Doubled(x, h);
      TopBit(x, n);
    }
  }

  lemma {:induction false} Doubled(x: nat, h: nat)
    requires x > 0 && x / 2 < Pow2(h) && (h > 0 ==> Pow2(h - 1) <= x / 2) && (h == 0 ==> x / 2 == 0)
    ensures Pow2(h) <= x < Pow2(h + 1)
  {
    PowZero();
    PowStep(h);
    if h > 0 { PowStep(h - 1); }
  }

  lemma {:induction false} TopBit(x: nat, n: nat)
    requires n > 0 && Pow2(n - 1) <= x < Pow2(n)
    ensures TopOnes(x, n, 1)
  {
    PowStep(n - 1);
    PowZero();
    if n > 1 {
      PowStep(n - 2);
      TopBit(x / 2, n - 1);
    }
    assert Pow2(1) == 2;
  }

  function Smeared(v: nat): nat {
    var a := Or(v, Shr(v, 1));
    var b := Or(a, Shr(a, 2));
    var c := Or(b, Shr(b, 4));
    var d := Or(c, Shr(c, 8));
    var e := Or(d, Shr(d, 16));
    Or(e, Shr(e, 32))
  }

  lemma SmearedIs(v: nat, n: nat)
    requires 0 < n <= 64 && TopOnes(v, n, 1)
    ensures Smeared(v) == Pow2(n) - 1
  {
    hide TopOnes;
    var a := Or(v, Shr(v, 1));
    var b := Or(a, Shr(a, 2));
    var c := Or(b, Shr(b, 4));
    var d := Or(c, Shr(c, 8));
    var e := Or(d, Shr(d, 16));
    Smear(v, n, 1, 1);
    if n > 2 { Smear(a, n, 2, 2); } else { AllOnes(a, n); SmearAll(n, 2); }
    if n > 4 { Smear(b, n, 4, 4); } else { AllOnes(b, n); SmearAll(n, 4); }
    if n > 8 { Smear(c, n, 8, 8); } else { AllOnes(c, n); SmearAll(n, 8); }
    if n > 16 { Smear(d, n, 16, 16); } else { AllOnes(d, n); SmearAll(n, 16); }
    if n > 32 { Smear(e, n, 32, 32); } else { AllOnes(e, n); SmearAll(n, 32); }
    AllOnes(Smeared(v), n);
  }

  lemma AllOnes(x: nat, n: nat)
    requires TopOnes(x, n, n)
    ensures x == Pow2(n) - 1
  {
  }

  lemma SmearAll(n: nat, s: nat)
    ensures var x := Pow2(n) - 1; TopOnes(Or(x, Shr(x, s)), n, n)
  {
    var x := Pow2(n) - 1;
    if s <= n { Smear(x, n, n, s); } else { ShrAway(x, n, s); OrZero(x); }
  }

  lemma {:induction false} ShrAway(x: nat, n: nat, s: nat)
    requires x < Pow2(n) && n <= s
    ensures Shr(x, s) == 0
    decreases s
  {
    if s > 0 { ShrAway(x / 2, if n > 0 then n - 1 else 0, s - 1); }
  }

  const TWO64: nat := 0x1_0000_0000_0000_0000

  lemma TwoTo64()
    ensures Pow2(64) == TWO64 && Pow2(63) == 0x8000_0000_0000_0000
  {
    hide Pow2;
    PowStep(63);
    TwoTo16();
    PowAdd(16, 16);
    PowAdd(32, 32);
  }

  lemma PowStep(n: nat)
    ensures Pow2(n + 1) == 2 * Pow2(n)
  {
  }

  lemma TwoTo16()
    ensures Pow2(16) == 65536
  {
    assert Pow2(8) == 256;
    PowAdd(8, 8);
  }

  lemma {:induction false} PowAdd(a: nat, b: nat)
    ensures Pow2(a + b) == Pow2(a) * Pow2(b)
  {
    if a > 0 { PowAdd(a - 1, b); }
  }

  /** next_power_of_2 on 64-bit words. */
  function NextPow2(v: nat): nat
    requires 0 < v < TWO64
  {
    (Smeared(v - 1) + 1) % TWO64
  }

  /** The result is the least power of two not below v; above 2^63 there is none and the result is 0. */
  lemma NextPow2Is(v: nat) returns (k: nat)
    requires 0 < v < TWO64
    ensures v <= Pow2(63) ==> k <= 63 && NextPow2(v) == Pow2(k) && v <= Pow2(k) && (k > 0 ==> Pow2(k - 1) < v)
    ensures v > Pow2(63) ==> NextPow2(v) == 0
  {
    hide Smeared, Pow2, TopOnes;
    TwoTo64();
    k := BitLength(v - 1, 64);
    if k == 0 {
      SmearedZero();
    } else {
      SmearedIs(v - 1, k);
    }
    PowZero();
    if k <= 63 { PowMono(k, 63); }
  }

  lemma PowZero()
    ensures Pow2(0) == 1
  {
  }

  lemma SmearedZero()
    ensures Smeared(0) == 0
  {
    hide Shr;
    ShrAway(0, 0, 1);
    ShrAway(0, 0, 2);
    ShrAway(0, 0, 4);
    ShrAway(0, 0, 8);
    ShrAway(0, 0, 16);
    ShrAway(0, 0, 32);
  }

  lemma {:induction false} PowMono(a: nat, b: nat)
    requires a <= b
    ensures Pow2(a) <= Pow2(b)
    decreases b
  {
    if a < b { PowMono(a, b - 1); }
  }
}
