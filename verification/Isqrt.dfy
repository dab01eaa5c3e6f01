/** `osmo_isqrt32` (firmware/libosmocore/source/utils.c): Newton's method on 32-bit integers. */
module Isqrt {

  const UINT32_LIMIT := 0x1_0000_0000
  const INT32_MAX := 0x7fff_ffff

  function Pow2(n: nat): (p: nat)
    ensures p >= 1
  {
    if n == 0 then 1 else 2 * Pow2(n - 1)
  }

  lemma {:induction false} Pow2Sum(a: nat, b: nat)
    ensures Pow2(a + b) == Pow2(a) * Pow2(b)
    decreases b
  {
    if b > 0 {
      Pow2Sum(a, b - 1);
      assert Pow2(a + b) == 2 * Pow2(a + b - 1);
    }
  }

  function Pow4(n: nat): (p: nat)
    ensures p >= 1
  {
    if n == 0 then 1 else 4 * Pow4(n - 1)
  }

  lemma {:induction false} Pow4Sum(a: nat, b: nat)
    ensures Pow4(a + b) == Pow4(a) * Pow4(b)
    decreases b
  {
    if b > 0 {
      Pow4Sum(a, b - 1);
      assert Pow4(a + b) == 4 * Pow4(a + b - 1);
    }
  }

  lemma {:induction false} Pow4Square(n: nat)
    ensures Pow4(n) == Pow2(n) * Pow2(n)
  {
    if n > 0 {
      Pow4Square(n - 1);
    }
  }

  lemma Scaled(a: nat, b: nat, f: nat)
    requires a <= b
    ensures a * f <= b * f
  {
  }

  lemma Associates(a: nat, b: nat, c: nat)
    ensures a * (b * c) == (a * b) * c
  {
  }

  /** What is left of `x - 1` after `s - 1` digits of base 4 were dropped. */
  predicate Dropped(x: nat, x1: nat, s: nat) {
    s >= 1 && x >= 1 && x - 1 < (x1 + 1) * Pow4(s - 1)
  }

  /** Dropping `k` more digits. */
  lemma DropMore(x: nat, x1: nat, s: nat, k: nat, y: nat)
    requires Dropped(x, x1, s) && x1 + 1 <= (y + 1) * Pow4(k)
    ensures Dropped(x, y, s + k)
  {
    var p := Pow4(s - 1);
    Pow4Sum(s - 1, k);
    Scaled(x1 + 1, (y + 1) * Pow4(k), p);
    Associates(y + 1, Pow4(k), p);
  }

  lemma RoundedUp(n: nat, d: nat)
    requires d > 0
    ensures n + 1 <= (n / d + 1) * d
  {
  }

  /** The next iterate is not below the root either. */
  lemma NewtonStep(x: nat, g: nat)
    requires g > 0
    ensures var g1 := (g + x / g) / 2; x < (g1 + 1) * (g1 + 1)
  {
    var q := x / g + 1;
    var h := (g + x / g) / 2 + 1;
    RoundedUp(x, g);
    MeanAbove(g, q, h);
  }

  /** The mean is not below the geometric one. */
  lemma MeanAbove(g: nat, q: nat, h: nat)
    requires 2 * h >= g + q
    ensures q * g <= h * h
  {
    var t, u := g + q, if g >= q then g - q else q - g;
    assert t * t == u * u + 4 * (q * g);
    Scaled(t, 2 * h, t);
    Scaled(t, 2 * h, 2 * h);
    assert (2 * h) * (2 * h) == 4 * (h * h);
  }

  lemma FewPowers()
    ensures Pow4(0) == 1 && Pow4(1) == 4 && Pow4(2) == 0x10 && Pow4(4) == 0x100 && Pow4(8) == 0x10000
  {
    Pow4Sum(2, 2);
    Pow4Sum(4, 4);
  }

  /** A power of two that is not below the root, and fits. */
  method InitialPower(x: nat) returns (s: nat)
    requires 1 < x < UINT32_LIMIT
    ensures 1 <= s <= 16 && x <= Pow2(s) * Pow2(s)
  {
    s := 1;
    var x1 := x - 1;
    FewPowers();
    if x1 > 0xffff {
      RoundedUp(x1, 0x10000);
      DropMore(x, x1, s, 8, x1 / 0x10000);
      s := s + 8;
      x1 := x1 / 0x10000;
    }
    if x1 > 0xff {
      RoundedUp(x1, 0x100);
      DropMore(x, x1, s, 4, x1 / 0x100);
      s := s + 4;
      x1 := x1 / 0x100;
    }
    if x1 > 0xf {
      RoundedUp(x1, 0x10);
      DropMore(x, x1, s, 2, x1 / 0x10);
      s := s + 2;
      x1 := x1 / 0x10;
    }
    assert x1 <= 0xf && Dropped(x, x1, s);
    if x1 > 0x3 {
      RoundedUp(x1, 4);
      DropMore(x, x1, s, 1, x1 / 4);
      s := s + 1;
      x1 := x1 / 4;
    }
    LastDigit(x, x1, s);
  }

  lemma LastDigit(x: nat, x1: nat, s: nat)
    requires Dropped(x, x1, s) && x1 <= 3
    ensures x <= Pow2(s) * Pow2(s)
  {
    Scaled(x1 + 1, 4, Pow4(s - 1));
    Pow4Square(s);
  }

  method IntegerSquareRoot(x: nat) returns (r: nat)
    requires x < UINT32_LIMIT
    ensures r * r <= x < (r + 1) * (r + 1)
    ensures r < 0x10000
  {
    if x <= 1 {
      assert x == 0 || x == 1;
      return x;
    }
    var s := InitialPower(x);
    PowerFits(s);
    AboveRoot(x, Pow2(s));
    r := Iterate(x, Pow2(s));
    assert r != 0x10000;
  }

  /** The iterates decrease until they reach the root. */
  method Iterate(x: nat, start: nat) returns (g0: nat)
    requires 1 < x && start <= 0x10000 && NotBelow(x, start)
    ensures g0 <= 0x10000 && g0 * g0 <= x && NotBelow(x, g0)
  {
    g0 := start;
    var g1: nat := NextIterate(x, g0);
    while g1 < g0
      invariant g0 <= 0x10000 && NotBelow(x, g0) && NotBelow(x, g1)
      invariant g1 >= g0 ==> g0 * g0 <= x
      decreases g0
    {
      g0 := g1;
      g1 := NextIterate(x, g0);
    }
  }

  /** The root of `x` is at most `g`. */
  predicate NotBelow(x: nat, g: nat) {
    x < (g + 1) * (g + 1)
  }

  lemma AboveRoot(x: nat, g: nat)
    requires x <= g * g
    ensures NotBelow(x, g)
  {
    Scaled(g, g + 1, g);
    Scaled(g, g + 1, g + 1);
  }

  /** One division; the sum stays far below the limit of its C type. */
  method NextIterate(x: nat, g0: nat) returns (g1: nat)
    requires 1 < x && g0 <= 0x10000 && NotBelow(x, g0)
    ensures NotBelow(x, g1) && (g1 >= g0 ==> g0 * g0 <= x)
  {
    assert g0 > 0;
    SmallQuotient(x, g0);
    assert g0 + x / g0 <= INT32_MAX;
    g1 := (g0 + x / g0) / 2;
    NewtonStep(x, g0);
    if g1 >= g0 {
      Settled(x, g0);
    }
  }

  lemma Quotient(x: nat, g: nat)
    requires g > 0
    ensures x / g <= x && (x / g) * g <= x
  {
    assert x == g * (x / g) + x % g;
    Scaled(1, g, x / g);
  }

  lemma SmallQuotient(x: nat, g: nat)
    requires g > 0 && x < (g + 1) * (g + 1)
    ensures x / g <= g + 2
  {
    if x / g > g + 2 {
      Quotient(x, g);
      Scaled(g + 3, x / g, g);
    }
  }

  /** Where the iteration stops. */
  lemma Settled(x: nat, g: nat)
    requires g > 0 && (g + x / g) / 2 >= g
    ensures g * g <= x
  {
    Quotient(x, g);
    Scaled(g, x / g, g);
  }

  lemma PowerFits(s: nat)
    requires s <= 16
    ensures Pow2(s) <= 0x10000
  {
    Pow2Sum(s, 16 - s);
    assert Pow2(16) == 0x10000 by {
      Pow2Sum(8, 8);
      Pow2Sum(4, 4);
      assert Pow2(4) == 16;
    }
    Scaled(1, Pow2(16 - s), Pow2(s));
  }
}
