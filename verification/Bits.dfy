/** Masking arithmetic on machine words, as the runtime uses it. */
module Bits {

  const TWO64: nat := 0x1_0000_0000_0000_0000

  function Pow2(k: nat): (r: nat)
    ensures r > 0
  {
    if k == 0 then 1 else 2 * Pow2(k - 1)
  }

  ghost predicate IsPow2(n: nat) {
    exists k: nat :: n == Pow2(k)
  }

  /** x & y */
  function BitAnd(x: nat, y: nat): (r: nat)
    ensures r <= x && r <= y
  {
    if x == 0 || y == 0 then 0
    else (if x % 2 == 1 && y % 2 == 1 then 1 else 0) + 2 * BitAnd(x / 2, y / 2)
  }

  lemma HalfMod(x: nat, m: nat)
    requires m > 0
    ensures x % (2 * m) == 2 * (x / 2 % m) + x % 2
  {
    var q, r := x / 2 / m, x / 2 % m;
    assert x / 2 == q * m + r;
    assert x == 2 * (x / 2) + x % 2;
    assert x == q * (2 * m) + (2 * r + x % 2) by {
      assert 2 * (q * m) == q * (2 * m);
    }
    ModUnique(x, 2 * m, q, 2 * r + x % 2);
  }

  lemma ModUnique(x: nat, m: nat, q: nat, r: nat)
    requires m > 0 && r < m && x == q * m + r
    ensures x % m == r && x / m == q
  {
    assert x == (x / m) * m + x % m;
    assert (x / m - q) * m == (x / m) * m - q * m;
    OutOfReach(x / m - q, m);
  }

  lemma OutOfReach(d: int, m: nat)
    ensures d >= 1 ==> d * m >= m
    ensures d <= -1 ==> d * m <= 0 - m
  {
  }

  lemma AndOdd(x: nat, m: nat)
    requires m > 0
    ensures BitAnd(x, 2 * m - 1) == x % 2 + 2 * BitAnd(x / 2, m - 1)
  {
    assert (2 * m - 1) / 2 == m - 1 && (2 * m - 1) % 2 == 1;
  }

  lemma AndEven(x: nat, m: nat)
    ensures BitAnd(x, 2 * m) == 2 * BitAnd(x / 2, m)
  {
    assert (2 * m) / 2 == m && (2 * m) % 2 == 0;
  }

  /** A power of two minus one masks out the remainder. */
  lemma {:induction false} AndLowMask(x: nat, k: nat)
    ensures BitAnd(x, Pow2(k) - 1) == x % Pow2(k)
    decreases k
  {
    if k == 0 {
    } else {
      var m := Pow2(k - 1);
      calc {
        BitAnd(x, 2 * m - 1);
        { AndOdd(x, m); }
        x % 2 + 2 * BitAnd(x / 2, m - 1);
        { AndLowMask(x / 2, k - 1); }
        x % 2 + 2 * (x / 2 % m);
        { HalfMod(x, m); }
        x % (2 * m);
      }
    }
  }

  /** Its complement in a word of b bits rounds down. */
  lemma {:induction false} AndHighMask(x: nat, k: nat, b: nat)
    requires k <= b && x < Pow2(b) && Pow2(k) <= Pow2(b)
    ensures BitAnd(x, Pow2(b) - Pow2(k)) == x - x % Pow2(k)
    decreases b
  {
    if k == 0 {
      AndAllOnes(x, b);
    } else {
      var m, w := Pow2(k - 1), Pow2(b - 1);
      calc {
        BitAnd(x, 2 * w - 2 * m);
        { AndEven(x, w - m); assert 2 * w - 2 * m == 2 * (w - m); }
        2 * BitAnd(x / 2, w - m);
        { AndHighMask(x / 2, k - 1, b - 1); }
        2 * (x / 2 - x / 2 % m);
        { HalfMod(x, m); }
        x - x % (2 * m);
      }
    }
  }

  lemma AndAllOnes(x: nat, b: nat)
    requires x < Pow2(b)
    ensures BitAnd(x, Pow2(b) - 1) == x - x % Pow2(0)
  {
    AndLowMask(x, b);
    ModUnique(x, Pow2(b), 0, x);
    ModUnique(x, 1, x, 0);
  }

  lemma {:induction false} AndZeroAbove(x: nat)
    requires x > 0 && BitAnd(x, x - 1) == 0
    ensures IsPow2(x)
  {
    if x == 1 {
      assert Pow2(0) == 1;
    } else if x % 2 == 1 {
      assert (x - 1) / 2 == x / 2;
      AndSelf(x / 2);
      assert false;
    } else {
      assert (x - 1) / 2 == x / 2 - 1;
      AndZeroAbove(x / 2);
      var k: nat :| x / 2 == Pow2(k);
      assert x == Pow2(k + 1);
    }
  }

  lemma AndSelf(x: nat)
    ensures BitAnd(x, x) == x
  {
  }

  lemma {:induction false} Pow2AndPred(k: nat)
    ensures BitAnd(Pow2(k), Pow2(k) - 1) == 0
  {
    if k == 0 {
    } else {
      Pow2AndPred(k - 1);
      assert (Pow2(k) - 1) / 2 == Pow2(k - 1) - 1;
    }
  }

  /** is_pow2 (runtime/redzone_rt.c) */
  predicate IsPow2Test(x: nat) {
    x != 0 && BitAnd(x, x - 1) == 0
  }

  lemma IsPow2TestCorrect(x: nat)
    ensures IsPow2Test(x) <==> IsPow2(x)
  {
    if IsPow2Test(x) {
      AndZeroAbove(x);
    }
    if k: nat :| x == Pow2(k) {
      Pow2AndPred(k);
    }
  }

  lemma {:induction false} Pow2Add(a: nat, b: nat)
    ensures Pow2(a + b) == Pow2(a) * Pow2(b)
  {
    if a == 0 {
    } else {
      Pow2Add(a - 1, b);
    }
  }

  lemma Pow2Square(a: nat, v: nat)
    requires Pow2(a) == v
    ensures Pow2(2 * a) == v * v
  {
    Pow2Add(a, a);
  }

  lemma Pow2Values()
    ensures Pow2(4) == 16 && Pow2(64) == TWO64
  {
    var k := 4;
    Pow2Square(k, 16);
    Pow2Square(2 * k, 256);
    Pow2Square(4 * k, 65536);
    Pow2Square(8 * k, 0x1_0000_0000);
  }

  lemma {:induction false} Pow2Monotone(a: nat, b: nat)
    requires a <= b
    ensures Pow2(a) <= Pow2(b)
  {
    if a == b {
    } else {
      Pow2Monotone(a, b - 1);
    }
  }
}
