/** Integer arithmetic that the ring indices and the wrapping clocks rest on. */
module Modular {

  function Pow2(k: nat): (p: nat)
    ensures p > 0
  {
    if k == 0 then 1 else 2 * Pow2(k - 1)
  }

  /** C's `x & m` for a two's complement `x` of any width and a non-negative `m`. */
  function And(x: int, m: nat): nat
    decreases m
  {
    if m == 0 then 0 else (if m % 2 == 1 then x % 2 else 0) + 2 * And(x / 2, m / 2)
  }

  lemma MulAtLeast(t: int, d: int)
    requires t >= 1 && d >= 1
    ensures t * d >= d
  {
  }

  lemma DivNat(x: nat, d: nat)
    requires d > 0
    ensures 0 <= x / d
  {
  }

  lemma MulDistrib(a: int, b: int, d: int)
    ensures (a - b) * d == a * d - b * d && (a + b) * d == a * d + b * d
  {
  }

  lemma ModUnique(x: int, d: nat, q: int, r: int)
    requires d > 0 && x == q * d + r && 0 <= r < d
    ensures x % d == r && x / d == q
  {
    var q', r' := x / d, x % d;
    assert x == q' * d + r';
    MulDistrib(q, q', d);
    MulDistrib(q', q, d);
    if q > q' { MulAtLeast(q - q', d); } else if q < q' { MulAtLeast(q' - q, d); }
  }

  /** Adding whole turns changes nothing. */
  lemma ModTurn(x: int, d: nat, k: int)
    requires d > 0
    ensures (x + k * d) % d == x % d
  {
    assert x + k * d == (x / d + k) * d + x % d;
    ModUnique(x + k * d, d, x / d + k, x % d);
  }

  /** Both operands of a difference may be reduced first. */
  lemma ModDiff(a: int, b: int, d: nat)
    requires d > 0
    ensures (a % d - b % d) % d == (a - b) % d
  {
    var k := a / d - b / d;
    assert a == a / d * d + a % d && b == b / d * d + b % d;
    assert a - b == (a % d - b % d) + k * d;
    ModTurn(a % d - b % d, d, k);
  }

  lemma ModSum(a: int, b: int, d: nat)
    requires d > 0
    ensures (a % d + b) % d == (a + b) % d
  {
    assert a == a / d * d + a % d;
    ModTurn(a % d + b, d, a / d);
  }

  lemma ModSmall(x: int, d: nat)
    requires 0 <= x < d
    ensures x % d == x
  {
  }

  /** Fewer than `d` steps apart means different remainders. */
  lemma ModApart(i: int, j: int, d: nat)
    requires i < j < i + d
    ensures i % d != j % d
  {
    if i % d == j % d {
      ModDiff(j, i, d);
      ModSmall(j - i, d);
    }
  }

  lemma AndStep(x: int, m: nat)
    ensures And(x, 2 * m + 1) == x % 2 + 2 * And(x / 2, m)
    ensures And(x, 2 * m) == 2 * And(x / 2, m)
  {
    assert (2 * m + 1) % 2 == 1 && (2 * m + 1) / 2 == m;
    assert 2 * m % 2 == 0 && 2 * m / 2 == m;
    assert And(x / 2, 0) == 0;
  }

  /** Masking with 2^k - 1 is reduction modulo 2^k, also for negative values. */
  lemma {:induction false} AndMask(x: int, k: nat)
    ensures And(x, Pow2(k) - 1) == x % Pow2(k)
    decreases k
  {
    if k > 0 {
      AndMask(x / 2, k - 1);
      MaskStep(x, Pow2(k - 1), Pow2(k));
    }
  }

  /** Both sides of AndMask double and take in the low bit. */
  lemma MaskStep(x: int, p: nat, d: nat)
    requires p > 0 && d == 2 * p
    ensures And(x, d - 1) - x % d == 2 * (And(x / 2, p - 1) - x / 2 % p)
  {
    DoubleMod(x, p, d);
    AndStep(x, p - 1);
    assert 2 * (p - 1) + 1 == d - 1;
  }

  lemma {:induction false} Pow2Sum(a: nat, b: nat)
    ensures Pow2(a + b) == Pow2(a) * Pow2(b)
    decreases a
  {
    if a > 0 {
      Pow2Sum(a - 1, b);
      MulDouble(Pow2(a - 1), Pow2(b));
      assert Pow2(a + b) == 2 * Pow2(a - 1 + b);
    }
  }

  lemma MulDouble(p: int, d: int)
    ensures 2 * p * d == 2 * (p * d)
  {
  }

  lemma DoubleMod(x: int, p: nat, d: nat)
    requires p > 0 && d == 2 * p
    ensures x % d == x % 2 + 2 * (x / 2 % p)
  {
    var q, r := x / 2 / p, x / 2 % p;
    assert x / 2 == q * p + r;
    MulDouble(p, q);
    ModUnique(x, d, q, 2 * r + x % 2);
  }
}
