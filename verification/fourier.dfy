/** What the in-place network computes when its butterflies are exact: the discrete Fourier
    transform, over any commutative ring with a root of -1. */
module Fourier {
  import opened IfftModel
  import opened Modular

  // ---- Rings ----

  datatype Ops<!T> = Ops(add: (T, T) -> T, neg: T -> T, mul: (T, T) -> T, zero: T, one: T)

  function Sub<T>(o: Ops<T>, a: T, b: T): T {
    o.add(a, o.neg(b))
  }

  /** The laws of a commutative ring for three elements. */
  ghost predicate Laws<T>(o: Ops<T>, a: T, b: T, c: T) {
    && o.add(o.add(a, b), c) == o.add(a, o.add(b, c)) && o.add(a, b) == o.add(b, a) && o.add(o.zero, a) == a
    && o.mul(o.mul(a, b), c) == o.mul(a, o.mul(b, c)) && o.mul(a, b) == o.mul(b, a) && o.mul(o.one, a) == a
    && o.mul(a, o.add(b, c)) == o.add(o.mul(a, b), o.mul(a, c)) && o.add(a, o.neg(a)) == o.zero
  }

  ghost predicate Ring<T(!new)>(o: Ops<T>) {
    forall a, b, c {:trigger Laws(o, a, b, c)} :: Laws(o, a, b, c)
  }

  lemma Cancel<T(!new)>(o: Ops<T>, a: T, b: T, c: T)
    requires Ring(o) && o.add(a, b) == o.add(a, c)
    ensures b == c
  {
    var n := o.neg(a);
    assert Laws(o, a, n, n) && Laws(o, n, a, b) && Laws(o, n, a, c) && Laws(o, b, b, b) && Laws(o, c, c, c);
  }

  lemma MulZero<T(!new)>(o: Ops<T>, a: T)
    requires Ring(o)
    ensures o.mul(a, o.zero) == o.zero
  {
    var z := o.mul(a, o.zero);
    assert Laws(o, a, o.zero, o.zero) && Laws(o, o.zero, z, z) && Laws(o, z, o.zero, z);
    Cancel(o, z, z, o.zero);
  }

  lemma NegUnique<T(!new)>(o: Ops<T>, a: T, b: T)
    requires Ring(o) && o.add(a, b) == o.zero
    ensures b == o.neg(a)
  {
    assert Laws(o, a, b, b);
    Cancel(o, a, b, o.neg(a));
  }

  lemma NegLaws<T(!new)>(o: Ops<T>, a: T, b: T)
    requires Ring(o)
    ensures o.neg(o.neg(a)) == a && o.mul(a, o.neg(b)) == o.neg(o.mul(a, b)) && o.mul(o.neg(a), b) == o.neg(o.mul(a, b))
  {
    assert Laws(o, a, o.neg(a), a) && Laws(o, b, o.neg(b), b);
    NegUnique(o, o.neg(a), a);
    assert Laws(o, a, b, o.neg(b));
    MulZero(o, a);
    NegUnique(o, o.mul(a, b), o.mul(a, o.neg(b)));
    assert Laws(o, b, a, o.neg(a)) && Laws(o, o.neg(a), b, b) && Laws(o, a, b, b);
    MulZero(o, b);
    NegUnique(o, o.mul(b, a), o.mul(b, o.neg(a)));
  }

  function Power<T>(o: Ops<T>, w: T, k: nat): T {
    if k == 0 then o.one else o.mul(w, Power(o, w, k - 1))
  }

  lemma {:induction false} PowerSum<T(!new)>(o: Ops<T>, w: T, i: nat, j: nat)
    requires Ring(o)
    ensures Power(o, w, i + j) == o.mul(Power(o, w, i), Power(o, w, j))
    decreases i
  {
    var p := Power(o, w, j);
    if i == 0 {
      assert Laws(o, p, p, p);
    } else {
      PowerSum(o, w, i - 1, j);
      assert Laws(o, w, Power(o, w, i - 1), p);
    }
  }

  // ---- Sums ----

  function Sum<T>(o: Ops<T>, f: nat -> T, n: nat): T {
    if n == 0 then o.zero else o.add(Sum(o, f, n - 1), f(n - 1))
  }

  lemma {:induction false} SumSame<T>(o: Ops<T>, f: nat -> T, g: nat -> T, n: nat)
    requires forall s: nat :: s < n ==> f(s) == g(s)
    ensures Sum(o, f, n) == Sum(o, g, n)
    decreases n
  {
    if n > 0 { SumSame(o, f, g, n - 1); }
  }

  lemma Rearranged<T(!new)>(o: Ops<T>, a: T, b: T, c: T, d: T, w: T)
    requires Ring(o)
    ensures o.add(o.add(o.add(a, o.mul(w, b)), c), o.mul(w, d)) == o.add(o.add(a, c), o.mul(w, o.add(b, d)))
  {
    var p, q := o.mul(w, b), o.mul(w, d);
    assert Laws(o, w, b, d) && Laws(o, a, p, c) && Laws(o, p, c, c) && Laws(o, a, c, p);
    assert Laws(o, o.add(a, c), p, q);
  }

  /** The even terms and the odd ones apart, these having a common factor. */
  lemma {:induction false} SumPairs<T(!new)>(o: Ops<T>, g: nat -> T, a: nat -> T, b: nat -> T, w: T, n: nat)
    requires Ring(o) && forall s: nat :: s < n ==> g(2 * s) == a(s) && g(2 * s + 1) == o.mul(w, b(s))
    ensures Sum(o, g, 2 * n) == o.add(Sum(o, a, n), o.mul(w, Sum(o, b, n)))
    decreases n
  {
    if n > 0 {
      var m: nat := n - 1;
      SumPairs(o, g, a, b, w, m);
      assert g(2 * m) == a(m) && g(2 * m + 1) == o.mul(w, b(m));
      assert Sum(o, g, 2 * m + 1) == o.add(Sum(o, g, 2 * m), g(2 * m));
      assert Sum(o, g, 2 * n) == o.add(Sum(o, g, 2 * m + 1), g(2 * m + 1));
      Rearranged(o, Sum(o, a, m), Sum(o, b, m), a(m), b(m), w);
    } else {
      MulZero(o, w);
      assert Laws(o, o.zero, o.zero, o.zero);
    }
  }

  // ---- The transform ----

  /** The j-th component of the discrete Fourier transform of `x`. */
  function Dft<T>(o: Ops<T>, x: seq<T>, w: T, j: nat): T {
    Sum(o, DftTerms(o, x, w, j), |x|)
  }

  function DftTerms<T>(o: Ops<T>, x: seq<T>, w: T, j: nat): nat -> T {
    (m: nat) => if m < |x| then o.mul(Power(o, w, m * j), x[m]) else o.zero
  }

  /** A butterfly without rounding: the second sample is turned by the power of `w` that the
      bit-reversed index names, then added and subtracted. */
  function Exact<T>(o: Ops<T>, w: T): Butterfly<T> {
    (p: nat, a: T, b: T) => (o.add(a, o.mul(Power(o, w, p), b)), Sub(o, a, o.mul(Power(o, w, p), b)))
  }

  /** `w` turns by the n-th part of a circle, n being 2^nu: n / 2 of them are a half turn. */
  predicate IsRoot<T(==)>(o: Ops<T>, w: T, nu: nat) {
    nu > 0 ==> Power(o, w, Pow2(nu - 1)) == o.neg(o.one)
  }

  /** Term number `s` of a sum over every `d`-th sample from the `t`-th on, the power growing
      by `e` from term to term. */
  function Term<T>(o: Ops<T>, x: seq<T>, w: T, d: nat, t: nat, e: nat, s: nat): T {
    if s * d + t < |x| then o.mul(Power(o, w, s * e), x[s * d + t]) else o.zero
  }

  function Terms<T>(o: Ops<T>, x: seq<T>, w: T, d: nat, t: nat, e: nat): nat -> T {
    (s: nat) => Term(o, x, w, d, t, e, s)
  }

  // ---- Bit reversal ----

  /** Reversing more bits than an index has shifts the result. */
  lemma {:induction false} RevShift(q: nat, l: nat, nu: nat)
    requires q < Pow2(l) && l <= nu
    ensures BitRev(q, nu) == BitRev(q, l) * Pow2(nu - l)
    decreases l
  {
    if l == 0 {
      RevZero(nu);
    } else {
      RevShift(q / 2, l - 1, nu - 1);
      Pow2Sum(l - 1, nu - l);
      MulDistrib(Top(q % 2 == 1, Pow2(l - 1)), BitRev(q / 2, l - 1), Pow2(nu - l));
      TopTimes(q % 2 == 1, Pow2(l - 1), Pow2(nu - l));
    }
  }

  lemma {:induction false} RevZero(nu: nat)
    ensures BitRev(0, nu) == 0
    decreases nu
  {
    if nu > 0 { RevZero(nu - 1); }
  }

  lemma TopTimes(b: bool, p: nat, d: nat)
    ensures Top(b, p) * d == Top(b, p * d)
  {
  }

  lemma EvenOddRev(q: nat, l: nat, nu: nat)
    requires nu > 0
    ensures BitRev(2 * q, nu) == BitRev(q, nu - 1)
    ensures BitRev(2 * q, l + 1) == BitRev(q, l) && BitRev(2 * q + 1, l + 1) == Pow2(l) + BitRev(q, l)
  {
    assert 2 * q % 2 == 0 && 2 * q / 2 == q && (2 * q + 1) % 2 == 1 && (2 * q + 1) / 2 == q;
  }

  // ---- The powers of one stage ----

  /** A half turn, s times over. */
  lemma {:induction false} HalfTurns<T(!new)>(o: Ops<T>, w: T, h: nat, s: nat)
    requires Ring(o) && Power(o, w, h) == o.neg(o.one)
    ensures Power(o, w, s * h) == if s % 2 == 0 then o.one else o.neg(o.one)
    decreases s
  {
    if s > 0 {
      HalfTurns(o, w, h, s - 1);
      MulDistrib(s - 1, 1, h);
      PowerSum(o, w, (s - 1) * h, h);
      Signs(o);
    }
  }

  lemma Signs<T(!new)>(o: Ops<T>)
    requires Ring(o)
    ensures o.mul(o.one, o.neg(o.one)) == o.neg(o.one) && o.mul(o.neg(o.one), o.neg(o.one)) == o.one
  {
    var n := o.neg(o.one);
    assert Laws(o, n, n, n) && Laws(o, o.one, o.one, o.one);
    NegLaws(o, n, o.one);
    NegLaws(o, o.one, o.one);
    NegLaws(o, o.one, n);
  }

  /** The exponents of two neighbouring terms, `i` being that of the pair. */
  lemma Exponents(s: nat, e: nat, i: nat, half: nat)
    requires i == s * (2 * e)
    ensures 2 * s * e == i && (2 * s + 1) * e == e + i
    ensures 2 * s * (half + e) == 2 * s * half + i && (2 * s + 1) * (half + e) == (2 * s + 1) * half + (e + i)
  {
    Spread(2 * s, half, e);
    Spread(2 * s + 1, half, e);
    MulDistrib(2 * s, 1, e);
  }

  lemma Spread(a: nat, b: nat, c: nat)
    ensures a * (b + c) == a * b + a * c
  {
  }

  lemma LowPowers<T(!new)>(o: Ops<T>, w: T, s: nat, e: nat, i: nat)
    requires Ring(o) && i == s * (2 * e)
    ensures Power(o, w, 2 * s * e) == Power(o, w, i)
    ensures Power(o, w, (2 * s + 1) * e) == o.mul(Power(o, w, e), Power(o, w, i))
  {
    Exponents(s, e, i, 0);
    PowerSum(o, w, e, i);
  }

  lemma AfterWhole<T(!new)>(o: Ops<T>, w: T, p: nat, i: nat)
    requires Ring(o) && Power(o, w, p) == o.one
    ensures Power(o, w, p + i) == Power(o, w, i)
  {
    PowerSum(o, w, p, i);
    assert Laws(o, Power(o, w, i), o.one, o.one);
  }

  lemma AfterHalf<T(!new)>(o: Ops<T>, w: T, p: nat, e: nat, i: nat)
    requires Ring(o) && Power(o, w, p) == o.neg(o.one)
    ensures Power(o, w, p + (e + i)) == o.mul(o.neg(Power(o, w, e)), Power(o, w, i))
  {
    var a, b := Power(o, w, e), Power(o, w, i);
    PowerSum(o, w, p, e + i);
    PowerSum(o, w, e, i);
    assert Laws(o, o.mul(a, b), o.one, o.one);
    NegLaws(o, o.one, o.mul(a, b));
    NegLaws(o, a, b);
  }

  lemma HighPowers<T(!new)>(o: Ops<T>, w: T, s: nat, e: nat, i: nat, half: nat)
    requires Ring(o) && Power(o, w, half) == o.neg(o.one) && i == s * (2 * e)
    ensures Power(o, w, 2 * s * (half + e)) == Power(o, w, i)
    ensures Power(o, w, (2 * s + 1) * (half + e)) == o.mul(o.neg(Power(o, w, e)), Power(o, w, i))
  {
    Exponents(s, e, i, half);
    HalfTurns(o, w, half, 2 * s);
    HalfTurns(o, w, half, 2 * s + 1);
    AfterWhole(o, w, 2 * s * half, i);
    AfterHalf(o, w, (2 * s + 1) * half, e, i);
  }

  // ---- The terms of one stage ----

  lemma Places(s: nat, h: nat)
    ensures 2 * s * h == s * (2 * h) && (2 * s + 1) * h == s * (2 * h) + h
  {
    MulDistrib(2 * s, 1, h);
  }

  lemma TermEven<T>(o: Ops<T>, x: seq<T>, w: T, h: nat, t: nat, e: nat, f: nat, s: nat)
    requires Power(o, w, 2 * s * f) == Power(o, w, s * (2 * e))
    ensures Term(o, x, w, h, t, f, 2 * s) == Term(o, x, w, 2 * h, t, 2 * e, s)
  {
    Places(s, h);
  }

  lemma TermOdd<T(!new)>(o: Ops<T>, x: seq<T>, w: T, h: nat, t: nat, e: nat, f: nat, s: nat, turn: T)
    requires Ring(o) && Power(o, w, (2 * s + 1) * f) == o.mul(turn, Power(o, w, s * (2 * e)))
    ensures Term(o, x, w, h, t, f, 2 * s + 1) == o.mul(turn, Term(o, x, w, 2 * h, t + h, 2 * e, s))
  {
    Places(s, h);
    var m := s * (2 * h) + (t + h);
    if m < |x| {
      assert Laws(o, turn, Power(o, w, s * (2 * e)), x[m]);
    } else {
      MulZero(o, turn);
    }
  }

  /** Every h-th sample, the first half of the result: the even and the odd ones of them. */
  lemma LowSum<T(!new)>(o: Ops<T>, x: seq<T>, w: T, h: nat, t: nat, e: nat, n: nat)
    requires Ring(o)
    ensures var a, b := Terms(o, x, w, 2 * h, t, 2 * e), Terms(o, x, w, 2 * h, t + h, 2 * e);
      Sum(o, Terms(o, x, w, h, t, e), 2 * n) == o.add(Sum(o, a, n), o.mul(Power(o, w, e), Sum(o, b, n)))
  {
    var g, turn := Terms(o, x, w, h, t, e), Power(o, w, e);
    var a, b := Terms(o, x, w, 2 * h, t, 2 * e), Terms(o, x, w, 2 * h, t + h, 2 * e);
    forall s: nat | s < n ensures g(2 * s) == a(s) && g(2 * s + 1) == o.mul(turn, b(s)) {
      LowPowers(o, w, s, e, s * (2 * e));
      TermEven(o, x, w, h, t, e, e, s);
      TermOdd(o, x, w, h, t, e, e, s, turn);
    }
    SumPairs(o, g, a, b, turn, n);
  }

  /** The second half, where the odd ones are half a turn further. */
  lemma HighSum<T(!new)>(o: Ops<T>, x: seq<T>, w: T, h: nat, t: nat, e: nat, n: nat, half: nat)
    requires Ring(o) && Power(o, w, half) == o.neg(o.one)
    ensures var a, b := Terms(o, x, w, 2 * h, t, 2 * e), Terms(o, x, w, 2 * h, t + h, 2 * e);
      Sum(o, Terms(o, x, w, h, t, half + e), 2 * n) == Sub(o, Sum(o, a, n), o.mul(Power(o, w, e), Sum(o, b, n)))
  {
    var g, turn := Terms(o, x, w, h, t, half + e), o.neg(Power(o, w, e));
    var a, b := Terms(o, x, w, 2 * h, t, 2 * e), Terms(o, x, w, 2 * h, t + h, 2 * e);
    forall s: nat | s < n ensures g(2 * s) == a(s) && g(2 * s + 1) == o.mul(turn, b(s)) {
      HighPowers(o, w, s, e, s * (2 * e), half);
      TermEven(o, x, w, h, t, e, half + e, s);
      TermOdd(o, x, w, h, t, e, half + e, s, turn);
    }
    SumPairs(o, g, a, b, turn, n);
    NegLaws(o, Power(o, w, e), Sum(o, b, n));
  }

  // ---- One stage ----

  /** What sample `k` is after `l` stages, `d` being the distance of the last one: a component
      of the transform of every d-th sample. */
  function Partial<T>(o: Ops<T>, x: seq<T>, w: T, d: nat, l: nat, k: nat): T
    requires d > 0
  {
    DivNat(k, d);
    Sum(o, Terms(o, x, w, d, k % d, d * BitRev(k / d, l)), Pow2(l))
  }

  ghost predicate Transformed<T>(o: Ops<T>, x: seq<T>, y: seq<T>, w: T, d: nat, l: nat) {
    && d > 0 && |y| == |x|
    && forall k: nat {:trigger Partial(o, x, w, d, l, k)} :: k < |x| ==> y[k] == Partial(o, x, w, d, l, k)
  }

  /** The samples `k` and `k + h` are the pair of block `q` that begins `t` samples into it. */
  predicate PairAt(k: nat, q: nat, t: nat, h: nat) {
    && t < h
    && k / (2 * h) == q && k % (2 * h) == t && (k + h) / (2 * h) == q && (k + h) % (2 * h) == t + h
    && k / h == 2 * q && k % h == t && (k + h) / h == 2 * q + 1 && (k + h) % h == t
  }

  lemma PairPlaces(q: nat, t: nat, h: nat)
    requires t < h
    ensures PairAt(q * (2 * h) + t, q, t, h)
  {
    var k := q * (2 * h) + t;
    ModUnique(k, 2 * h, q, t);
    ModUnique(k + h, 2 * h, q, t + h);
    Places(q, h);
    ModUnique(k, h, 2 * q, t);
    ModUnique(k + h, h, 2 * q + 1, t);
  }

  /** The component that the first sample of a pair becomes. */
  lemma PairFirst<T(!new)>(o: Ops<T>, x: seq<T>, w: T, h: nat, l: nat, q: nat, t: nat, k: nat, e: nat)
    requires Ring(o) && PairAt(k, q, t, h) && e == h * BitRev(q, l)
    ensures var u, v := Partial(o, x, w, 2 * h, l, k), Partial(o, x, w, 2 * h, l, k + h);
      Partial(o, x, w, h, l + 1, k) == o.add(u, o.mul(Power(o, w, e), v))
  {
    MulDouble(h, BitRev(q, l));
    EvenOddRev(q, l, 1);
    PartialAt(o, x, w, h, l + 1, k, t, 2 * q, e);
    PartialAt(o, x, w, 2 * h, l, k, t, q, 2 * e);
    PartialAt(o, x, w, 2 * h, l, k + h, t + h, q, 2 * e);
    LowSum(o, x, w, h, t, e, Pow2(l));
  }

  /** And the second one. */
  lemma PairSecond<T(!new)>(o: Ops<T>, x: seq<T>, w: T, h: nat, l: nat, q: nat, t: nat, k: nat, e: nat, half: nat)
    requires Ring(o) && PairAt(k, q, t, h) && e == h * BitRev(q, l)
    requires Power(o, w, half) == o.neg(o.one) && h * BitRev(2 * q + 1, l + 1) == half + e
    ensures var u, v := Partial(o, x, w, 2 * h, l, k), Partial(o, x, w, 2 * h, l, k + h);
      Partial(o, x, w, h, l + 1, k + h) == Sub(o, u, o.mul(Power(o, w, e), v))
  {
    MulDouble(h, BitRev(q, l));
    PartialAt(o, x, w, h, l + 1, k + h, t, 2 * q + 1, half + e);
    PartialAt(o, x, w, 2 * h, l, k, t, q, 2 * e);
    PartialAt(o, x, w, 2 * h, l, k + h, t + h, q, 2 * e);
    HighSum(o, x, w, h, t, e, Pow2(l), half);
  }

  lemma PartialAt<T>(o: Ops<T>, x: seq<T>, w: T, d: nat, l: nat, k: nat, t: nat, q: nat, e: nat)
    requires d > 0 && k % d == t && k / d == q && e == d * BitRev(q, l)
    ensures Partial(o, x, w, d, l, k) == Sum(o, Terms(o, x, w, d, t, e), Pow2(l))
  {
  }

  lemma HighExponent(h: nat, l: nat, nu: nat, q: nat)
    requires l < nu && h == Pow2(nu - l - 1)
    ensures h * BitRev(2 * q + 1, l + 1) == Pow2(nu - 1) + h * BitRev(q, l)
  {
    EvenOddRev(q, l, nu);
    Pow2Sum(nu - l - 1, l);
    Spread(h, Pow2(l), BitRev(q, l));
  }

  /** The angle that the source looks up for the block. */
  lemma PairAngle(q: nat, l: nat, nu: nat)
    requires l < nu && q < Pow2(l)
    ensures BitRev(2 * q, nu) == Pow2(nu - l - 1) * BitRev(q, l)
  {
    EvenOddRev(q, l, nu);
    RevShift(q, l, nu - 1);
    Commuted(BitRev(q, l), Pow2(nu - l - 1));
  }

  lemma Commuted(a: nat, b: nat)
    ensures a * b == b * a
  {
  }

  /** Each index belongs to one pair. */
  lemma InPair(k: nat, h: nat, m: nat) returns (q: nat, t: nat, j: nat)
    requires h > 0 && k < m * (2 * h)
    ensures q < m && PairAt(j, q, t, h) && j + h < m * (2 * h)
    ensures if Low(k, h) then k == j && k / h == 2 * q else k == j + h && (k - h) / h == 2 * q
  {
    var d := 2 * h;
    DivNat(k, d);
    q := k / d;
    var s := k % d;
    t := if s < h then s else s - h;
    j := q * d + t;
    assert k == q * d + s;
    if q >= m { MulMore(q, m, d); }
    MulMore(m, q + 1, d);
    MulDistrib(q, 1, d);
    PairPlaces(q, t, h);
    Parity(q);
  }

  lemma Parity(q: nat)
    ensures 2 * q % 2 == 0 && (2 * q + 1) % 2 == 1
  {
  }

  lemma MulMore(a: nat, b: nat, d: nat)
    requires a >= b
    ensures a * d >= b * d
  {
  }

  /** One pair of a stage. */
  lemma PairStep<T(!new)>(o: Ops<T>, x: seq<T>, y: seq<T>, w: T, h: nat, l: nat, nu: nat, q: nat, t: nat, j: nat)
    requires Ring(o) && l < nu && h == Pow2(nu - l - 1) && IsRoot(o, w, nu) && q < Pow2(l)
    requires Transformed(o, x, y, w, 2 * h, l) && PairAt(j, q, t, h) && j + h < |x|
    ensures var turn := o.mul(Power(o, w, BitRev(2 * q, nu)), y[j + h]);
      o.add(y[j], turn) == Partial(o, x, w, h, l + 1, j) && Sub(o, y[j], turn) == Partial(o, x, w, h, l + 1, j + h)
  {
    PairAngle(q, l, nu);
    HighExponent(h, l, nu, q);
    PairFirst(o, x, w, h, l, q, t, j, h * BitRev(q, l));
    PairSecond(o, x, w, h, l, q, t, j, h * BitRev(q, l), Pow2(nu - 1));
    assert y[j] == Partial(o, x, w, 2 * h, l, j) && y[j + h] == Partial(o, x, w, 2 * h, l, j + h);
  }

  lemma StageStep<T(!new)>(o: Ops<T>, x: seq<T>, y: seq<T>, w: T, h: nat, l: nat, nu: nat, k: nat)
    requires Ring(o) && l < nu && |x| == Pow2(nu) && h == Pow2(nu - l - 1) && IsRoot(o, w, nu) && k < |x|
    requires Transformed(o, x, y, w, 2 * h, l) && Pairs(|x|, h)
    ensures StageAt(Exact(o, w), y, h, nu, k) == Partial(o, x, w, h, l + 1, k)
  {
    Pow2Sum(l, nu - l);
    var q, t, j := InPair(k, h, Pow2(l));
    PairStep(o, x, y, w, h, l, nu, q, t, j);
    ButterflyAt(o, w, y, h, nu, k, q, j);
  }

  /** Stage number `l`, all its pairs. */
  lemma StageTransforms<T(!new)>(o: Ops<T>, x: seq<T>, y: seq<T>, w: T, d: nat, h: nat, l: nat, nu: nat)
    requires Ring(o) && 0 < l <= nu && |x| == Pow2(nu) && h == Pow2(nu - l) && d == 2 * h && IsRoot(o, w, nu)
    requires Transformed(o, x, y, w, d, l - 1) && Pairs(|x|, h)
    ensures Transformed(o, x, Stage(Exact(o, w), y, h, nu), w, h, l)
  {
    var z := Stage(Exact(o, w), y, h, nu);
    forall k: nat {:trigger Partial(o, x, w, h, l, k)} | k < |x| ensures z[k] == Partial(o, x, w, h, l, k) {
      StageStep(o, x, y, w, h, l - 1, nu, k);
    }
  }

  lemma ButterflyAt<T>(o: Ops<T>, w: T, y: seq<T>, h: nat, nu: nat, k: nat, q: nat, j: nat)
    requires h > 0 && k < |y| && Partner(k, h) < |y| && j + h < |y|
    requires if Low(k, h) then k == j && k / h == 2 * q else k == j + h && (k - h) / h == 2 * q
    ensures var turn := o.mul(Power(o, w, BitRev(2 * q, nu)), y[j + h]);
      StageAt(Exact(o, w), y, h, nu, k) == if Low(k, h) then o.add(y[j], turn) else Sub(o, y[j], turn)
  {
  }

  // ---- The whole network ----

  lemma NothingDone<T(!new)>(o: Ops<T>, x: seq<T>, w: T, nu: nat)
    requires Ring(o) && |x| == Pow2(nu)
    ensures Transformed(o, x, x, w, Pow2(nu), 0)
  {
    forall k: nat {:trigger Partial(o, x, w, Pow2(nu), 0, k)} | k < |x|
      ensures x[k] == Partial(o, x, w, Pow2(nu), 0, k)
    {
      ModUnique(k, Pow2(nu), 0, k);
      var f := Terms(o, x, w, Pow2(nu), k, Pow2(nu) * 0);
      assert Sum(o, f, 1) == o.add(Sum(o, f, 0), f(0));
      assert Laws(o, x[k], x[k], x[k]);
    }
  }

  lemma {:induction false} StagesTransform<T(!new)>(o: Ops<T>, x: seq<T>, w: T, nu: nat, l: nat)
    requires Ring(o) && |x| == Pow2(nu) && l <= nu && IsRoot(o, w, nu)
    ensures Transformed(o, x, Stages(Exact(o, w), x, nu, l), w, Pow2(nu - l), l)
    decreases l
  {
    if l == 0 {
      NothingDone(o, x, w, nu);
    } else {
      StagesTransform(o, x, w, nu, l - 1);
      PowPairs(nu, nu - l);
      StageTransforms(o, x, Stages(Exact(o, w), x, nu, l - 1), w, Pow2(nu - (l - 1)), Pow2(nu - l), l, nu);
    }
  }

  /** Main result: the stages followed by the bit-reversal permutation are the discrete
      Fourier transform, for every power of two. */
  lemma NetworkIsDft<T(!new)>(o: Ops<T>, x: seq<T>, w: T, nu: nat, j: nat)
    requires Ring(o) && |x| == Pow2(nu) && IsRoot(o, w, nu) && j < |x|
    ensures Permuted(Stages(Exact(o, w), x, nu, nu), nu)[j] == Dft(o, x, w, j)
  {
    var k := BitRev(j, nu);
    StagesTransform(o, x, w, nu, nu);
    BitRevTwice(j, nu);
    assert Stages(Exact(o, w), x, nu, nu)[k] == Partial(o, x, w, 1, nu, k);
    PartialAt(o, x, w, 1, nu, k, 0, k, j);
    SumSame(o, Terms(o, x, w, 1, 0, j), DftTerms(o, x, w, j), |x|);
  }

  // ---- Complex numbers ----

  datatype Complex = Complex(re: real, im: real)

  const COMPLEX: Ops<Complex> := Ops(
    (a: Complex, b: Complex) => Complex(a.re + b.re, a.im + b.im),
    (a: Complex) => Complex(-a.re, -a.im),
    (a: Complex, b: Complex) => Complex(a.re * b.re - a.im * b.im, a.re * b.im + a.im * b.re),
    Complex(0.0, 0.0), Complex(1.0, 0.0))

  lemma ComplexMul(a: Complex, b: Complex, c: Complex)
    ensures COMPLEX.mul(COMPLEX.mul(a, b), c) == COMPLEX.mul(a, COMPLEX.mul(b, c))
  {
    var l, r := COMPLEX.mul(COMPLEX.mul(a, b), c), COMPLEX.mul(a, COMPLEX.mul(b, c));
    assert l.re == (a.re * b.re - a.im * b.im) * c.re - (a.re * b.im + a.im * b.re) * c.im;
    assert r.re == a.re * (b.re * c.re - b.im * c.im) - a.im * (b.re * c.im + b.im * c.re);
    assert l.im == (a.re * b.re - a.im * b.im) * c.im + (a.re * b.im + a.im * b.re) * c.re;
    assert r.im == a.re * (b.re * c.im + b.im * c.re) + a.im * (b.re * c.re - b.im * c.im);
  }

  lemma ComplexSpread(a: Complex, b: Complex, c: Complex)
    ensures COMPLEX.mul(a, COMPLEX.add(b, c)) == COMPLEX.add(COMPLEX.mul(a, b), COMPLEX.mul(a, c))
    ensures COMPLEX.mul(a, b) == COMPLEX.mul(b, a) && COMPLEX.mul(COMPLEX.one, a) == a
  {
  }

  lemma ComplexAdd(a: Complex, b: Complex, c: Complex)
    ensures COMPLEX.add(COMPLEX.add(a, b), c) == COMPLEX.add(a, COMPLEX.add(b, c))
    ensures COMPLEX.add(a, b) == COMPLEX.add(b, a) && COMPLEX.add(COMPLEX.zero, a) == a
    ensures COMPLEX.add(a, COMPLEX.neg(a)) == COMPLEX.zero
  {
  }

  lemma ComplexRing()
    ensures Ring(COMPLEX)
  {
    forall a, b, c {:trigger Laws(COMPLEX, a, b, c)} ensures Laws(COMPLEX, a, b, c) {
      ComplexMul(a, b, c);
      ComplexSpread(a, b, c);
      ComplexAdd(a, b, c);
    }
  }

  /** The same over the complex numbers, for every root of -1 of the order n / 2. */
  lemma ComplexDft(x: seq<Complex>, w: Complex, nu: nat, j: nat)
    requires |x| == Pow2(nu) && nu > 0 && j < |x| && Power(COMPLEX, w, Pow2(nu - 1)) == Complex(-1.0, 0.0)
    ensures Permuted(Stages(Exact(COMPLEX, w), x, nu, nu), nu)[j] == Dft(COMPLEX, x, w, j)
  {
    ComplexRing();
    assert COMPLEX.neg(COMPLEX.one) == Complex(-1.0, 0.0);
    NetworkIsDft(COMPLEX, x, w, nu, j);
  }

  lemma Turned(c: real, s: real, b: Complex)
    ensures COMPLEX.mul(Complex(c, -s), b) == Complex(b.re * c + b.im * s, b.im * c - b.re * s)
  {
  }

  /** The butterfly of the source with its two factors exact: the second sample is turned
      backwards by the angle of cosine `c` and sine `s`. */
  lemma ExactParts(w: Complex, p: nat, c: real, s: real, a: Complex, b: Complex)
    requires Power(COMPLEX, w, p) == Complex(c, -s)
    ensures var tr, ti := b.re * c + b.im * s, b.im * c - b.re * s;
      Exact(COMPLEX, w)(p, a, b) == (Complex(a.re + tr, a.im + ti), Complex(a.re - tr, a.im - ti))
  {
    Turned(c, s, b);
    Parts(a, Complex(b.re * c + b.im * s, b.im * c - b.re * s));
  }

  lemma Parts(a: Complex, t: Complex)
    ensures COMPLEX.add(a, t) == Complex(a.re + t.re, a.im + t.im)
    ensures Sub(COMPLEX, a, t) == Complex(a.re - t.re, a.im - t.im)
  {
  }
}
