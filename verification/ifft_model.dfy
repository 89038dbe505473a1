/** The index structure of the in-place FFT: bit reversal, stages of butterflies and the
    permutation at the end, for any butterfly. */
module IfftModel {
  import opened Modular

  function Top(b: bool, p: nat): nat {
    if b then p else 0
  }

  /** The low `nu` bits of `j` in reverse order. */
  function BitRev(j: nat, nu: nat): (r: nat)
    ensures r < Pow2(nu)
    decreases nu
  {
    if nu == 0 then 0 else Top(j % 2 == 1, Pow2(nu - 1)) + BitRev(j / 2, nu - 1)
  }

  lemma HalfTop(b: bool, p: nat, y: nat)
    ensures (Top(b, 2 * p) + y) % 2 == y % 2 && (Top(b, 2 * p) + y) / 2 == Top(b, p) + y / 2
  {
  }

  /** Reading the bits from the top instead. */
  lemma {:induction false} BitRevTop(b: bool, y: nat, nu: nat)
    requires y < Pow2(nu)
    ensures BitRev(Top(b, Pow2(nu)) + y, nu + 1) == Top(b, 1) + 2 * BitRev(y, nu)
    decreases nu
  {
    if nu > 0 {
      HalfTop(b, Pow2(nu - 1), y);
      BitRevTop(b, y / 2, nu - 1);
    }
  }

  /** Reversing twice restores the index. */
  lemma {:induction false} BitRevTwice(j: nat, nu: nat)
    requires j < Pow2(nu)
    ensures BitRev(BitRev(j, nu), nu) == j
    decreases nu
  {
    if nu > 0 {
      BitRevTwice(j / 2, nu - 1);
      BitRevTop(j % 2 == 1, BitRev(j / 2, nu - 1), nu - 1);
    }
  }

  /** A sample: real and imaginary part. */
  datatype Point = Point(re: int16, im: int16)

  type int16 = x: int | -0x8000 <= x < 0x8000

  /** What one butterfly makes of its two samples, given the bit-reversed angle. */
  type Butterfly<!T> = (nat, T, T) -> (T, T)

  /** The other index of the pair at distance `d`. */
  function Partner(k: nat, d: nat): nat
    requires d > 0
  {
    if k / d % 2 == 0 then k + d else k - d
  }

  /** The lower half of a pair. */
  predicate Low(k: nat, d: nat)
    requires d > 0
  {
    k / d % 2 == 0
  }

  lemma DivStep(k: nat, d: nat)
    requires d > 0
    ensures (k + d) / d == k / d + 1 && (k >= d ==> (k - d) / d == k / d - 1 && k / d >= 1)
    ensures k < d ==> k / d == 0
  {
    var q, r := k / d, k % d;
    assert k == q * d + r;
    MulDistrib(q, 1, d);
    ModUnique(k + d, d, q + 1, r);
    if k >= d {
      assert q != 0;
      DivNat(k, d);
      ModUnique(k - d, d, q - 1, r);
    } else {
      ModUnique(k, d, 0, k);
    }
  }

  /** In a stage at distance `d` of `n` samples, where 2 * d divides `n`, every index is in
      exactly one pair and the pair is in bounds. */
  lemma PartnerPairs(k: nat, d: nat, m: nat)
    requires d > 0 && k < m * (2 * d)
    ensures Partner(k, d) < m * (2 * d) && Partner(k, d) != k
    ensures Partner(Partner(k, d), d) == k && (Low(k, d) <==> !Low(Partner(k, d), d))
  {
    DivStep(k, d);
    if Low(k, d) {
      LowInBounds(k, d, m);
    } else {
      assert k >= d;
    }
  }

  lemma LowInBounds(k: nat, d: nat, m: nat)
    requires d > 0 && k < m * (2 * d) && Low(k, d)
    ensures k + d < m * (2 * d)
  {
    var q, r := k / d, k % d;
    assert k == q * d + r;
    assert m * (2 * d) == (2 * m) * d;
    MulOrder(2 * m, q, d);
    assert q + 2 <= 2 * m;
    MulOrder(q + 2, 2 * m, d);
    MulDistrib(q, 2, d);
  }

  lemma MulOrder(a: int, b: int, d: nat)
    requires d > 0
    ensures a <= b ==> a * d <= b * d
  {
  }

  /** All butterflies of one stage at once: nothing is read after it was written. */
  function StageAt<T>(b: Butterfly<T>, x: seq<T>, d: nat, nu: nat, k: nat): T
    requires d > 0 && k < |x| && Partner(k, d) < |x|
  {
    if Low(k, d) then b(BitRev(k / d, nu), x[k], x[Partner(k, d)]).0
    else b(BitRev(Partner(k, d) / d, nu), x[Partner(k, d)], x[k]).1
  }

  ghost predicate Pairs(n: nat, d: nat) {
    d > 0 && forall k: nat {:trigger Partner(k, d)} :: k < n ==> Partner(k, d) < n
  }

  function Stage<T>(b: Butterfly<T>, x: seq<T>, d: nat, nu: nat): (y: seq<T>)
    requires Pairs(|x|, d)
    ensures |y| == |x|
  {
    seq(|x|, k requires 0 <= k < |x| => StageAt(b, x, d, nu, k))
  }

  lemma PowPairs(nu: nat, e: nat)
    requires e < nu
    ensures Pairs(Pow2(nu), Pow2(e))
  {
    Pow2Sum(nu - e - 1, e + 1);
    forall k: nat {:trigger Partner(k, Pow2(e))} | k < Pow2(nu) ensures Partner(k, Pow2(e)) < Pow2(nu) {
      PartnerPairs(k, Pow2(e), Pow2(nu - e - 1));
    }
  }

  /** Stages 1 to `l`, at the distances n / 2, n / 4, ... */
  function Stages<T>(b: Butterfly<T>, x: seq<T>, nu: nat, l: nat): (y: seq<T>)
    requires |x| == Pow2(nu) && l <= nu
    ensures |y| == |x|
  {
    if l == 0 then x
    else
      PowPairs(nu, nu - l);
      Stage(b, Stages(b, x, nu, l - 1), Pow2(nu - l), nu)
  }

  /** The bit-reversed order. */
  function Permuted<T>(x: seq<T>, nu: nat): (y: seq<T>)
    requires |x| == Pow2(nu)
    ensures |y| == |x|
  {
    seq(|x|, k requires 0 <= k < |x| => x[BitRev(k, nu)])
  }

  /** The permutation undoes itself and loses nothing. */
  lemma PermutedTwice<T>(x: seq<T>, nu: nat)
    requires |x| == Pow2(nu)
    ensures Permuted(Permuted(x, nu), nu) == x
    ensures forall k :: 0 <= k < |x| ==> x[k] in Permuted(x, nu)
  {
    forall k | 0 <= k < |x| ensures Permuted(Permuted(x, nu), nu)[k] == x[k] && x[k] in Permuted(x, nu) {
      BitRevTwice(k, nu);
      assert Permuted(x, nu)[BitRev(k, nu)] == x[k];
    }
  }

  /** What the swap loop has done when it is about to look at index `k`. */
  function SwappedBelow<T>(x: seq<T>, nu: nat, k: nat): (y: seq<T>)
    requires |x| == Pow2(nu)
    ensures |y| == |x|
  {
    seq(|x|, j requires 0 <= j < |x| => if j < k || BitRev(j, nu) < k then x[BitRev(j, nu)] else x[j])
  }

  /** One round of the loop swaps a pair the first time it meets it, and never again. */
  lemma SwapStep<T>(x: seq<T>, nu: nat, k: nat)
    requires |x| == Pow2(nu) && k < |x|
    ensures var p, y := BitRev(k, nu), SwappedBelow(x, nu, k);
      SwappedBelow(x, nu, k + 1) == if p > k then y[k := y[p]][p := y[k]] else y
  {
    var p := BitRev(k, nu);
    BitRevTwice(k, nu);
    forall j | 0 <= j < |x| ensures BitRev(j, nu) == k <==> j == p {
      BitRevTwice(j, nu);
    }
  }

  lemma SwappedAll<T>(x: seq<T>, nu: nat)
    requires |x| == Pow2(nu)
    ensures SwappedBelow(x, nu, 0) == x && SwappedBelow(x, nu, |x|) == Permuted(x, nu)
  {
  }

  // ---- One stage, butterfly by butterfly ----

  /** The lower index of the pair that `j` belongs to. */
  function Lower(j: nat, d: nat): int
    requires d > 0
  {
    if Low(j, d) then j else j - d
  }

  /** `y` is `x` with the butterflies done whose lower index is below `k`. */
  ghost predicate Mixed<T>(b: Butterfly<T>, x: seq<T>, y: seq<T>, d: nat, nu: nat, k: int)
    requires Pairs(|x|, d)
  {
    |y| == |x| && forall j: nat {:trigger Lower(j, d)} :: j < |x| ==>
      y[j] == if Lower(j, d) < k then StageAt(b, x, d, nu, j) else x[j]
  }

  /** The pair that starts at the `t`-th sample of block `q`. */
  lemma InBlock(q: nat, t: nat, d: nat)
    requires d > 0 && t < d
    ensures var k := q * (2 * d) + t;
      && k / d == 2 * q && Low(k, d) && !Low(k + d, d)
      && Partner(k, d) == k + d && Partner(k + d, d) == k && Lower(k, d) == k && Lower(k + d, d) == k
  {
    var k := q * (2 * d) + t;
    assert q * (2 * d) == (2 * q) * d;
    ModUnique(k, d, 2 * q, t);
    DivStep(k, d);
    EvenBlock(k, d, q);
  }

  lemma EvenBlock(k: nat, d: nat, q: nat)
    requires d > 0 && k / d == 2 * q && (k + d) / d == 2 * q + 1
    ensures Low(k, d) && !Low(k + d, d)
    ensures Partner(k, d) == k + d && Partner(k + d, d) == k && Lower(k, d) == k && Lower(k + d, d) == k
  {
    assert 2 * q % 2 == 0 && (2 * q + 1) % 2 == 1;
  }

  /** No pair starts in the upper half of a block. */
  lemma UpperHalf(q: nat, d: nat, j: nat)
    requires d > 0
    ensures Lower(j, d) < q * (2 * d) + d <==> Lower(j, d) < (q + 1) * (2 * d)
  {
    MulDistrib(q, 1, 2 * d);
    var l := Lower(j, d);
    LowerIsLow(j, d);
    if q * (2 * d) + d <= l < (q + 1) * (2 * d) {
      assert q * (2 * d) == (2 * q) * d;
      MulDistrib(2 * q, 1, d);
      ModUnique(l, d, 2 * q + 1, l - (2 * q * d + d));
    }
  }

  lemma LowerIsLow(j: nat, d: nat)
    requires d > 0
    ensures 0 <= Lower(j, d) && Low(Lower(j, d), d)
  {
    DivStep(j, d);
  }

  /** One butterfly brings the mixture one lower index further. */
  lemma MixStep<T>(b: Butterfly<T>, x: seq<T>, y: seq<T>, d: nat, nu: nat, q: nat, t: nat)
    requires Pairs(|x|, d) && t < d && q * (2 * d) + t + d < |x|
    requires Mixed(b, x, y, d, nu, q * (2 * d) + t)
    ensures var k := q * (2 * d) + t; var r := b(BitRev(2 * q, nu), y[k], y[k + d]);
      Mixed(b, x, y[k := r.0][k + d := r.1], d, nu, k + 1)
  {
    var k := q * (2 * d) + t;
    InBlock(q, t, d);
    var r := b(BitRev(2 * q, nu), y[k], y[k + d]);
    var z := y[k := r.0][k + d := r.1];
    assert y[k] == x[k] && y[k + d] == x[k + d];
    forall j: nat {:trigger Lower(j, d)} | j < |x|
      ensures z[j] == if Lower(j, d) < k + 1 then StageAt(b, x, d, nu, j) else x[j]
    {
      if Lower(j, d) == k {
        OnlyPair(j, k, d);
      }
    }
  }

  lemma OnlyPair(j: nat, k: nat, d: nat)
    requires d > 0 && Low(k, d) && Lower(j, d) == k
    ensures j == k || j == k + d
  {
  }

  lemma MixedAll<T>(b: Butterfly<T>, x: seq<T>, y: seq<T>, d: nat, nu: nat)
    requires Pairs(|x|, d) && Mixed(b, x, y, d, nu, |x|)
    ensures y == Stage(b, x, d, nu)
  {
    forall k: nat | k < |x| ensures y[k] == Stage(b, x, d, nu)[k] {
      assert Lower(k, d) <= k;
    }
  }

  lemma MixedNone<T>(b: Butterfly<T>, x: seq<T>, d: nat, nu: nat)
    requires Pairs(|x|, d)
    ensures Mixed(b, x, x, d, nu, 0)
  {
  }
}
