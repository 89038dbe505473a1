/** The in-place integer FFT over two arrays. The arithmetic of one butterfly is a parameter. */
module Ifft {
  import opened Basics
  import opened IfftModel
  import opened Modular

  /** What the loop makes of `k` and the `left` bits of `rest` still to be read. */
  ghost function Read(k: nat, rest: nat, left: nat): nat
    decreases left
  {
    if left == 0 then k else Read(2 * k + rest % 2, rest / 2, left - 1)
  }

  method Bitrev(j: nat, nu: nat) returns (k: nat)
    requires nu <= 16
    ensures k == BitRev(j, nu)
  {
    ReadRev(0, j, nu);
    k := 0;
    var rest: nat, left: nat := j, nu;
    while left > 0
      invariant Read(k, rest, left) == BitRev(j, nu)
    {
      k := 2 * k + rest % 2;
      rest := rest / 2;
      left := left - 1;
    }
  }

  /** The bits already read, followed by the reverse of the others. */
  lemma {:induction false} ReadRev(k: nat, rest: nat, left: nat)
    ensures Read(k, rest, left) == k * Pow2(left) + BitRev(rest, left)
    decreases left
  {
    if left > 0 {
      ReadRev(2 * k + rest % 2, rest / 2, left - 1);
      RevStep(k, rest % 2, Pow2(left - 1));
    }
  }

  lemma RevStep(k: nat, b: nat, p: nat)
    requires b < 2
    ensures (2 * k + b) * p == k * (2 * p) + Top(b == 1, p)
  {
    MulDistrib(2 * k, b, p);
    MulDouble(k, p);
    assert b == 0 || b == 1;
  }

  method Ilog2(val: nat) returns (log: nat)
    ensures val > 0 ==> Pow2(log) <= val < Pow2(log + 1)
    ensures val == 0 ==> log == 0
  {
    log := 0;
    var v := val / 2;
    while v > 0
      invariant v * Pow2(log + 1) <= val < (v + 1) * Pow2(log + 1) || val == 0
      invariant val == 0 ==> v == 0 && log == 0
      invariant val > 0 ==> Pow2(log) <= val
      decreases v
    {
      HalfBounds(v, Pow2(log + 1), val);
      v := v / 2;
      log := log + 1;
    }
  }

  lemma HalfBounds(v: nat, p: nat, val: nat)
    requires v > 0 && v * p <= val < (v + 1) * p
    ensures v / 2 * (2 * p) <= val < (v / 2 + 1) * (2 * p) && p <= val
  {
    var h := v / 2;
    assert h * (2 * p) == (2 * h) * p && (h + 1) * (2 * p) == (2 * h + 2) * p;
    assert p > 0 by {
      MulDistrib(v, 1, p);
    }
    MulOrder(2 * h, v, p);
    MulOrder(v + 1, 2 * h + 2, p);
    MulOrder(1, v, p);
  }

  lemma {:induction false} PowOrder(a: nat, b: nat)
    ensures a < b ==> Pow2(a + 1) <= Pow2(b)
    decreases b
  {
    if a + 1 < b {
      PowOrder(a, b - 1);
    }
  }

  /** For a power of two, ilog2 is the exponent. */
  lemma LogExact(log: nat, nu: nat)
    requires Pow2(log) <= Pow2(nu) < Pow2(log + 1)
    ensures log == nu
  {
    PowOrder(log, nu);
    PowOrder(nu, log);
  }

  function Points(re: seq<int16>, im: seq<int16>): (x: seq<Point>)
    requires |re| == |im|
    ensures |x| == |re|
  {
    seq(|re|, k requires 0 <= k < |re| => Point(re[k], im[k]))
  }

  method ClearIm(xim: array<int16>)
    modifies xim
    ensures xim[..] == seq(xim.Length, _ => 0)
  {
    var i := 0;
    while i < xim.Length
      invariant 0 <= i <= xim.Length && forall k :: 0 <= k < i ==> xim[k] == 0
    {
      xim[i] := 0;
      i := i + 1;
    }
  }

  /** One butterfly in place. */
  method Combine(xre: array<int16>, xim: array<int16>, b: Butterfly<Point>, p: nat, k: nat, d: nat)
    requires xre != xim && xre.Length == xim.Length && d > 0 && k + d < xre.Length
    modifies xre, xim
    ensures var x := old(Points(xre[..], xim[..])); var r := b(p, x[k], x[k + d]);
      Points(xre[..], xim[..]) == x[k := r.0][k + d := r.1]
  {
    var r := b(p, Point(xre[k], xim[k]), Point(xre[k + d], xim[k + d]));
    xre[k + d] := r.1.re;
    xim[k + d] := r.1.im;
    xre[k] := r.0.re;
    xim[k] := r.0.im;
  }

  /** The half-block loop: `d` butterflies whose lower indices are consecutive. */
  method HalfBlock(xre: array<int16>, xim: array<int16>, b: Butterfly<Point>, d: nat, nu1: nat, nu: nat, start: nat,
      ghost x: seq<Point>, ghost q: nat)
    returns (k: nat)
    requires xre != xim && xre.Length == xim.Length == |x| && nu <= 16 && d == Pow2(nu1) && Pairs(|x|, d)
    requires start == q * (2 * d) && start + 2 * d <= |x|
    requires Mixed(b, x, Points(xre[..], xim[..]), d, nu, start)
    modifies xre, xim
    ensures k == start + d && Mixed(b, x, Points(xre[..], xim[..]), d, nu, k)
  {
    k := start;
    var i := 1;
    while i <= d
      invariant 1 <= i <= d + 1 && k == start + (i - 1)
      invariant Mixed(b, x, Points(xre[..], xim[..]), d, nu, k)
    {
      InBlock(q, i - 1, d);
      MixStep(b, x, Points(xre[..], xim[..]), d, nu, q, i - 1);
      var p := Bitrev(k / Pow2(nu1), nu);
      Combine(xre, xim, b, p, k, d);
      k := k + 1;
      i := i + 1;
    }
  }

  /** `k` is where block `q` of the `m` blocks that make up `n` samples begins. */
  ghost predicate BlockStart(k: nat, q: nat, m: nat, d: nat, n: nat) {
    n == m * (2 * d) && q <= m && k == q * (2 * d)
  }

  /** All pairs at distance `d`, one after the other, are the stage done at once. */
  method StageLoop(xre: array<int16>, xim: array<int16>, b: Butterfly<Point>, d: nat, nu1: nat, nu: nat)
    requires xre != xim && xre.Length == xim.Length == Pow2(nu) && nu <= 16 && nu1 < nu && d == Pow2(nu1)
    requires Pairs(xre.Length, d)
    modifies xre, xim
    ensures Points(xre[..], xim[..]) == Stage(b, old(Points(xre[..], xim[..])), d, nu)
  {
    ghost var x := Points(xre[..], xim[..]);
    ghost var m := Pow2(nu - nu1 - 1);
    FirstBlock(nu, nu1);
    MixedNone(b, x, d, nu);
    var k: nat := 0;
    ghost var q: nat := 0;
    while k < xre.Length
      invariant BlockStart(k, q, m, d, xre.Length) && Mixed(b, x, Points(xre[..], xim[..]), d, nu, k)
      decreases m - q
    {
      NextBlock(k, q, m, d, xre.Length);
      k := HalfBlock(xre, xim, b, d, nu1, nu, k, x, q);
      MixedBlock(b, x, Points(xre[..], xim[..]), d, nu, q, k - d);
      k := k + d;
      q := q + 1;
    }
    LastBlock(k, q, m, d, xre.Length);
    MixedAll(b, x, Points(xre[..], xim[..]), d, nu);
  }

  /** A finished lower half is a finished block. */
  lemma MixedBlock(b: Butterfly<Point>, x: seq<Point>, y: seq<Point>, d: nat, nu: nat, q: nat, k: nat)
    requires Pairs(|x|, d) && k == q * (2 * d) && Mixed(b, x, y, d, nu, k + d)
    ensures Mixed(b, x, y, d, nu, k + d + d)
  {
    MulDistrib(q, 1, 2 * d);
    forall j: nat {:trigger Lower(j, d)} | j < |x|
      ensures Lower(j, d) < k + d <==> Lower(j, d) < k + d + d
    {
      UpperHalf(q, d, j);
    }
  }

  lemma FirstBlock(nu: nat, nu1: nat)
    requires nu1 < nu
    ensures BlockStart(0, 0, Pow2(nu - nu1 - 1), Pow2(nu1), Pow2(nu))
  {
    Pow2Sum(nu - nu1 - 1, nu1 + 1);
  }

  lemma NextBlock(k: nat, q: nat, m: nat, d: nat, n: nat)
    requires d > 0 && BlockStart(k, q, m, d, n) && k < n
    ensures q < m && k == q * (2 * d) && k + 2 * d <= n && BlockStart(k + d + d, q + 1, m, d, n)
  {
    MulOrder(m, q, 2 * d);
    MulOrder(q + 1, m, 2 * d);
    MulDistrib(q, 1, 2 * d);
  }

  lemma LastBlock(k: nat, q: nat, m: nat, d: nat, n: nat)
    requires d > 0 && BlockStart(k, q, m, d, n) && k >= n
    ensures k == n
  {
    if q < m { MulOrder(q + 1, m, 2 * d); MulDistrib(q, 1, 2 * d); }
  }

  /** n2 is unsigned, the samples are signed: a swap goes through both casts. */
  function ToUnsigned(x: int16): nat {
    if x < 0 then x + HALF_WORD else x
  }

  function ToSigned(u: nat): int16
    requires u < HALF_WORD
  {
    if u >= 0x8000 then u - HALF_WORD else u
  }

  method Swap(a: array<int16>, k: nat, p: nat)
    requires k < a.Length && p < a.Length && k != p
    modifies a
    ensures a[..] == old(a[..])[k := old(a[p])][p := old(a[k])]
  {
    var n2 := ToUnsigned(a[k]);
    a[k] := a[p];
    a[p] := ToSigned(n2);
  }

  /** The swap loop puts both arrays in bit-reversed order. */
  method SwapLoop(xre: array<int16>, xim: array<int16>, nu: nat)
    requires xre != xim && xre.Length == xim.Length == Pow2(nu) && nu <= 16
    modifies xre, xim
    ensures xre[..] == Permuted(old(xre[..]), nu) && xim[..] == Permuted(old(xim[..]), nu)
  {
    ghost var re, im := xre[..], xim[..];
    SwappedAll(re, nu);
    SwappedAll(im, nu);
    var k := 0;
    while k < xre.Length
      invariant 0 <= k <= xre.Length
      invariant xre[..] == SwappedBelow(re, nu, k) && xim[..] == SwappedBelow(im, nu, k)
    {
      SwapStep(re, nu, k);
      SwapStep(im, nu, k);
      var p := Bitrev(k, nu);
      if p > k {
        Swap(xre, k, p);
        Swap(xim, k, p);
      }
      k := k + 1;
    }
  }

  function Abs(x: int): int {
    if x < 0 then -x else x
  }

  /** C's conversion of an int to int16_t. */
  function Wrap16(x: int): int16 {
    (x + 0x8000) % HALF_WORD - 0x8000
  }

  function Magnitudes(re: seq<int16>, im: seq<int16>): (r: seq<int16>)
    requires |re| == |im|
    ensures |r| == |re|
  {
    seq(|re|, k requires 0 <= k < |re| => if k < |re| / 2 then Wrap16(Abs(re[k]) + Abs(im[k])) else re[k])
  }

  /** The lower half holds the sums of the two parts' sizes, exactly where these fit 16 bits,
      and the upper half is left as it is. */
  lemma MagnitudesExactly(re: seq<int16>, im: seq<int16>, k: nat)
    requires |re| == |im| && k < |re|
    ensures var r := Magnitudes(re, im);
      var x, y := Max(re[k], -(re[k] as int)), Max(im[k], -(im[k] as int));
      if k >= |re| / 2 then r[k] == re[k]
      else if x + y < 0x8000 then r[k] == x + y
      else r[k] == x + y - 0x1_0000
  {
  }

  method MagnitudeLoop(xre: array<int16>, xim: array<int16>)
    requires xre != xim && xre.Length == xim.Length
    modifies xre
    ensures xre[..] == Magnitudes(old(xre[..]), xim[..])
  {
    var i, n2 := 0, xre.Length / 2;
    while i < n2
      invariant 0 <= i <= n2 && xim[..] == old(xim[..])
      invariant forall k :: 0 <= k < xre.Length ==>
        xre[k] == if k < i then Wrap16(Abs(old(xre[k])) + Abs(xim[k])) else old(xre[k])
    {
      xre[i] := Wrap16(Abs(xre[i]) + Abs(xim[i]));
      i := i + 1;
    }
  }

  /** uint16_t minus one. */
  function Dec16(x: nat): nat {
    if x == 0 then HALF_WORD - 1 else x - 1
  }

  method AllStages(xre: array<int16>, xim: array<int16>, b: Butterfly<Point>, nu: nat)
    requires xre != xim && xre.Length == xim.Length == Pow2(nu) && nu <= 15
    modifies xre, xim
    ensures Points(xre[..], xim[..]) == Stages(b, old(Points(xre[..], xim[..])), nu, nu)
  {
    var nu1: nat, n2: nat, l: nat := Dec16(nu), xre.Length / 2, 1;
    ghost var x := Points(xre[..], xim[..]);
    FirstIndices(nu);
    while l <= nu
      invariant 1 <= l <= nu + 1 && StageIndices(nu, l, n2, nu1)
      invariant Points(xre[..], xim[..]) == Stages(b, x, nu, l - 1)
    {
      OneStage(xre, xim, b, nu, l, n2, nu1, x);
      NextIndices(nu, l, n2, nu1);
      nu1, n2, l := Dec16(nu1), n2 / 2, l + 1;
    }
  }

  ghost predicate StageIndices(nu: nat, l: nat, n2: nat, nu1: nat) {
    l <= nu ==> nu1 == nu - l && n2 == Pow2(nu - l)
  }

  method OneStage(xre: array<int16>, xim: array<int16>, b: Butterfly<Point>, nu: nat, ghost l: nat, n2: nat, nu1: nat,
      ghost x: seq<Point>)
    requires xre != xim && xre.Length == xim.Length == |x| == Pow2(nu) && nu <= 15
    requires 1 <= l <= nu && StageIndices(nu, l, n2, nu1) && Points(xre[..], xim[..]) == Stages(b, x, nu, l - 1)
    modifies xre, xim
    ensures Points(xre[..], xim[..]) == Stages(b, x, nu, l)
  {
    PowPairs(nu, nu - l);
    StageLoop(xre, xim, b, n2, nu1, nu);
  }

  lemma FirstIndices(nu: nat)
    ensures StageIndices(nu, 1, Pow2(nu) / 2, Dec16(nu))
  {
  }

  lemma NextIndices(nu: nat, l: nat, n2: nat, nu1: nat)
    requires l <= nu && StageIndices(nu, l, n2, nu1)
    ensures StageIndices(nu, l + 1, n2 / 2, Dec16(nu1))
  {
  }

  lemma PermutedPoints(re: seq<int16>, im: seq<int16>, nu: nat)
    requires |re| == |im| == Pow2(nu)
    ensures Points(Permuted(re, nu), Permuted(im, nu)) == Permuted(Points(re, im), nu)
  {
  }

  /** What the arrays hold after the stages, the swaps and the magnitudes. */
  function Transform(b: Butterfly<Point>, re: seq<int16>, nu: nat): (r: (seq<int16>, seq<int16>))
    requires |re| == Pow2(nu)
    ensures |r.0| == |r.1| == |re|
  {
    var y := Permuted(Stages(b, Points(re, seq(|re|, _ => 0)), nu, nu), nu);
    var re', im' := Res(y), Ims(y);
    (Magnitudes(re', im'), im')
  }

  function Res(y: seq<Point>): (r: seq<int16>)
    ensures |r| == |y|
  {
    seq(|y|, k requires 0 <= k < |y| => y[k].re)
  }

  function Ims(y: seq<Point>): (r: seq<int16>)
    ensures |r| == |y|
  {
    seq(|y|, k requires 0 <= k < |y| => y[k].im)
  }

  lemma PointsParts(re: seq<int16>, im: seq<int16>)
    requires |re| == |im|
    ensures Res(Points(re, im)) == re && Ims(Points(re, im)) == im
  {
  }

  /** The whole transform of `n` samples, `n` a power of two. */
  method Ifft(xre: array<int16>, xim: array<int16>, b: Butterfly<Point>, ghost nu: nat)
    requires xre != xim && xre.Length == xim.Length == Pow2(nu) && nu <= 15
    modifies xre, xim
    ensures (xre[..], xim[..]) == Transform(b, old(xre[..]), nu)
  {
    var log := Ilog2(xre.Length);
    LogExact(log, nu);
    ClearIm(xim);
    AllStages(xre, xim, b, log);
    PermutedPoints(xre[..], xim[..], nu);
    SwapLoop(xre, xim, log);
    PointsParts(xre[..], xim[..]);
    MagnitudeLoop(xre, xim);
  }
}
