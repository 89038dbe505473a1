/** max_imax of os/lib/trickle-timer.c: how often an interval can be doubled before it no
    longer fits the clock, by counting leading zeros, and the checks of trickle-timer.h
    that it serves. `w` is the width of clock_time_t. */
module MaxImax {
  import opened Modular

  predicate IsWidth(w: nat) {
    w == 16 || w == 32
  }

  /** A clock value shifted left, in `w` bits. */
  function Shl(x: nat, i: nat, w: nat): nat {
    x * Pow2(i) % Pow2(w)
  }

  /** A clock value shifted right. */
  function Shr(x: nat, i: nat): nat {
    DivNat(x, Pow2(i));
    x / Pow2(i)
  }

  /** TRICKLE_TIMER_CLOCK_MAX. */
  function ClockMax(w: nat): nat {
    Pow2(w) - 1
  }

  /** TRICKLE_TIMER_IMIN_IS_BAD. */
  predicate IminIsBad(i_min: nat, w: nat) {
    i_min < 2 || i_min > Shr(ClockMax(w), 1)
  }

  /** A machine's shift of a value by a count. */
  type Shifter = (nat, nat) -> nat

  /** C defines shifts of a clock value by less than `p`, the width of its promoted type, and
      leaves open what the machine does with larger counts. */
  ghost predicate Shifts(shl: Shifter, shr: Shifter, w: nat, p: nat) {
    w <= p && forall x: nat, i: nat :: i < p ==> shl(x, i) == Shl(x, i, w) && shr(x, i) == Shr(x, i)
  }

  /** TRICKLE_TIMER_IPAIR_IS_BAD. */
  predicate IpairIsBad(i_min: nat, i_max: nat, w: nat, shr: Shifter) {
    shr(ClockMax(w), i_max + 1) < i_min - 1
  }

  lemma Pow2Mono(a: nat, b: nat)
    requires a <= b
    ensures Pow2(a) <= Pow2(b)
  {
  }

  lemma MulMono(a: nat, b: nat, c: nat)
    requires a <= b
    ensures a * c <= b * c
  {
  }

  lemma MulStrict(a: nat, b: nat, c: nat)
    requires a < b && c > 0
    ensures a * c < b * c
  {
  }

  /** Testing the top `i` of `i + j` bits. */
  lemma {:induction false} AndHigh(x: nat, i: nat, j: nat)
    requires x < Pow2(i + j)
    ensures Pow2(i + j) >= Pow2(j)
    ensures And(x, Pow2(i + j) - Pow2(j)) == 0 <==> x < Pow2(j)
    decreases j
  {
    Pow2Mono(j, i + j);
    if j == 0 {
      AndMask(x, i);
      ModSmall(x, Pow2(i));
    } else {
      AndHigh(x / 2, i, j - 1);
      AndStep(x, Pow2(i + j - 1) - Pow2(j - 1));
      HalfBelow(x, Pow2(j - 1));
    }
  }

  lemma HalfBelow(x: nat, p: nat)
    ensures x / 2 < p <==> x < 2 * p
  {
  }

  /** The mask with the top `i` of `w` bits set. */
  function HighMask(w: nat, i: nat): nat
    requires i <= w
  {
    Pow2Mono(w - i, w);
    Pow2(w) - Pow2(w - i)
  }

  /** `v` with `z` zeros appended. */
  ghost function Scaled(v: nat, z: nat): nat {
    v * Pow2(z)
  }

  /** What the counting steps keep: `value` is `v` shifted left by `zeros` with nothing
      lost, and fewer than `left` leading zeros remain. */
  ghost predicate Counting(v: nat, w: nat, value: nat, zeros: nat, left: nat) {
    && zeros + left <= w && value == Scaled(v, zeros) && Pow2(w - left) <= value < Pow2(w)
  }

  /** Shifting by `i` loses nothing when the top `i` bits are clear. */
  lemma ShiftFits(value: nat, w: nat, i: nat)
    requires i <= w && value < Pow2(w - i)
    ensures Shl(value, i, w) == value * Pow2(i) < Pow2(w)
  {
    Pow2Sum(w - i, i);
    MulStrict(value, Pow2(w - i), Pow2(i));
    ModSmall(value * Pow2(i), Pow2(w));
  }

  lemma ShiftRaises(value: nat, w: nat, i: nat)
    requires 2 * i <= w && Pow2(w - 2 * i) <= value
    ensures Pow2(w - i) <= value * Pow2(i)
  {
    Pow2Sum(w - 2 * i, i);
    MulMono(Pow2(w - 2 * i), value, Pow2(i));
  }

  lemma ShiftTwice(v: nat, a: nat, b: nat)
    ensures Scaled(v, a) * Pow2(b) == Scaled(v, a + b)
  {
    Pow2Sum(a, b);
    MulAssoc(v, Pow2(a), Pow2(b));
  }

  lemma MulAssoc(x: nat, y: nat, z: nat)
    ensures x * y * z == x * (y * z)
  {
  }

  /** What one test does to the count. */
  lemma CountStep(v: nat, w: nat, value: nat, zeros: nat, i: nat)
    requires Counting(v, w, value, zeros, 2 * i)
    ensures if And(value, HighMask(w, i)) == 0
      then Counting(v, w, Shl(value, i, w), zeros + i, i)
      else Counting(v, w, value, zeros, i)
  {
    AndHigh(value, i, w - i);
    if value < Pow2(w - i) {
      ShiftFits(value, w, i);
      ShiftRaises(value, w, i);
      ShiftTwice(v, zeros, i);
    }
  }

  lemma Powers()
    ensures Pow2(0) == 1 && Pow2(1) == 2 && Pow2(2) == 4 && Pow2(4) == 16 && Pow2(8) == 256
    ensures Pow2(14) == 0x4000 && Pow2(15) == 0x8000 && Pow2(16) == 0x1_0000
    ensures Pow2(12) == 0x1000 && Pow2(24) == 0x100_0000 && Pow2(28) == 0x1000_0000
    ensures Pow2(30) == 0x4000_0000 && Pow2(31) == 0x8000_0000 && Pow2(32) == 0x1_0000_0000
  {
  }

  lemma MulOne(x: nat)
    ensures x * Pow2(0) == x
  {
  }

  /** mask <<= i turns the mask of the top 2i bits into that of the top i bits. */
  lemma MaskShift(w: nat, i: nat)
    requires 2 * i <= w
    ensures Shl(HighMask(w, 2 * i), i, w) == HighMask(w, i)
  {
    var p, q := Pow2(w), Pow2(i);
    Pow2Sum(w - 2 * i, i);
    MulDistrib(p, Pow2(w - 2 * i), q);
    Pow2Mono(w - i, w);
    MulDistrib(q, 1, p);
    assert HighMask(w, 2 * i) * q == (q - 1) * p + HighMask(w, i);
    ModUnique(HighMask(w, 2 * i) * q, p, q - 1, HighMask(w, i));
  }

  /** `z` is the number of leading zeros of `v` in `w` bits, `v` not zero. */
  ghost predicate LeadingZeros(v: nat, w: nat, z: nat) {
    Counting(v, w, Scaled(v, z), z, 1)
  }

  /** The shift counts of the loop, and the zeros it has still not ruled out. */
  predicate Halving(w: nat, i: nat) {
    i <= w && (i == 0 || i == 1 || i == 2 || i == 4 || i == 8 || i == 16)
  }

  function Left(i: nat): nat {
    if i == 0 then 1 else 2 * i
  }

  /** What the loop keeps: the next mask covers the top `i` bits. */
  ghost predicate Searching(v: nat, w: nat, value: nat, zeros: nat, mask: nat, i: nat) {
    && Halving(w, i) && Counting(v, w, value, zeros, Left(i))
    && (i > 0 ==> Shl(mask, i, w) == HighMask(w, i))
  }

  lemma SearchStarts(v: nat, w: nat)
    requires IsWidth(w) && 1 <= v < Pow2(w)
    ensures Searching(v, w, v, 0, 0xFFFF, w / 8 * 4)
  {
    Powers();
    MulOne(v);
    assert Left(w / 8 * 4) == w;
  }

  lemma NextMask(w: nat, i: nat)
    requires Halving(w, i) && i > 0
    ensures Halving(w, i / 2) && Left(i / 2) == i
    ensures i / 2 > 0 ==> Shl(HighMask(w, i), i / 2, w) == HighMask(w, i / 2)
  {
    if i / 2 > 0 { MaskShift(w, i / 2); }
  }

  lemma CountedAll(v: nat, w: nat, value: nat, zeros: nat)
    requires w > 0 && 2 <= v < Pow2(w - 1) && Counting(v - 1, w, value, zeros, 1)
    ensures zeros > 0 && LeadingZeros(v - 1, w, zeros)
  {
    MulOne(v - 1);
  }

  /** One of the tests: if the top `i` bits are clear, shift them out. */
  method ShiftIfClear(w: nat, mask: nat, i: nat, value: nat, zeros: nat, ghost v: nat)
    returns (value': nat, zeros': nat)
    requires Counting(v, w, value, zeros, 2 * i) && mask == HighMask(w, i)
    ensures Counting(v, w, value', zeros', i)
  {
    CountStep(v, w, value, zeros, i);
    value', zeros' := value, zeros;
    if And(value, mask) == 0 { value', zeros' := Shl(value, i, w), zeros + i; }
  }

  /** max_imax as built by default: it counts the leading zeros of value - 1. */
  method MaxImaxGeneric(w: nat, value0: nat) returns (r: nat)
    requires IsWidth(w) && !IminIsBad(value0, w)
    ensures value0 * Pow2(r) <= Pow2(w - 1) < value0 * Pow2(r + 1)
  {
    ImaxRange(w, value0);
    SearchStarts(value0 - 1, w);
    var zeros: nat, mask: nat, value: nat := 0, 0xFFFF, value0 - 1;
    var i: nat := w / 8 * 4;
    while i > 0
      invariant Searching(value0 - 1, w, value, zeros, mask, i)
    {
      mask := Shl(mask, i, w);
      value, zeros := ShiftIfClear(w, mask, i, value, zeros, value0 - 1);
      NextMask(w, i);
      i := i / 2;
    }
    CountedAll(value0, w, value, zeros);
    r := zeros - 1;
    GenericBound(value0, w, r);
  }

  lemma ImaxRange(w: nat, v: nat)
    requires IsWidth(w) && !IminIsBad(v, w)
    ensures 2 <= v < Pow2(w - 1) <= Pow2(w)
  {
    Powers();
  }

  lemma GenericBound(v: nat, w: nat, r: nat)
    requires IsWidth(w) && 2 <= v < Pow2(w - 1) && LeadingZeros(v - 1, w, r + 1)
    ensures v * Pow2(r) <= Pow2(w - 1) < v * Pow2(r + 1)
  {
    StaysBelow(v, w, r + 1);
    MulStrict(v - 1, v, Pow2(r + 1));
    HalveBoth(v, w, r + 1);
  }

  /** If v - 1, shifted, stays below 2^w, then v, shifted, does not exceed it. */
  lemma StaysBelow(v: nat, w: nat, z: nat)
    requires v > 0 && z <= w && (v - 1) * Pow2(z) < Pow2(w)
    ensures v * Pow2(z) <= Pow2(w)
  {
    Pow2Sum(w - z, z);
    if v - 1 >= Pow2(w - z) { MulMono(Pow2(w - z), v - 1, Pow2(z)); }
    MulMono(v, Pow2(w - z), Pow2(z));
  }

  lemma HalveBoth(v: nat, w: nat, z: nat)
    requires w > 0 && z > 0
    ensures Pow2(w) == 2 * Pow2(w - 1) && v * Pow2(z) == 2 * (v * Pow2(z - 1))
  {
  }

  /** The 16-bit variant: it counts the leading zeros of value itself. */
  method MaxImax16(value0: nat) returns (r: nat)
    requires !IminIsBad(value0, 16)
    ensures value0 * Pow2(r) < Pow2(15) <= value0 * Pow2(r + 1)
  {
    Powers();
    MulOne(value0);
    var value, zeros := ShiftIfClear(16, 0xFF00, 8, value0, 0, value0);
    value, zeros := ShiftIfClear(16, 0xF000, 4, value, zeros, value0);
    value, zeros := ShiftIfClear(16, 0xC000, 2, value, zeros, value0);
    value, zeros := ShiftIfClear(16, 0x8000, 1, value, zeros, value0);
    FixedBound(value0, 16, zeros);
    r := zeros - 1;
  }

  /** The 32-bit variant. */
  method MaxImax32(value0: nat) returns (r: nat)
    requires !IminIsBad(value0, 32)
    ensures value0 * Pow2(r) < Pow2(31) <= value0 * Pow2(r + 1)
  {
    Powers();
    MulOne(value0);
    var value, zeros := ShiftIfClear(32, 0xFFFF0000, 16, value0, 0, value0);
    value, zeros := ShiftIfClear(32, 0xFF000000, 8, value, zeros, value0);
    value, zeros := ShiftIfClear(32, 0xF0000000, 4, value, zeros, value0);
    value, zeros := ShiftIfClear(32, 0xC0000000, 2, value, zeros, value0);
    value, zeros := ShiftIfClear(32, 0x80000000, 1, value, zeros, value0);
    FixedBound(value0, 32, zeros);
    r := zeros - 1;
  }

  lemma FixedBound(v: nat, w: nat, z: nat)
    requires IsWidth(w) && 2 <= v < Pow2(w - 1) && LeadingZeros(v, w, z)
    ensures z > 0 && v * Pow2(z - 1) < Pow2(w - 1) <= v * Pow2(z)
  {
    MulOne(v);
    assert z > 0;
    HalveBoth(v, w, z);
  }

  /** Larger shifts give larger products. */
  lemma ShiftMono(v: nat, a: nat, b: nat)
    requires a <= b
    ensures v * Pow2(a) <= v * Pow2(b)
  {
  }

  /** The fixed-width variants answer what the generic one answers, or one less; and one
      less exactly when Imin is a power of two. */
  lemma VariantsAgree(v: nat, w: nat, g: nat, f: nat)
    requires IsWidth(w) && 2 <= v
    requires v * Pow2(g) <= Pow2(w - 1) < v * Pow2(g + 1)
    requires v * Pow2(f) < Pow2(w - 1) <= v * Pow2(f + 1)
    ensures f == g || f + 1 == g
    ensures f + 1 == g <==> exists j :: v == Pow2(j)
  {
    if g < f { ShiftMono(v, g + 1, f); }
    AtMostOneApart(v, w, g, f);
    if f + 1 == g {
      PowerDivides(v, g, w - 1);
    } else if exists j :: v == Pow2(j) {
      var j :| v == Pow2(j);
      PowerHits(j, g, w);
    }
  }

  lemma AtMostOneApart(v: nat, w: nat, g: nat, f: nat)
    requires w > 0 && v * Pow2(g) <= Pow2(w - 1) <= v * Pow2(f + 1)
    ensures g <= f + 1
  {
    if f + 1 < g {
      ShiftMono(v, f + 1, g - 1);
      HalveBoth(v, w, g);
    }
  }

  /** A power of two shifted as far as it fits ends at the bound itself. */
  lemma PowerHits(j: nat, g: nat, w: nat)
    requires w > 0 && Pow2(j) * Pow2(g) <= Pow2(w - 1) < Pow2(j) * Pow2(g + 1)
    ensures Pow2(j) * Pow2(g) == Pow2(w - 1)
  {
    Pow2Sum(j, g);
    Pow2Sum(j, g + 1);
    if j + g < w - 1 { Pow2Mono(j + g + 1, w - 1); } else if j + g > w - 1 { Pow2Strict(w - 1, j + g); }
  }

  lemma Pow2Strict(a: nat, b: nat)
    requires a < b
    ensures Pow2(a) < Pow2(b)
  {
  }

  /** What a power of two divides into a power of two is a power of two. */
  lemma PowerDivides(v: nat, g: nat, n: nat)
    requires v > 0 && v * Pow2(g) == Pow2(n)
    ensures exists j :: v == Pow2(j)
  {
  }

  lemma HalfClock(i_min: nat, i_max: nat, w: nat)
    requires IsWidth(w) && i_min >= 2
    ensures Shr(ClockMax(w), i_max + 1) < i_min - 1 <==> i_min * Pow2(i_max) > Pow2(w - 1)
  {
    Powers();
    var d := Pow2(i_max + 1);
    if i_max >= w {
      Pow2Strict(w, i_max + 1);
      ModUnique(ClockMax(w), d, 0, ClockMax(w));
      Pow2Mono(w, i_max);
      MulAtLeast(i_min, Pow2(i_max));
    } else {
      var q := Pow2(w - 1 - i_max);
      Pow2Sum(w - 1 - i_max, i_max + 1);
      Pow2Sum(w - 1 - i_max, i_max);
      MulDistrib(q, 1, d);
      ModUnique(ClockMax(w), d, q - 1, d - 1);
      if i_min <= q { MulMono(i_min, q, Pow2(i_max)); } else { MulStrict(q, i_min, Pow2(i_max)); }
    }
  }

  /** TRICKLE_TIMER_IPAIR_IS_BAD says exactly that Imin << Imax exceeds half the clock,
      wherever C defines the shift. */
  lemma IpairExact(i_min: nat, i_max: nat, w: nat, shl: Shifter, shr: Shifter, p: nat)
    requires IsWidth(w) && i_min >= 2 && Shifts(shl, shr, w, p) && i_max + 1 < p
    ensures IpairIsBad(i_min, i_max, w, shr) <==> i_min * Pow2(i_max) > Pow2(w - 1)
  {
    HalfClock(i_min, i_max, w);
  }

  // ---- A machine that masks the count of a 32-bit shift ----

  function MaskedShl(x: nat, i: nat): nat {
    Shl(x, i % 32, 32)
  }

  function MaskedShr(x: nat, i: nat): nat {
    Shr(x, i % 32)
  }

  lemma MaskedShifts()
    ensures Shifts(MaskedShl, MaskedShr, 32, 32)
  {
    forall x: nat, i: nat | i < 32 ensures MaskedShl(x, i) == Shl(x, i, 32) && MaskedShr(x, i) == Shr(x, i) {
      ModSmall(i, 32);
    }
  }

  /** There the check is right for every Imin exactly if the count is one that C defines. */
  lemma MaskedPairExactly(i_max: nat)
    ensures (forall i_min: nat :: i_min >= 2 ==>
        (IpairIsBad(i_min, i_max, 32, MaskedShr) <==> i_min * Pow2(i_max) > Pow2(31)))
      <==> i_max + 1 < 32
  {
    if i_max + 1 < 32 {
      MaskedShifts();
      forall i_min: nat | i_min >= 2
        ensures IpairIsBad(i_min, i_max, 32, MaskedShr) <==> i_min * Pow2(i_max) > Pow2(31)
      {
        IpairExact(i_min, i_max, 32, MaskedShl, MaskedShr, 32);
      }
    } else {
      MaskedPairWrong(i_max);
    }
  }

  /** An Imin of 2 passes the check whatever the Imax. */
  lemma MaskedPairWrong(i_max: nat)
    requires i_max >= 31
    ensures !IpairIsBad(2, i_max, 32, MaskedShr) && 2 * Pow2(i_max) > Pow2(31)
  {
    Powers();
    Pow2Mono(31, i_max);
    var c := (i_max + 1) % 32;
    Pow2Mono(c, 31);
    assert ClockMax(32) >= Pow2(c);
    AtLeastOne(ClockMax(32), Pow2(c));
  }

  lemma AtLeastOne(x: nat, d: nat)
    requires 0 < d <= x
    ensures x / d >= 1
  {
    assert x == x / d * d + x % d;
    DivNat(x, d);
  }

  /** Such a pair is stored with the largest interval 0. */
  lemma MaskedPairStored()
    ensures !IpairIsBad(2, 31, 32, MaskedShr) && MaskedShl(2, 31) == 0
  {
    MaskedPairWrong(31);
    assert Pow2(32) == 2 * Pow2(31);
    ModUnique(2 * Pow2(31), Pow2(32), 1, 0);
    ModSmall(31, 32);
  }
}
