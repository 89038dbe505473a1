/** Checksums that add each byte to a register and then step it, over any addition that is its
    own inverse and any step that is additive. */
module CrcTheory {

  ghost predicate Assoc<T>(plus: (T, T) -> T, x: T, y: T, z: T) {
    plus(plus(x, y), z) == plus(x, plus(y, z))
  }

  ghost predicate Commutes<T>(plus: (T, T) -> T, x: T, y: T) {
    plus(x, y) == plus(y, x)
  }

  ghost predicate Cancels<T>(plus: (T, T) -> T, zero: T, x: T) {
    plus(x, x) == zero && plus(x, zero) == x
  }

  ghost predicate XorLike<T(!new)>(plus: (T, T) -> T, zero: T) {
    && (forall x, y, z {:trigger Assoc(plus, x, y, z)} :: Assoc(plus, x, y, z))
    && (forall x, y {:trigger Commutes(plus, x, y)} :: Commutes(plus, x, y))
    && (forall x {:trigger Cancels(plus, zero, x)} :: Cancels(plus, zero, x))
  }

  ghost predicate Adds<T>(plus: (T, T) -> T, f: T -> T, x: T, y: T) {
    f(plus(x, y)) == plus(f(x), f(y))
  }

  ghost predicate Additive<T(!new)>(plus: (T, T) -> T, f: T -> T) {
    forall x, y {:trigger Adds(plus, f, x, y)} :: Adds(plus, f, x, y)
  }

  ghost predicate OnlyZeroToZero<T(!new)>(zero: T, f: T -> T) {
    forall x :: f(x) == zero <==> x == zero
  }

  function Iterate<T>(f: T -> T, x: T, k: nat): T
    decreases k
  {
    if k == 0 then x else Iterate(f, f(x), k - 1)
  }

  function Steps<T>(plus: (T, T) -> T, f: T -> T, acc: T, data: seq<T>): T
    decreases |data|
  {
    if data == [] then acc else Steps(plus, f, f(plus(acc, data[0])), data[1..])
  }

  function Sum<T>(plus: (T, T) -> T, a: seq<T>, b: seq<T>): (r: seq<T>)
    requires |a| == |b|
    ensures |r| == |a|
  {
    seq(|a|, i requires 0 <= i < |a| => plus(a[i], b[i]))
  }

  lemma {:induction false} IterateAdditive<T(!new)>(plus: (T, T) -> T, zero: T, f: T -> T, x: T, y: T, k: nat)
    requires Additive(plus, f) && OnlyZeroToZero(zero, f)
    ensures Iterate(f, plus(x, y), k) == plus(Iterate(f, x, k), Iterate(f, y, k))
    ensures Iterate(f, x, k) == zero <==> x == zero
    decreases k
  {
    if k > 0 {
      assert Adds(plus, f, x, y);
      IterateAdditive(plus, zero, f, f(x), f(y), k - 1);
    }
  }

  lemma Regroup<T(!new)>(plus: (T, T) -> T, zero: T, p: T, q: T, b: T, c: T)
    requires XorLike(plus, zero)
    ensures plus(plus(p, q), plus(b, c)) == plus(plus(p, b), plus(q, c))
  {
    assert Assoc(plus, p, q, plus(b, c)) && Assoc(plus, q, b, c) && Commutes(plus, q, b);
    assert Assoc(plus, b, q, c) && Assoc(plus, p, b, plus(q, c));
  }

  /** The checksum of a sum is the sum of the checksums, initial values included. */
  lemma {:induction false} StepsAdditive<T(!new)>(plus: (T, T) -> T, zero: T, f: T -> T, p: T, q: T,
                                                     a: seq<T>, b: seq<T>)
    requires XorLike(plus, zero) && Additive(plus, f) && |a| == |b|
    ensures Steps(plus, f, plus(p, q), Sum(plus, a, b)) == plus(Steps(plus, f, p, a), Steps(plus, f, q, b))
    decreases |a|
  {
    if a != [] {
      Regroup(plus, zero, p, q, a[0], b[0]);
      assert Adds(plus, f, plus(p, a[0]), plus(q, b[0]));
      StepsAdditive(plus, zero, f, f(plus(p, a[0])), f(plus(q, b[0])), a[1..], b[1..]);
      assert Sum(plus, a, b)[1..] == Sum(plus, a[1..], b[1..]);
    }
  }

  /** A message may be fed in pieces. */
  lemma {:induction false} StepsConcat<T>(plus: (T, T) -> T, f: T -> T, acc: T, a: seq<T>, b: seq<T>)
    ensures Steps(plus, f, acc, a + b) == Steps(plus, f, Steps(plus, f, acc, a), b)
    decreases |a|
  {
    if a == [] {
      assert a + b == b;
    } else {
      assert (a + b)[1..] == a[1..] + b;
      StepsConcat(plus, f, f(plus(acc, a[0])), a[1..], b);
    }
  }

  lemma Cancel<T(!new)>(plus: (T, T) -> T, zero: T, x: T, y: T, z: T)
    requires XorLike(plus, zero)
    ensures plus(x, y) == zero <==> x == y
    ensures plus(x, y) == z <==> x == plus(z, y)
    ensures plus(x, z) == plus(y, z) <==> x == y
  {
    assert Assoc(plus, x, y, y) && Assoc(plus, z, y, y) && Assoc(plus, x, z, z) && Assoc(plus, y, z, z);
    assert Cancels(plus, zero, x) && Cancels(plus, zero, y) && Cancels(plus, zero, z) && Commutes(plus, zero, y);
  }

  lemma Injective<T(!new)>(plus: (T, T) -> T, zero: T, f: T -> T, x: T, y: T)
    requires XorLike(plus, zero) && Additive(plus, f) && OnlyZeroToZero(zero, f)
    ensures f(x) == f(y) <==> x == y
  {
    Cancel(plus, zero, x, y, zero);
    Cancel(plus, zero, f(x), f(y), zero);
    assert Adds(plus, f, x, y);
  }

  /** Equal bytes keep different registers different. */
  lemma {:induction false} StaysDifferent<T(!new)>(plus: (T, T) -> T, zero: T, f: T -> T, p: T, q: T, data: seq<T>)
    requires XorLike(plus, zero) && Additive(plus, f) && OnlyZeroToZero(zero, f)
    ensures Steps(plus, f, p, data) == Steps(plus, f, q, data) <==> p == q
    decreases |data|
  {
    if data != [] {
      var b := data[0];
      Injective(plus, zero, f, plus(p, b), plus(q, b));
      Cancel(plus, zero, p, q, b);
      StaysDifferent(plus, zero, f, f(plus(p, b)), f(plus(q, b)), data[1..]);
    }
  }

  /** The step moves every small value out of the small ones, and small values are closed
      under addition. */
  ghost predicate Spreads<T(!new)>(plus: (T, T) -> T, zero: T, f: T -> T, small: T -> bool) {
    && (forall x :: small(x) && small(f(x)) ==> x == zero)
    && (forall x, y :: small(x) && small(y) ==> small(plus(x, y)))
  }

  /** Two consecutive small values: the register tells every two pairs apart. */
  lemma PairDetected<T(!new)>(plus: (T, T) -> T, zero: T, f: T -> T, small: T -> bool, acc: T, a: T, b: T, c: T, d: T)
    requires XorLike(plus, zero) && Additive(plus, f) && OnlyZeroToZero(zero, f) && Spreads(plus, zero, f, small)
    requires small(a) && small(b) && small(c) && small(d)
    ensures f(plus(f(plus(acc, a)), b)) == f(plus(f(plus(acc, c)), d)) <==> a == c && b == d
  {
    var u, v := f(plus(acc, a)), f(plus(acc, c));
    Injective(plus, zero, f, plus(u, b), plus(v, d));
    if plus(u, b) == plus(v, d) {
      Difference(plus, zero, f, acc, a, c);
      Regroup(plus, zero, u, b, v, d);
      Cancel(plus, zero, plus(u, b), plus(v, d), zero);
      Cancel(plus, zero, plus(u, v), plus(b, d), zero);
      assert f(plus(a, c)) == plus(b, d) && small(plus(b, d)) && small(plus(a, c));
      Cancel(plus, zero, a, c, zero);
      assert f(zero) == zero;
      Cancel(plus, zero, b, d, zero);
    }
  }

  lemma Difference<T(!new)>(plus: (T, T) -> T, zero: T, f: T -> T, acc: T, a: T, c: T)
    requires XorLike(plus, zero) && Additive(plus, f)
    ensures plus(f(plus(acc, a)), f(plus(acc, c))) == f(plus(a, c))
  {
    Regroup(plus, zero, acc, a, acc, c);
    assert Adds(plus, f, plus(acc, a), plus(acc, c)) && Cancels(plus, zero, acc);
    assert Commutes(plus, zero, plus(a, c)) && Cancels(plus, zero, plus(a, c));
  }

  /** Messages of one length that differ, and differ in at most two consecutive places,
      have different checksums. */
  lemma BurstDetected<T(!new)>(plus: (T, T) -> T, zero: T, f: T -> T, small: T -> bool, acc: T, m: seq<T>,
                                n: seq<T>, i: nat)
    requires XorLike(plus, zero) && Additive(plus, f) && OnlyZeroToZero(zero, f) && Spreads(plus, zero, f, small)
    requires |m| == |n| && i + 2 <= |m| && m != n && small(m[i]) && small(m[i + 1]) && small(n[i]) && small(n[i + 1])
    requires forall j :: 0 <= j < |m| && j != i && j != i + 1 ==> m[j] == n[j]
    ensures Steps(plus, f, acc, m) != Steps(plus, f, acc, n)
  {
    var p, t := m[..i], m[i + 2..];
    var r := Steps(plus, f, acc, p);
    assert m == p + [m[i], m[i + 1]] + t && n == p + [n[i], n[i + 1]] + t;
    AroundPair(plus, f, acc, p, m[i], m[i + 1], t);
    AroundPair(plus, f, acc, p, n[i], n[i + 1], t);
    PairDetected(plus, zero, f, small, r, m[i], m[i + 1], n[i], n[i + 1]);
    StaysDifferent(plus, zero, f, f(plus(f(plus(r, m[i])), m[i + 1])), f(plus(f(plus(r, n[i])), n[i + 1])), t);
  }

  lemma AroundPair<T>(plus: (T, T) -> T, f: T -> T, acc: T, p: seq<T>, a: T, b: T, t: seq<T>)
    ensures Steps(plus, f, acc, p + [a, b] + t) == Steps(plus, f, f(plus(f(plus(Steps(plus, f, acc, p), a)), b)), t)
  {
    StepsConcat(plus, f, acc, p + [a, b], t);
    StepsConcat(plus, f, acc, p, [a, b]);
    var r := Steps(plus, f, acc, p);
    assert [a, b][1..] == [b];
    assert Steps(plus, f, r, [a, b]) == Steps(plus, f, f(plus(r, a)), [b]);
    assert [b][1..] == [];
    assert Steps(plus, f, f(plus(r, a)), [b]) == f(plus(f(plus(r, a)), b));
  }
}
