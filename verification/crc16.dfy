/** The CCITT CRC of the serial protocols: x^16 + x^12 + x^5 + 1, low bit first. */
module Crc16 {
  import T = CrcTheory

  function Plus(x: bv16, y: bv16): bv16 {
    x ^ y
  }

  /** One step of the reflected shift register. */
  function Shift(x: bv16): bv16 {
    if x & 1 == 1 then (x >> 1) ^ 0x8408 else x >> 1
  }

  /** The register after one more byte: eight steps. */
  function Eight(x: bv16): bv16 {
    T.Iterate(Shift, x, 8)
  }

  function Wide(b: bv8): bv16 {
    b as bv16
  }

  function Words(data: seq<bv8>): (r: seq<bv16>)
    ensures |r| == |data|
  {
    seq(|data|, i requires 0 <= i < |data| => Wide(data[i]))
  }

  /** The CRC as the register defines it. */
  function Crc(acc: bv16, data: seq<bv8>): bv16 {
    T.Steps(Plus, Eight, acc, Words(data))
  }

  // ---- The byte-parallel form ----

  /** What the masks and shifts of crc16_add make of the register and the byte. */
  function Fast(x: bv16): bv16 {
    var a := (x >> 8) | (x << 8);
    var c := a ^ ((a & 0xff00) << 4);
    var d := c ^ ((c >> 8) >> 4);
    d ^ ((d & 0xff00) >> 5)
  }

  /** One, two and four steps without a branch: the bits shifted out come back where the
      polynomial has its terms. */
  function One(x: bv16): bv16 {
    var r := x & 0x1;
    (x >> 1) ^ (r << 15) ^ (r << 10) ^ (r << 3)
  }

  function Two(x: bv16): bv16 {
    var r := x & 0x3;
    (x >> 2) ^ (r << 14) ^ (r << 9) ^ (r << 2)
  }

  function Four(x: bv16): bv16 {
    var r := x & 0xf;
    (x >> 4) ^ (r << 12) ^ (r << 7) ^ r
  }

  lemma ShiftIsOne(x: bv16)
    ensures Shift(x) == One(x)
  {
    LowBit(x);
  }

  lemma LowBit(x: bv16)
    ensures x & 1 == 0 || x & 1 == 1
  {
  }

  lemma TwoIsOnes(x: bv16)
    ensures Two(x) == One(One(x))
  {
  }

  lemma FourIsTwos(x: bv16)
    ensures Four(x) == Two(Two(x))
  {
  }

  lemma FastIsFours(x: bv16)
    ensures Fast(x) == Four(Four(x))
  {
  }

  lemma ShiftTwo(x: bv16, y: bv16)
    requires y == Shift(x)
    ensures Shift(y) == Two(x)
  {
    ShiftIsOne(x);
    ShiftIsOne(y);
    TwoIsOnes(x);
  }

  lemma ShiftFour(x: bv16)
    ensures Shift(Shift(Shift(Shift(x)))) == Four(x)
  {
    var y := Shift(Shift(x));
    ShiftTwo(x, Shift(x));
    ShiftTwo(y, Shift(y));
    FourIsTwos(x);
  }

  lemma IterateFour(f: bv16 -> bv16, x: bv16, k: nat)
    ensures T.Iterate(f, x, k + 4) == T.Iterate(f, f(f(f(f(x)))), k)
  {
    assert T.Iterate(f, x, k + 4) == T.Iterate(f, f(x), k + 3) == T.Iterate(f, f(f(x)), k + 2) ==
      T.Iterate(f, f(f(f(x))), k + 1);
  }

  /** The shifts by 8, 4 and 5 do what eight single steps do, for every register value. */
  lemma FastIsEight(x: bv16)
    ensures Fast(x) == Eight(x)
  {
    var y := Shift(Shift(Shift(Shift(x))));
    IterateFour(Shift, x, 4);
    IterateFour(Shift, y, 0);
    ShiftFour(x);
    ShiftFour(y);
    FastIsFours(x);
  }

  method Crc16Add(b: bv8, acc: bv16) returns (r: bv16)
    ensures r == Eight(acc ^ (b as bv16))
  {
    r := acc ^ (b as bv16);
    FastIsEight(r);
    r := (r >> 8) | (r << 8);
    r := r ^ ((r & 0xff00) << 4);
    r := r ^ ((r >> 8) >> 4);
    r := r ^ ((r & 0xff00) >> 5);
  }

  method Crc16Data(data: seq<bv8>, acc: bv16) returns (r: bv16)
    ensures r == Crc(acc, data)
  {
    r := acc;
    var i := 0;
    while i < |data|
      invariant 0 <= i <= |data| && Crc(r, data[i..]) == Crc(acc, data)
    {
      assert Words(data[i..])[1..] == Words(data[i + 1..]);
      r := Crc16Add(data[i], r);
      i := i + 1;
    }
  }

  // ---- Bit-vector facts ----

  lemma PlusXorLike()
    ensures T.XorLike(Plus, 0)
  {
    forall x: bv16, y: bv16, z: bv16 {:trigger T.Assoc(Plus, x, y, z)} ensures T.Assoc(Plus, x, y, z) {
      XorAssoc(x, y, z);
    }
  }

  lemma XorAssoc(x: bv16, y: bv16, z: bv16)
    ensures (x ^ y) ^ z == x ^ (y ^ z)
  {
  }

  lemma LowBits(x: bv16, y: bv16)
    ensures (x ^ y) >> 1 == (x >> 1) ^ (y >> 1)
    ensures (x ^ y) & 1 == 1 <==> !(x & 1 == 1 <==> y & 1 == 1)
  {
  }

  lemma XorRegroup(a: bv16, b: bv16, c: bv16)
    ensures (a ^ c) ^ b == (a ^ b) ^ c && a ^ (b ^ c) == (a ^ b) ^ c && (a ^ c) ^ (b ^ c) == a ^ b
  {
  }

  lemma ShiftOfSum(x: bv16, y: bv16)
    ensures Shift(Plus(x, y)) == Plus(Shift(x), Shift(y))
  {
    LowBits(x, y);
    XorRegroup(x >> 1, y >> 1, 0x8408);
  }

  lemma ShiftAdds(x: bv16, y: bv16)
    ensures T.Adds(Plus, Shift, x, y)
  {
    ShiftOfSum(x, y);
  }

  lemma ShiftZero(x: bv16)
    ensures Shift(x) == 0 <==> x == 0
  {
  }

  lemma ShiftAdditive()
    ensures T.Additive(Plus, Shift) && T.OnlyZeroToZero(0 as bv16, Shift)
  {
    forall x: bv16, y: bv16 {:trigger T.Adds(Plus, Shift, x, y)} ensures T.Adds(Plus, Shift, x, y) {
      ShiftAdds(x, y);
    }
    forall x: bv16 ensures Shift(x) == 0 <==> x == 0 {
      ShiftZero(x);
    }
  }

  lemma EightAdditive()
    ensures T.Additive(Plus, Eight) && T.OnlyZeroToZero(0 as bv16, Eight)
  {
    ShiftAdditive();
    forall x: bv16, y: bv16 {:trigger T.Adds(Plus, Eight, x, y)} ensures T.Adds(Plus, Eight, x, y) {
      T.IterateAdditive(Plus, 0, Shift, x, y, 8);
    }
    forall x: bv16 ensures Eight(x) == 0 <==> x == 0 {
      T.IterateAdditive(Plus, 0, Shift, x, x, 8);
    }
  }

  predicate IsByte(x: bv16) {
    x < 0x100
  }

  lemma FastOfByte(x: bv16)
    ensures x < 0x100 && Fast(x) < 0x100 ==> x == 0
  {
  }

  lemma SumOfBytes(x: bv16, y: bv16)
    ensures x < 0x100 && y < 0x100 ==> x ^ y < 0x100
  {
  }

  lemma EightSpreads()
    ensures T.Spreads(Plus, 0, Eight, IsByte)
  {
    forall x: bv16 ensures IsByte(x) && IsByte(Eight(x)) ==> x == 0 {
      FastOfByte(x);
      FastIsEight(x);
    }
    forall x: bv16, y: bv16 ensures IsByte(x) && IsByte(y) ==> IsByte(Plus(x, y)) {
      SumOfBytes(x, y);
    }
  }

  // ---- What the checksum is for ----

  function Xor(a: seq<bv8>, b: seq<bv8>): (r: seq<bv8>)
    requires |a| == |b|
    ensures |r| == |a|
  {
    seq(|a|, i requires 0 <= i < |a| => a[i] ^ b[i])
  }

  lemma WideXor(x: bv8, y: bv8)
    ensures Wide(x ^ y) == Plus(Wide(x), Wide(y)) && IsByte(Wide(x))
    ensures Wide(x) == Wide(y) <==> x == y
  {
  }

  /** The CRC of a bitwise sum is the sum of the CRCs, initial values included. */
  lemma CrcLinear(p: bv16, q: bv16, a: seq<bv8>, b: seq<bv8>)
    requires |a| == |b|
    ensures Crc(p ^ q, Xor(a, b)) == Crc(p, a) ^ Crc(q, b)
  {
    PlusXorLike();
    EightAdditive();
    T.StepsAdditive(Plus, 0, Eight, p, q, Words(a), Words(b));
    WordsXor(a, b);
  }

  lemma WordsXor(a: seq<bv8>, b: seq<bv8>)
    requires |a| == |b|
    ensures Words(Xor(a, b)) == T.Sum(Plus, Words(a), Words(b))
  {
    forall i | 0 <= i < |a| ensures Words(Xor(a, b))[i] == T.Sum(Plus, Words(a), Words(b))[i] {
      WideXor(a[i], b[i]);
      var s, t := Words(a), Words(b);
      assert Xor(a, b)[i] == a[i] ^ b[i] && s[i] == Wide(a[i]) && t[i] == Wide(b[i]);
      assert Words(Xor(a, b))[i] == Wide(a[i] ^ b[i]);
      assert T.Sum(Plus, s, t)[i] == Plus(s[i], t[i]);
    }
  }

  /** A message may be fed in pieces. */
  lemma CrcConcat(acc: bv16, a: seq<bv8>, b: seq<bv8>)
    ensures Crc(acc, a + b) == Crc(Crc(acc, a), b)
  {
    T.StepsConcat(Plus, Eight, acc, Words(a), Words(b));
    assert Words(a + b) == Words(a) + Words(b);
  }

  lemma PairBurst(acc: bv16, m: seq<bv8>, n: seq<bv8>, i: nat)
    requires |m| == |n| && i + 2 <= |m| && m != n
    requires forall j :: 0 <= j < |m| && j != i && j != i + 1 ==> m[j] == n[j]
    ensures Crc(acc, m) != Crc(acc, n)
  {
    PlusXorLike();
    EightAdditive();
    EightSpreads();
    var k :| 0 <= k < |m| && m[k] != n[k];
    WideXor(m[k], n[k]);
    assert Words(m)[k] != Words(n)[k];
    WideXor(m[i], m[i + 1]);
    WideXor(m[i + 1], m[i]);
    WideXor(n[i], n[i + 1]);
    WideXor(n[i + 1], n[i]);
    T.BurstDetected(Plus, 0, Eight, IsByte, acc, Words(m), Words(n), i);
  }

  /** Two messages of one length that differ, and differ in at most two consecutive bytes,
      never have the same CRC. */
  lemma BurstDetected(acc: bv16, m: seq<bv8>, n: seq<bv8>, i: nat)
    requires |m| == |n| && m != n
    requires forall j :: 0 <= j < |m| && m[j] != n[j] ==> i <= j <= i + 1
    ensures Crc(acc, m) != Crc(acc, n)
  {
    var k :| 0 <= k < |m| && m[k] != n[k];
    if i + 2 <= |m| {
      PairBurst(acc, m, n, i);
    } else if i > 0 {
      PairBurst(acc, m, n, i - 1);
    } else {
      assert (m + [0])[k] != (n + [0])[k];
      PairBurst(acc, m + [0], n + [0], 0);
      CrcConcat(acc, m, [0]);
      CrcConcat(acc, n, [0]);
    }
  }
}
