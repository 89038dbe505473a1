/** CCM as sections 2.2 and 2.3 of RFC 3610 define it, for L = 2 and any block cipher. */
module CcmSpec {
  import opened Basics
  import opened Modular

  type Block = b: seq<byte> | |b| == 16 witness seq(16, _ => 0)

  /** The cipher under the key in use: some function on blocks. */
  type Cipher = Block -> Block

  type Nonce = n: seq<byte> | |n| == 13 witness seq(13, _ => 0)

  function Hi(n: nat): byte {
    n / 256 % 256
  }

  function Lo(n: nat): byte {
    n % 256
  }

  /** Exclusive or of the low `k` bits. */
  function XorBits(x: nat, y: nat, k: nat): (r: nat)
    ensures r < Pow2(k)
  {
    if k == 0 then 0 else (x + y) % 2 + 2 * XorBits(x / 2, y / 2, k - 1)
  }

  function XorByte(x: byte, y: byte): byte {
    assert Pow2(8) == 256;
    XorBits(x, y, 8)
  }

  function Xor(a: seq<byte>, b: seq<byte>): (r: seq<byte>)
    requires |a| == |b|
    ensures |r| == |a|
  {
    seq(|a|, i requires 0 <= i < |a| => XorByte(a[i], b[i]))
  }

  /** MIC_LEN_VALID: the values of M that the RFC allows. */
  predicate MicLenValid(m: nat) {
    m >= 4 && m <= 16 && m % 2 == 0
  }

  /** B_0 and the A_i share this shape: flags, nonce and two more bytes. */
  function Iv(flags: byte, nonce: Nonce, n: nat): Block {
    [flags] + nonce + [Hi(n), Lo(n)]
  }

  /** Flags = 64 * Adata + 8 * M' + L', with M' = (M - 2) / 2 and L' = 1. */
  function AuthFlags(adata: bool, m: nat): byte
    requires MicLenValid(m)
  {
    64 * (if adata then 1 else 0) + 8 * ((m - 2) / 2) + 1
  }

  /** The counter block A_i, whose flags are L'. */
  function CounterBlock(nonce: Nonce, i: nat): Block {
    Iv(1, nonce, i)
  }

  function Zeros(n: nat): (z: seq<byte>)
    ensures |z| == n
  {
    seq(n, _ => 0)
  }

  /** Zero bytes up to the next multiple of 16. */
  function Pad(s: seq<byte>): (p: seq<byte>)
    ensures |p| % 16 == 0
  {
    if |s| % 16 == 0 then s else s + Zeros(16 - |s| % 16)
  }

  function Blocks(s: seq<byte>): (bs: seq<Block>)
    requires |s| % 16 == 0
    ensures |bs| == |s| / 16
  {
    if s == [] then [] else [s[..16]] + Blocks(s[16..])
  }

  /** The blocks that authenticate the additional data: its length in two bytes, the data
      and zeros, or nothing at all. */
  function AuthBlocks(a: seq<byte>): seq<Block> {
    if a == [] then [] else Blocks(Pad([Hi(|a|), Lo(|a|)] + a))
  }

  function MessageBlocks(m: seq<byte>): seq<Block> {
    Blocks(Pad(m))
  }

  /** The blocks B_0, B_1, ... of section 2.2. */
  function MacBlocks(nonce: Nonce, m: seq<byte>, a: seq<byte>, mlen: nat): seq<Block>
    requires MicLenValid(mlen)
  {
    [Iv(AuthFlags(a != [], mlen), nonce, |m|)] + (AuthBlocks(a) + MessageBlocks(m))
  }

  function Flat(bs: seq<Block>): seq<byte> {
    if bs == [] then [] else bs[0] + Flat(bs[1..])
  }

  lemma {:induction false} FlatBlocks(s: seq<byte>)
    requires |s| % 16 == 0
    ensures Flat(Blocks(s)) == s
    decreases |s|
  {
    if s != [] {
      FlatBlocks(s[16..]);
      assert Blocks(s)[1..] == Blocks(s[16..]) && s[..16] + s[16..] == s;
    }
  }

  /** Padding loses nothing of a string whose length is known. */
  lemma PadInjective(s: seq<byte>, t: seq<byte>)
    requires |s| == |t| && Blocks(Pad(s)) == Blocks(Pad(t))
    ensures s == t
  {
    FlatBlocks(Pad(s));
    FlatBlocks(Pad(t));
    assert s == Pad(s)[..|s|] && t == Pad(t)[..|t|];
  }

  lemma TwoBytesDiffer(i: nat, j: nat)
    requires i < 0x1_0000 && j < 0x1_0000 && Hi(i) == Hi(j) && Lo(i) == Lo(j)
    ensures i == j
  {
    TwoBytes(i);
    TwoBytes(j);
  }

  /** The first block tells the MIC length, whether there is additional data, the nonce and
      the length of the message. */
  lemma FirstBlockInjective(nonce: Nonce, l: nat, ad: bool, mlen: nat, nonce': Nonce, l': nat, ad': bool, mlen': nat)
    requires MicLenValid(mlen) && MicLenValid(mlen') && l < 0x1_0000 && l' < 0x1_0000
    requires Iv(AuthFlags(ad, mlen), nonce, l) == Iv(AuthFlags(ad', mlen'), nonce', l')
    ensures nonce == nonce' && l == l' && ad == ad' && mlen == mlen'
  {
    var b, b' := Iv(AuthFlags(ad, mlen), nonce, l), Iv(AuthFlags(ad', mlen'), nonce', l');
    assert b[0] == AuthFlags(ad, mlen) && b'[0] == AuthFlags(ad', mlen');
    assert b[1..14] == nonce && b'[1..14] == nonce';
    assert b[14] == Hi(l) && b[15] == Lo(l) && b'[14] == Hi(l') && b'[15] == Lo(l');
    TwoBytesDiffer(l, l');
  }

  /** The additional data's first block tells its length. */
  lemma AuthLength(a: seq<byte>)
    requires a != []
    ensures |AuthBlocks(a)| == (|a| + 17) / 16
    ensures AuthBlocks(a)[0][0] == Hi(|a|) && AuthBlocks(a)[0][1] == Lo(|a|)
  {
    var p := Pad([Hi(|a|), Lo(|a|)] + a);
    assert Blocks(p)[0] == p[..16];
  }

  lemma AuthInjective(a: seq<byte>, a': seq<byte>)
    requires a != [] && a' != [] && |a| < 0x1_0000 && |a'| < 0x1_0000 && AuthBlocks(a) == AuthBlocks(a')
    ensures a == a'
  {
    AuthLength(a);
    AuthLength(a');
    TwoBytesDiffer(|a|, |a'|);
    var s, s' := [Hi(|a|), Lo(|a|)] + a, [Hi(|a'|), Lo(|a'|)] + a';
    PadInjective(s, s');
    assert a == s[2..] && a' == s'[2..];
  }

  /** No two inputs are authenticated by the same blocks: what the MIC covers is the nonce,
      the message, the additional data and the MIC's own length, each unambiguously. */
  lemma MacBlocksInjective(nonce: Nonce, m: seq<byte>, a: seq<byte>, mlen: nat,
                           nonce': Nonce, m': seq<byte>, a': seq<byte>, mlen': nat)
    requires MicLenValid(mlen) && MicLenValid(mlen')
    requires |m| < 0x1_0000 && |m'| < 0x1_0000 && |a| < 0x1_0000 && |a'| < 0x1_0000
    requires MacBlocks(nonce, m, a, mlen) == MacBlocks(nonce', m', a', mlen')
    ensures nonce == nonce' && m == m' && a == a' && mlen == mlen'
  {
    var x, x' := AuthBlocks(a) + MessageBlocks(m), AuthBlocks(a') + MessageBlocks(m');
    var bs, bs' := MacBlocks(nonce, m, a, mlen), MacBlocks(nonce', m', a', mlen');
    assert bs[0] == Iv(AuthFlags(a != [], mlen), nonce, |m|) && bs'[0] == Iv(AuthFlags(a' != [], mlen'), nonce', |m'|);
    assert x == bs[1..] && x' == bs'[1..];
    FirstBlockInjective(nonce, |m|, a != [], mlen, nonce', |m'|, a' != [], mlen');
    if a != [] {
      AuthLength(a);
      AuthLength(a');
      assert x[0] == AuthBlocks(a)[0] && x'[0] == AuthBlocks(a')[0];
      TwoBytesDiffer(|a|, |a'|);
    }
    var n := |AuthBlocks(a)|;
    assert n == |AuthBlocks(a')|;
    assert AuthBlocks(a) == x[..n] && AuthBlocks(a') == x'[..n];
    assert MessageBlocks(m) == x[n..] && MessageBlocks(m') == x'[n..];
    if a != [] { AuthInjective(a, a'); }
    PadInjective(m, m');
  }

  /** X_i+1 := E(K, X_i XOR B_i). */
  function Cbc(e: Cipher, x: Block, bs: seq<Block>): Block
    decreases |bs|
  {
    if bs == [] then x else Cbc(e, e(Xor(x, bs[0])), bs[1..])
  }

  /** T is X_n+1 cut to M bytes, and U is T XOR the first M bytes of S_0. */
  function Mic(e: Cipher, nonce: Nonce, m: seq<byte>, a: seq<byte>, mlen: nat): (u: seq<byte>)
    requires MicLenValid(mlen)
    ensures |u| == mlen
  {
    var bs := MacBlocks(nonce, m, a, mlen);
    var x := Cbc(e, e(bs[0]), bs[1..]);
    Xor(x[..mlen], e(CounterBlock(nonce, 0))[..mlen])
  }

  /** The MIC told from the CBC-MAC over everything after B_0. */
  lemma MicFrom(e: Cipher, nonce: Nonce, m: seq<byte>, a: seq<byte>, mlen: nat, x: Block)
    requires MicLenValid(mlen)
    requires x == Cbc(e, e(Iv(AuthFlags(a != [], mlen), nonce, |m|)), AuthBlocks(a) + MessageBlocks(m))
    ensures Mic(e, nonce, m, a, mlen) == Xor(x[..mlen], e(CounterBlock(nonce, 0))[..mlen])
  {
    assert MacBlocks(nonce, m, a, mlen)[1..] == AuthBlocks(a) + MessageBlocks(m);
  }

  /** The message XOR S_1, S_2, and so on. */
  function Ctr(e: Cipher, nonce: Nonce, m: seq<byte>): (c: seq<byte>)
    ensures |c| == |m|
  {
    seq(|m|, j requires 0 <= j < |m| => XorByte(m[j], e(CounterBlock(nonce, 1 + j / 16))[j % 16]))
  }

  lemma {:induction false} CbcConcat(e: Cipher, x: Block, a: seq<Block>, b: seq<Block>)
    ensures Cbc(e, x, a + b) == Cbc(e, Cbc(e, x, a), b)
    decreases |a|
  {
    if a == [] {
      assert a + b == b;
    } else {
      assert (a + b)[1..] == a[1..] + b;
      CbcConcat(e, e(Xor(x, a[0])), a[1..], b);
    }
  }

  lemma {:induction false} XorBitsTwice(x: nat, y: nat, k: nat)
    requires x < Pow2(k)
    ensures XorBits(XorBits(x, y, k), y, k) == x
    decreases k
  {
    if k > 0 {
      XorBitsTwice(x / 2, y / 2, k - 1);
      BitTwice(x, y, XorBits(x / 2, y / 2, k - 1));
    }
  }

  lemma BitTwice(x: nat, y: nat, q: nat)
    ensures ((x + y) % 2 + 2 * q) / 2 == q
    ensures ((x + y) % 2 + 2 * q + y) % 2 == x % 2
  {
  }

  lemma {:induction false} XorBitsZero(x: nat, k: nat)
    requires x < Pow2(k)
    ensures XorBits(x, 0, k) == x
    decreases k
  {
    if k > 0 {
      XorBitsZero(x / 2, k - 1);
    }
  }

  lemma XorZero(x: byte)
    ensures XorByte(x, 0) == x
  {
    assert Pow2(8) == 256;
    XorBitsZero(x, 8);
  }

  /** Encryption undoes itself, whatever the cipher. */
  lemma CtrTwice(e: Cipher, nonce: Nonce, m: seq<byte>)
    ensures Ctr(e, nonce, Ctr(e, nonce, m)) == m
  {
    assert Pow2(8) == 256;
    forall j | 0 <= j < |m| ensures Ctr(e, nonce, Ctr(e, nonce, m))[j] == m[j] {
      XorBitsTwice(m[j], e(CounterBlock(nonce, 1 + j / 16))[j % 16], 8);
    }
  }

  /** Different counters below 2^16 make different counter blocks. */
  lemma CountersDiffer(nonce: Nonce, i: nat, j: nat)
    requires i < 0x1_0000 && j < 0x1_0000 && i != j
    ensures CounterBlock(nonce, i) != CounterBlock(nonce, j)
  {
    CounterBytes(nonce, i);
    CounterBytes(nonce, j);
    TwoBytes(i);
    TwoBytes(j);
  }

  lemma CounterBytes(nonce: Nonce, i: nat)
    ensures CounterBlock(nonce, i)[14] == Hi(i) && CounterBlock(nonce, i)[15] == Lo(i)
  {
  }

  lemma TwoBytes(i: nat)
    requires i < 0x1_0000
    ensures i == 256 * Hi(i) + Lo(i)
  {
  }

  /** No keystream block is used twice: the message blocks of any message the interface
      can carry use counter blocks that differ from each other and from the one that
      masks the MIC. */
  lemma KeystreamNotReused(nonce: Nonce, len: nat, j: nat, k: nat)
    requires len <= 0xFFFF && j < len && k < len && j / 16 != k / 16
    ensures CounterBlock(nonce, 1 + j / 16) != CounterBlock(nonce, 1 + k / 16)
    ensures CounterBlock(nonce, 1 + j / 16) != CounterBlock(nonce, 0)
  {
    CountersDiffer(nonce, 1 + j / 16, 1 + k / 16);
    CountersDiffer(nonce, 1 + j / 16, 0);
  }
}
