/** The CCM* driver: chunked loops over the caller's buffers, one 16-byte scratch block. */
module CcmStar {
  import opened Basics
  import opened CcmSpec

  const AES_128_BLOCK_SIZE := 16
  const MAX_A_LEN := 0xfeff

  /** What one pass of the inner loop consumes: up to 16 bytes, as if zeros followed. */
  function Chunk(s: seq<byte>): Block {
    if |s| >= 16 then s[..16] else s + Zeros(16 - |s|)
  }

  function Rest(s: seq<byte>): seq<byte> {
    if |s| > 16 then s[16..] else []
  }

  function From(s: seq<byte>, pos: nat): seq<byte> {
    if pos < |s| then s[pos..] else []
  }

  /** Cutting into chunks is padding and cutting into blocks. */
  lemma ChunksAreBlocks(s: seq<byte>)
    requires s != []
    ensures Blocks(Pad(s)) == [Chunk(s)] + Blocks(Pad(Rest(s)))
  {
    if |s| > 16 {
      assert Pad(s)[..16] == s[..16];
      assert Pad(s)[16..] == Pad(s[16..]);
    } else {
      assert Pad(s)[..16] == Chunk(s);
      assert Pad(s)[16..] == [] == Pad([]);
    }
  }

  lemma AbsorbStep(e: Cipher, x: Block, s: seq<byte>)
    requires s != []
    ensures Cbc(e, x, Blocks(Pad(s))) == Cbc(e, e(Xor(x, Chunk(s))), Blocks(Pad(Rest(s))))
  {
    ChunksAreBlocks(s);
    assert Blocks(Pad(s))[1..] == Blocks(Pad(Rest(s)));
  }

  /** The shifts and masks of CCM_STAR_AUTH_FLAGS give the flags of the RFC. */
  method AuthFlagsByte(auth: bool, micLen: nat) returns (flags: byte)
    requires MicLenValid(micLen)
    ensures flags == AuthFlags(auth, micLen)
  {
    var m: bv8 := micLen as bv8;
    var bits: bv8 := (if auth then 1 << 6 else 0) | (((m - 2) >> 1) << 3) | 1;
    FlagsAgree(auth, micLen);
    flags := bits as int;
  }

  lemma FlagsAgree(auth: bool, micLen: nat)
    requires MicLenValid(micLen)
    ensures ((if auth then 1 << 6 else 0) | (((micLen as bv8 - 2) >> 1) << 3) | 1) as int == AuthFlags(auth, micLen)
  {
  }

  method SetIv(iv: array<byte>, flags: byte, nonce: Nonce, counter: nat)
    requires iv.Length == 16 && counter <= 0xFFFF
    modifies iv
    ensures iv[..] == Iv(flags, nonce, counter)
  {
    iv[0] := flags;
    forall i | 0 <= i < 13 { iv[1 + i] := nonce[i]; }
    iv[14] := counter / 256;
    iv[15] := counter % 256;
  }

  method Encrypt(e: Cipher, x: array<byte>)
    requires x.Length == 16
    modifies x
    ensures x[..] == e(old(x[..]))
  {
    var y := e(x[..]);
    forall i | 0 <= i < 16 { x[i] := y[i]; }
  }

  /** x[i] ^= src[pos + i] while there are source bytes and room in the block. */
  method MixIn(x: array<byte>, src: array<byte>, pos: nat)
    requires x.Length == 16 && x != src
    modifies x
    ensures x[..] == Xor(old(x[..]), Chunk(From(src[..], pos)))
  {
    ghost var s := From(src[..], pos);
    var i := 0;
    while pos + i < src.Length && i < AES_128_BLOCK_SIZE
      invariant 0 <= i <= 16 && (i == 0 || i <= |s|)
      invariant forall k :: 0 <= k < i ==> x[k] == XorByte(old(x[k]), s[k])
      invariant forall k :: i <= k < 16 ==> x[k] == old(x[k])
      invariant src[..] == old(src[..])
    {
      x[i] := XorByte(x[i], src[pos + i]);
      i := i + 1;
    }
    MixedWithZeros(old(x[..]), x[..], s, i);
  }

  lemma MixedWithZeros(old_: Block, now: Block, s: seq<byte>, n: nat)
    requires n <= 16 && n <= |s| && (n == 16 || n == |s|)
    requires forall k :: 0 <= k < n ==> now[k] == XorByte(old_[k], s[k])
    requires forall k :: n <= k < 16 ==> now[k] == old_[k]
    ensures now == Xor(old_, Chunk(s))
  {
    forall k | 0 <= k < 16 ensures now[k] == Xor(old_, Chunk(s))[k] {
      XorZero(old_[k]);
    }
  }

  /** a_len >> 8, and a_len cut to a byte. */
  method HighAndLow(n: nat) returns (high: byte, low: byte)
    requires n <= 0xFFFF
    ensures high == Hi(n) && low == Lo(n) && n == 256 * high + low
  {
    high, low := n / 256, n % 256;
  }

  /** The first block of additional data holds its length and at most 14 of its bytes. */
  method MixInLength(x: array<byte>, a: array<byte>)
    requires x.Length == 16 && x != a && a.Length <= 0xFFFF
    modifies x
    ensures x[..] == Xor(old(x[..]), Chunk([Hi(a.Length), Lo(a.Length)] + a[..]))
  {
    var high, low := HighAndLow(a.Length);
    ghost var s := [high, low] + a[..];
    x[0] := XorByte(x[0], high);
    x[1] := XorByte(x[1], low);
    var i := 2;
    while i - 2 < a.Length && i < AES_128_BLOCK_SIZE
      invariant 2 <= i <= 16 && i <= |s|
      invariant forall k :: 0 <= k < i ==> x[k] == XorByte(old(x[k]), s[k])
      invariant forall k :: i <= k < 16 ==> x[k] == old(x[k])
      invariant a[..] == old(a[..])
    {
      x[i] := XorByte(x[i], a[i - 2]);
      i := i + 1;
    }
    MixedWithZeros(old(x[..]), x[..], s, i);
  }

  /** The chunk loop is CBC over the padded rest of the source. */
  method Absorb(e: Cipher, x: array<byte>, src: array<byte>, start: nat)
    requires x.Length == 16 && x != src
    modifies x
    ensures x[..] == Cbc(e, old(x[..]), Blocks(Pad(From(src[..], start))))
  {
    var pos := start;
    while pos < src.Length
      invariant src[..] == old(src[..]) && pos >= start
      invariant Cbc(e, x[..], Blocks(Pad(From(src[..], pos)))) == Cbc(e, old(x[..]), Blocks(Pad(From(src[..], start))))
    {
      ghost var was: Block := x[..];
      ghost var s := From(src[..], pos);
      MixIn(x, src, pos);
      pos := pos + AES_128_BLOCK_SIZE;
      Encrypt(e, x);
      AbsorbStep(e, was, s);
      assert Rest(s) == From(src[..], pos);
    }
  }

  /** XORs up to 16 bytes at `pos` with the counter block's cipher text. */
  method CtrStep(e: Cipher, nonce: Nonce, pos: nat, m: array<byte>, counter: nat)
    requires counter <= 0xFFFF
    modifies m
    ensures forall j :: 0 <= j < m.Length ==>
      m[j] == if pos <= j < pos + 16 then XorByte(old(m[j]), e(CounterBlock(nonce, counter))[j - pos]) else old(m[j])
  {
    var a := new byte[16](_ => 0);
    SetIv(a, 1, nonce, counter);
    Encrypt(e, a);
    ghost var k: Block := e(CounterBlock(nonce, counter));
    var i := 0;
    while pos + i < m.Length && i < AES_128_BLOCK_SIZE
      invariant 0 <= i <= 16 && a[..] == k
      invariant forall j :: 0 <= j < m.Length ==>
        m[j] == if pos <= j < pos + i then XorByte(old(m[j]), k[j - pos]) else old(m[j])
    {
      assert a[i] == k[i];
      m[pos + i] := XorByte(m[pos + i], a[i]);
      i := i + 1;
    }
  }

  /** CBC-MAC over B_0, the additional data and the message, masked by S_0. */
  method Mic(e: Cipher, nonce: Nonce, m: array<byte>, a: array<byte>, result: array<byte>, micLen: nat)
    requires MicLenValid(micLen) && micLen <= result.Length
    requires m.Length <= 0xFFFF && a.Length <= 0xFFFF && result != m && result != a
    modifies result
    ensures result[..] == CcmSpec.Mic(e, nonce, m[..], a[..], micLen) + old(result[micLen..])
  {
    var x := new byte[16](_ => 0);
    var flags := AuthFlagsByte(a.Length > 0, micLen);
    SetIv(x, flags, nonce, m.Length);
    Encrypt(e, x);
    ghost var x0: Block := x[..];
    assert x0 == e(Iv(AuthFlags(a[..] != [], micLen), nonce, |m[..]|));
    AbsorbAll(e, x, a, m);
    ghost var x1: Block := x[..];
    MicFrom(e, nonce, m[..], a[..], micLen, x1);
    CtrStep(e, nonce, 0, x, 0);
    ghost var mask: Block := e(CounterBlock(nonce, 0));
    assert Xor(x1[..micLen], mask[..micLen]) == x[..micLen];
    CopyOut(x, result, micLen);
  }

  method CopyOut(x: array<byte>, result: array<byte>, micLen: nat)
    requires x.Length == 16 && micLen <= 16 && micLen <= result.Length && x != result
    modifies result
    ensures result[..] == x[..micLen] + old(result[micLen..])
  {
    forall i | 0 <= i < micLen { result[i] := x[i]; }
  }

  method AbsorbAll(e: Cipher, x: array<byte>, a: array<byte>, m: array<byte>)
    requires x.Length == 16 && x != a && x != m && a.Length <= 0xFFFF
    modifies x
    ensures x[..] == Cbc(e, old(x[..]), AuthBlocks(a[..]) + MessageBlocks(m[..]))
  {
    AbsorbAuth(e, x, a);
    if m.Length > 0 {
      Absorb(e, x, m, 0);
    }
    assert From(m[..], 0) == m[..];
    CbcConcat(e, old(x[..]), AuthBlocks(a[..]), MessageBlocks(m[..]));
  }

  method AbsorbAuth(e: Cipher, x: array<byte>, a: array<byte>)
    requires x.Length == 16 && x != a && a.Length <= 0xFFFF
    modifies x
    ensures x[..] == Cbc(e, old(x[..]), AuthBlocks(a[..]))
  {
    if a.Length > 0 {
      MixInLength(x, a);
      Encrypt(e, x);
      Absorb(e, x, a, 14);
      AuthSplit(e, old(x[..]), a[..]);
    }
  }

  /** The additional data after its first block. */
  lemma AuthSplit(e: Cipher, x: Block, a: seq<byte>)
    requires a != []
    ensures var s := [Hi(|a|), Lo(|a|)] + a;
      Cbc(e, x, AuthBlocks(a)) == Cbc(e, e(Xor(x, Chunk(s))), Blocks(Pad(From(a, 14))))
  {
    var s := [Hi(|a|), Lo(|a|)] + a;
    AbsorbStep(e, x, s);
    assert Rest(s) == From(a, 14);
  }

  /** Counter mode over the whole message, with counters 1, 2, ... */
  method Ctr(e: Cipher, nonce: Nonce, m: array<byte>)
    requires m.Length <= 0xFFFF
    modifies m
    ensures m[..] == CcmSpec.Ctr(e, nonce, old(m[..]))
  {
    ghost var c := CcmSpec.Ctr(e, nonce, m[..]);
    var pos := 0;
    var counter := 1;
    while pos < m.Length
      invariant pos == 16 * (counter - 1) && 1 <= counter <= 4097
      invariant forall j :: 0 <= j < m.Length ==> m[j] == if j < pos then c[j] else old(m[j])
    {
      CtrStep(e, nonce, pos, m, counter);
      forall j | 0 <= j < m.Length ensures m[j] == if j < pos + 16 then c[j] else old(m[j]) {
        if pos <= j < pos + 16 {
          assert j / 16 == counter - 1 && j % 16 == j - pos;
        }
      }
      counter := counter + 1;
      pos := pos + AES_128_BLOCK_SIZE;
    }
  }

  predicate Accepted(alen: nat, micLen: nat) {
    alen <= MAX_A_LEN && MicLenValid(micLen)
  }

  /** aead. The MIC is that of the plaintext in both directions, and the message is XORed
      with the keystream. */
  method Aead(e: Cipher, nonce: Nonce, m: array<byte>, a: array<byte>, result: array<byte>, micLen: nat, forward: bool)
    requires m.Length <= 0xFFFF && a.Length <= 0xFFFF && micLen <= result.Length
    requires m != a && result != m && result != a
    modifies m, result
    ensures !Accepted(a.Length, micLen) ==> m[..] == old(m[..]) && result[..] == old(result[..])
    ensures Accepted(a.Length, micLen) ==>
      && m[..] == CcmSpec.Ctr(e, nonce, old(m[..]))
      && result[..micLen] == CcmSpec.Mic(e, nonce, if forward then old(m[..]) else m[..], a[..], micLen)
      && result[micLen..] == old(result[micLen..])
  {
    if a.Length > MAX_A_LEN || !MicLenValid(micLen) {
      return;
    }
    if !forward {
      Ctr(e, nonce, m);
    }
    Mic(e, nonce, m, a, result, micLen);
    if forward {
      Ctr(e, nonce, m);
    }
  }

  /** Opening what was sealed restores the message and computes the same MIC, for every
      cipher, nonce, message and additional data: `sent` and `tag` are what sealing `m` leaves
      in the two buffers, `got` and `check` what opening `sent` leaves there. */
  lemma RoundTrip(e: Cipher, nonce: Nonce, a: seq<byte>, micLen: nat, m: seq<byte>, sent: seq<byte>, tag: seq<byte>,
                  got: seq<byte>, check: seq<byte>)
    requires MicLenValid(micLen)
    requires sent == CcmSpec.Ctr(e, nonce, m) && tag == CcmSpec.Mic(e, nonce, m, a, micLen)
    requires got == CcmSpec.Ctr(e, nonce, sent) && check == CcmSpec.Mic(e, nonce, got, a, micLen)
    ensures got == m && check == tag
  {
    CtrTwice(e, nonce, m);
  }

  /** The same for two calls in a row on one message buffer. */
  method SealAndOpen(e: Cipher, nonce: Nonce, m: array<byte>, a: array<byte>, tag: array<byte>, check: array<byte>,
                     micLen: nat)
    requires Accepted(a.Length, micLen) && m.Length <= 0xFFFF && micLen <= tag.Length && micLen <= check.Length
    requires m != a && tag != m && tag != a && check != m && check != a && tag != check
    modifies m, tag, check
    ensures m[..] == old(m[..]) && check[..micLen] == tag[..micLen]
  {
    ghost var plain := m[..];
    Aead(e, nonce, m, a, tag, micLen, true);
    ghost var sent, sum := m[..], tag[..micLen];
    Aead(e, nonce, m, a, check, micLen, false);
    RoundTrip(e, nonce, a[..], micLen, plain, sent, sum, m[..], check[..micLen]);
  }
}
