/** os/lib/ringbuf.c: first one call at a time, over its array, then as a protocol in
    which every shared read and write of a producer and a consumer is its own step. */
module Ringbuf {
  import opened Basics
  import opened Modular

  /** The sizes ringbuf.h allows: the powers of two up to 128. */
  predicate IsSize(size: nat) {
    exists k: nat :: k < 8 && IsPow2(size, k)
  }

  predicate IsPow2(size: nat, k: nat) {
    size == Pow2(k)
  }

  lemma SizeBound(size: nat)
    requires IsSize(size)
    ensures 1 <= size <= 128
  {
    assert Pow2(0) == 1 && Pow2(1) == 2 && Pow2(2) == 4 && Pow2(3) == 8;
    assert Pow2(4) == 16 && Pow2(5) == 32 && Pow2(6) == 64 && Pow2(7) == 128;
  }

  /** `x & r->mask`, the operands promoted to int. */
  function Masked(x: int, size: nat): (r: nat)
    requires IsSize(size)
    ensures r == x % size
  {
    SizeBound(size);
    assert And(x, size - 1) == x % size by {
      var k: nat :| k < 8 && IsPow2(size, k);
      AndMask(x, k);
    }
    And(x, size - 1)
  }

  /** An index less than one turn outside the buffer, brought back inside. */
  function Wrapped(x: int, size: nat): int {
    if x < 0 then x + size else if x >= size then x - size else x
  }

  /** The part of a cyclic buffer from index `g` up to, not including, index `p`. */
  function Window<T>(d: seq<T>, g: nat, p: nat): (w: seq<T>)
    requires g < |d| && p < |d|
    ensures |w| == if g <= p then p - g else p - g + |d|
  {
    if g <= p then d[g..p] else d[g..] + d[..p]
  }

  lemma WindowPut<T>(d: seq<T>, g: nat, p: nat, c: T)
    requires g < |d| && p < |d| && |Window(d, g, p)| < |d| - 1
    ensures var q := Wrapped(p + 1, |d|); 0 <= q < |d| && Window(d[p := c], g, q) == Window(d, g, p) + [c]
  {
  }

  lemma WindowGet<T>(d: seq<T>, g: nat, p: nat)
    requires g < |d| && p < |d| && g != p
    ensures var q := Wrapped(g + 1, |d|);
      0 <= q < |d| && Window(d, g, p) != [] && Window(d, g, p)[0] == d[g] && Window(d, q, p) == Window(d, g, p)[1..]
  {
  }

  class RingBuffer {
    const data: array<byte>
    var mask: byte
    var put_ptr: byte
    var get_ptr: byte

    predicate Valid()
      reads this
    {
      IsSize(mask + 1) && data.Length == mask + 1 && put_ptr <= mask && get_ptr <= mask
    }

    /** The bytes put and not yet got, oldest first. */
    ghost function Contents(): (s: seq<byte>)
      requires Valid()
      reads this, data
    {
      Window(data[..], get_ptr, put_ptr)
    }

    /** ringbuf_init. */
    constructor (dataptr: array<byte>)
      requires IsSize(dataptr.Length)
      ensures Valid() && data == dataptr && mask == dataptr.Length - 1 && Contents() == []
    {
      data := dataptr;
      SizeBound(dataptr.Length);
      mask := dataptr.Length - 1;
      put_ptr, get_ptr := 0, 0;
    }

    /** `x & r->mask`, for a difference of indices or the index after one. */
    method Mask(x: int) returns (r: nat)
      requires Valid() && 0 <= x + mask <= 2 * mask + 1
      ensures r == Wrapped(x, mask + 1) <= mask
    {
      r := Masked(x, mask + 1);
      WrappedMod(x, mask + 1);
    }

    /** ringbuf_elements. */
    method Elements() returns (n: nat)
      requires Valid()
      ensures n == |Contents()| <= mask
    {
      n := Mask(put_ptr - get_ptr);
    }

    /** ringbuf_size. */
    method Size() returns (n: nat)
      requires Valid()
      ensures n == data.Length
    {
      n := mask + 1;
    }

    /** ringbuf_put: refused exactly when all slots but one are taken. */
    method Put(c: byte) returns (ok: bool)
      requires Valid()
      modifies this`put_ptr, data
      ensures Valid()
      ensures ok <==> |old(Contents())| < mask
      ensures Contents() == if ok then old(Contents()) + [c] else old(Contents())
    {
      ghost var d, p := data[..], put_ptr;
      var used := Mask(put_ptr - get_ptr);
      if used == mask {
        return false;
      }
      WindowPut(d, get_ptr, p, c);
      data[put_ptr] := c;
      put_ptr := Mask(put_ptr + 1);
      ok := true;
      assert data[..] == d[p := c];
    }

    /** ringbuf_get: -1 exactly when nothing is there. */
    method Get() returns (c: int)
      requires Valid()
      modifies this`get_ptr
      ensures Valid()
      ensures c == -1 <==> old(Contents()) == []
      ensures c == -1 ==> Contents() == old(Contents())
      ensures c != -1 ==> 0 <= c < 256 && c == old(Contents())[0] && Contents() == old(Contents())[1..]
    {
      ghost var d, g := data[..], get_ptr;
      c := -1;
      var used := Mask(put_ptr - get_ptr);
      if used > 0 {
        WindowGet(d, g, put_ptr);
        c := data[get_ptr];
        get_ptr := Mask(get_ptr + 1);
      }
    }
  }

  lemma WrappedMod(x: int, size: nat)
    requires size > 0 && 0 <= x + size < 3 * size
    ensures x % size == Wrapped(x, size)
  {
    ModTurn(x, size, 1);
    ModTurn(x, size, -1);
    ModSmall(Wrapped(x, size), size);
  }
}
