/** os/dev/slip.c as it runs: a serial port that slip_write fills byte by byte, and the
    interrupt and poll handlers over the static cyclic buffer. */
module Slip {
  import opened Basics
  import opened Ringbuf
  import opened SlipModel

  /** The output side of the serial port, as far as slip_arch_writeb fills it. */
  class Port {
    var sent: seq<byte>

    constructor ()
      ensures sent == []
    {
      sent := [];
    }

    /** slip_arch_writeb. */
    method Writeb(c: byte)
      modifies this
      ensures sent == old(sent) + [c]
    {
      sent := sent + [c];
    }

    /** slip_write: an END, the escaped bytes, an END. */
    method Write(ptr: array<byte>, len: nat)
      requires len <= ptr.Length && len <= 0xFFFF
      modifies this
      ensures sent == old(sent) + Frame(ptr[..len])
    {
      Writeb(END);
      var i := 0;
      while i < len
        invariant 0 <= i <= len
        invariant sent == old(sent) + [END] + Escape(ptr[..i])
      {
        var c := ptr[i];
        ghost var before := sent;
        if c == END {
          Writeb(ESC);
          c := ESC_END;
        } else if c == ESC {
          Writeb(ESC);
          c := ESC_ESC;
        }
        Writeb(c);
        assert sent == before + EscapeByte(ptr[i]);
        EscapeGrows(old(sent) + [END], ptr[..len], i);
        assert ptr[..len][..i] == ptr[..i] && ptr[..len][..i + 1] == ptr[..i + 1];
        i := i + 1;
      }
      Writeb(END);
      assert ptr[..i] == ptr[..len];
    }
  }

  /** Another byte of the payload, escaped, after `s` and those before it. */
  lemma EscapeGrows(s: seq<byte>, p: seq<byte>, i: nat)
    requires i < |p|
    ensures s + Escape(p[..i]) + EscapeByte(p[i]) == s + Escape(p[..i + 1])
  {
    EscapeConcat(p[..i], [p[i]]);
    assert Escape([p[i]]) == EscapeByte(p[i]) + Escape([]);
    assert p[..i] + [p[i]] == p[..i + 1];
  }

  class Receiver {
    var state: RxState
    var begin: nat
    var next_free: nat
    var pkt_end: nat
    var polled: bool
    const rxbuf: array<byte>

    ghost function View(): Rx
      reads this, rxbuf
    {
      Rx(state, begin, next_free, pkt_end, rxbuf[..], polled)
    }

    ghost predicate Valid()
      reads this, rxbuf
    {
      View().InBounds() && rxbuf.Length <= 0xFFFF
    }

    /** The static variables, and rxbuf_init: the receiver has nothing buffered. */
    constructor (size: nat)
      requires 1 < size <= 0xFFFF
      ensures Valid() && fresh(rxbuf) && rxbuf.Length == size
      ensures Ready(View()) && state.Ok? && !polled
    {
      rxbuf := new byte[size](_ => 0);
      begin, next_free, pkt_end := 0, 0, 0;
      state, polled := Ok, false;
    }

    /** slip_input_byte, called from the receive interrupt. */
    method InputByte(c: byte) returns (wake: int)
      requires Valid()
      modifies this, rxbuf
      ensures Valid() && (View(), wake) == Input(old(View()), c)
    {
      match state {
        case Rubbish =>
          if c == END { state := Ok; }
          return 0;
        case Esc =>
          if c != ESC_END && c != ESC_ESC {
            state := Rubbish;
            next_free := pkt_end;
            return 0;
          }
          state := Ok;
        case _ =>
      }
      if c == ESC { state := Esc; }
      wake := Store(c);
    }

    /** slip_input_byte from add_char on. */
    method Store(c: byte) returns (wake: int)
      requires Valid()
      modifies this, rxbuf
      ensures Valid() && (View(), wake) == AddChar(old(View()), c)
    {
      var cur_end := next_free;
      next_free := next_free + 1;
      if next_free == rxbuf.Length { next_free := 0; }
      if next_free == begin {
        state := Rubbish;
        next_free := pkt_end;
        return 0;
      }
      rxbuf[cur_end] := c;
      if c == END {
        if cur_end != pkt_end {
          if begin == pkt_end { pkt_end := cur_end; }
          polled := true;
          return 1;
        }
        next_free := cur_end;
      }
      wake := 0;
    }

    /** One of the unescaping loops: rxbuf[lo..hi) is appended to the `n` bytes in outbuf. */
    method Copy(lo: nat, hi: nat, outbuf: array<byte>, blen: nat, n: nat, pending: bool)
      returns (len: nat, esc: bool)
      requires lo <= hi <= rxbuf.Length && outbuf != rxbuf && n <= outbuf.Length
      requires Reach(rxbuf[lo..hi], outbuf[..n], pending, blen) <= outbuf.Length
      modifies outbuf
      ensures len <= old(Reach(rxbuf[lo..hi], outbuf[..n], pending, blen))
      ensures (outbuf[..len], esc) == Unescape(rxbuf[lo..hi], old(outbuf[..n]), pending, blen)
      ensures forall j :: old(Reach(rxbuf[lo..hi], outbuf[..n], pending, blen)) <= j < outbuf.Length ==>
        outbuf[j] == old(outbuf[j])
    {
      ghost var reach := Reach(rxbuf[lo..hi], outbuf[..n], pending, blen);
      var i := lo;
      len, esc := n, pending;
      while i < hi
        invariant lo <= i <= hi && len <= reach && Reach(rxbuf[i..hi], outbuf[..len], esc, blen) == reach
        invariant forall j :: reach <= j < outbuf.Length ==> outbuf[j] == old(outbuf[j])
        invariant Unescape(rxbuf[i..hi], outbuf[..len], esc, blen)
               == Unescape(rxbuf[lo..hi], old(outbuf[..n]), pending, blen)
      {
        assert rxbuf[i..hi][0] == rxbuf[i] && rxbuf[i..hi][1..] == rxbuf[i + 1..hi];
        if len > blen {
          len := 0;
          return;
        }
        ghost var before := outbuf[..len];
        ghost var (o, e) := DecodeByte(before, esc, rxbuf[i]);
        assert Reach(rxbuf[i + 1..hi], o, e, blen) == reach && |o| <= reach;
        if esc {
          if rxbuf[i] == ESC_ESC {
            outbuf[len] := ESC;
            len := len + 1;
          } else if rxbuf[i] == ESC_END {
            outbuf[len] := END;
            len := len + 1;
          }
          esc := false;
        } else if rxbuf[i] == ESC {
          esc := true;
        } else {
          outbuf[len] := rxbuf[i];
          len := len + 1;
        }
        assert outbuf[..len] == before || outbuf[..len] == before + [outbuf[len - 1]];
        i := i + 1;
      }
      assert rxbuf[hi..hi] == [];
    }

    /** slip_poll_handler. The buffer must hold what the poll fills, which is `blen` bytes or
        one more; the one caller gives it exactly `blen`. */
    method PollHandler(outbuf: array<byte>, blen: nat) returns (len: nat)
      requires Valid() && outbuf != rxbuf && HighWater(View(), blen) <= outbuf.Length
      modifies this, outbuf
      ensures Valid() && len <= old(HighWater(View(), blen))
      ensures (View(), outbuf[..len]) == Poll(old(View()), blen)
      ensures forall i :: old(HighWater(View(), blen)) <= i < outbuf.Length ==> outbuf[i] == old(outbuf[i])
    {
      polled := false;
      if begin == pkt_end { return 0; }
      len := CopyPacket(outbuf, blen);
      pkt_end := pkt_end + 1;
      if pkt_end == rxbuf.Length { pkt_end := 0; }
      var cur_ptr := FindNext(pkt_end, next_free);
      begin := pkt_end;
      if cur_ptr != next_free {
        pkt_end := cur_ptr;
        polled := true;
      }
    }

    /** The unescaping part of slip_poll_handler. */
    method CopyPacket(outbuf: array<byte>, blen: nat) returns (len: nat)
      requires Valid() && outbuf != rxbuf && begin != pkt_end && HighWater(View(), blen) <= outbuf.Length
      modifies outbuf
      ensures Valid() && len <= HighWater(View(), blen) && outbuf[..len] == Packet(View(), blen)
      ensures forall i :: HighWater(View(), blen) <= i < outbuf.Length ==> outbuf[i] == old(outbuf[i])
    {
      var esc: bool;
      assert outbuf[..0] == [];
      if begin < pkt_end {
        assert rxbuf[begin..pkt_end] == rxbuf[..][begin..pkt_end];
        len, esc := Copy(begin, pkt_end, outbuf, blen, 0, false);
      } else {
        assert rxbuf[begin..rxbuf.Length] == rxbuf[..][begin..];
        assert rxbuf[0..pkt_end] == rxbuf[..][..pkt_end];
        len, esc := Copy(begin, rxbuf.Length, outbuf, blen, 0, false);
        len, esc := Copy(0, pkt_end, outbuf, blen, len, esc);
      }
    }

    /** The loop that looks for one more buffered packet. */
    method FindNext(from: nat, stop: nat) returns (cur_ptr: nat)
      requires from < rxbuf.Length && stop < rxbuf.Length
      ensures cur_ptr == FindEnd(rxbuf[..], from, stop)
    {
      cur_ptr := from;
      while cur_ptr != stop && rxbuf[cur_ptr] != END
        invariant cur_ptr < rxbuf.Length
        invariant FindEnd(rxbuf[..], cur_ptr, stop) == FindEnd(rxbuf[..], from, stop)
        decreases |Window(rxbuf[..], cur_ptr, stop)|
      {
        cur_ptr := cur_ptr + 1;
        if cur_ptr == rxbuf.Length { cur_ptr := 0; }
      }
    }
  }
}
