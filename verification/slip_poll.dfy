/** What slip_poll_handler makes of a buffered frame, for payloads of every length: the limit
    `blen` is checked before the next byte only, and by each of the two loops on its own. */
module SlipPoll {
  import opened Basics
  import opened Modular
  import opened Ringbuf
  import opened SlipModel

  /** Unescaping without a limit. */
  function Decode(bs: seq<byte>, out: seq<byte>, esc: bool): (seq<byte>, bool) {
    if bs == [] then (out, esc)
    else
      var (o, e) := DecodeByte(out, esc, bs[0]);
      Decode(bs[1..], o, e)
  }

  lemma {:induction false} DecodeGrows(bs: seq<byte>, out: seq<byte>, esc: bool)
    ensures |Decode(bs, out, esc).0| >= |out|
    decreases |bs|
  {
    if bs != [] {
      var (o, e) := DecodeByte(out, esc, bs[0]);
      DecodeGrows(bs[1..], o, e);
    }
  }

  lemma {:induction false} DecodeConcat(a: seq<byte>, b: seq<byte>, out: seq<byte>, esc: bool)
    ensures var (o, e) := Decode(a, out, esc); Decode(a + b, out, esc) == Decode(b, o, e)
    decreases |a|
  {
    if a == [] {
      assert a + b == b;
    } else {
      assert (a + b)[1..] == a[1..] + b;
      var (o, e) := DecodeByte(out, esc, a[0]);
      DecodeConcat(a[1..], b, o, e);
    }
  }

  /** One payload byte, escaped and unescaped. */
  lemma DecodeOne(c: byte, f: seq<byte>, out: seq<byte>)
    ensures Decode(EscapeByte(c) + f, out, false) == Decode(f, out + [c], false)
  {
    var e := EscapeByte(c);
    assert (e + f)[0] == e[0];
    if c == END || c == ESC {
      assert (e + f)[1..] == [e[1]] + f;
      assert ([e[1]] + f)[1..] == f;
    } else {
      assert (e + f)[1..] == f;
    }
  }

  /** Decoding undoes escaping. */
  lemma {:induction false} DecodeEscape(p: seq<byte>, out: seq<byte>)
    ensures Decode(Escape(p), out, false) == (out + p, false)
    decreases |p|
  {
    if p == [] {
      assert out + p == out;
    } else {
      DecodeOne(p[0], Escape(p[1..]), out);
      DecodeEscape(p[1..], out + [p[0]]);
      assert out + [p[0]] + p[1..] == out + p;
    }
  }

  // ---- The limit ----

  /** The bytes before the last one; the loop gives up if they fill more than `blen`. */
  function Front(bs: seq<byte>): seq<byte> {
    if bs == [] then [] else bs[..|bs| - 1]
  }

  /** A loop decodes everything unless the limit was passed with bytes to come, and then it
      keeps nothing, not even a pending escape. */
  lemma {:induction false} UnescapeExact(bs: seq<byte>, out: seq<byte>, esc: bool, blen: nat)
    requires |out| <= blen + 1 && (|out| == blen + 1 ==> !esc)
    ensures Unescape(bs, out, esc, blen) ==
      if bs == [] || |Decode(Front(bs), out, esc).0| <= blen then Decode(bs, out, esc) else ([], false)
    decreases |bs|
  {
    if bs != [] {
      DecodeGrows(Front(bs), out, esc);
      if |out| <= blen {
        var (o, e) := DecodeByte(out, esc, bs[0]);
        UnescapeExact(bs[1..], o, e, blen);
        if |bs| > 1 {
          assert Front(bs)[0] == bs[0] && Front(bs)[1..] == Front(bs[1..]);
        }
      }
    }
  }

  lemma {:induction false} ReachExact(bs: seq<byte>, out: seq<byte>, esc: bool, blen: nat)
    requires |out| <= blen + 1
    ensures Reach(bs, out, esc, blen) == Min(|Decode(bs, out, esc).0|, blen + 1)
    decreases |bs|
  {
    DecodeGrows(bs, out, esc);
    if bs != [] && |out| <= blen {
      var (o, e) := DecodeByte(out, esc, bs[0]);
      ReachExact(bs[1..], o, e, blen);
    }
  }

  // ---- Cutting an escaped payload ----

  /** How many payload bytes lie whole in the first `k` escaped bytes. */
  function Fit(p: seq<byte>, k: nat): (q: nat)
    ensures q <= |p|
  {
    if p == [] || |EscapeByte(p[0])| > k then 0 else 1 + Fit(p[1..], k - |EscapeByte(p[0])|)
  }

  /** What the escaped bytes from `k` on read as by themselves: the second half of an escape
      pair that is cut in two stands for itself. */
  function TailOf(p: seq<byte>, k: nat): (t: seq<byte>)
    ensures |t| == |p| - Fit(p, k)
  {
    if p == [] || k == 0 then p
    else if |EscapeByte(p[0])| <= k then TailOf(p[1..], k - |EscapeByte(p[0])|)
    else [EscapeByte(p[0])[1]] + p[1..]
  }

  /** The number of whole payload bytes, told from lengths of escaped prefixes. */
  lemma {:induction false} FitExact(p: seq<byte>, k: nat, q: nat)
    requires q <= |p|
    ensures Fit(p, k) >= q <==> |Escape(p[..q])| <= k
    decreases q
  {
    if q > 0 {
      assert p[..q][0] == p[0] && p[..q][1..] == p[1..][..q - 1];
      if |EscapeByte(p[0])| <= k {
        FitExact(p[1..], k - |EscapeByte(p[0])|, q - 1);
      }
    }
  }

  lemma {:induction false} DecodeFit(p: seq<byte>, k: nat, out: seq<byte>)
    requires k <= |Escape(p)|
    ensures |Decode(Escape(p)[..k], out, false).0| == |out| + Fit(p, k)
    decreases |p|
  {
    if p != [] && k > 0 {
      var e, f := EscapeByte(p[0]), Escape(p[1..]);
      if |e| <= k {
        assert (e + f)[..k] == e + f[..k - |e|];
        DecodeOne(p[0], f[..k - |e|], out);
        DecodeFit(p[1..], k - |e|, out + [p[0]]);
      } else {
        assert (e + f)[..k] == [ESC];
        assert [ESC][1..] == [];
      }
    }
  }

  lemma {:induction false} DecodeTail(p: seq<byte>, k: nat)
    requires k <= |Escape(p)|
    ensures Decode(Escape(p)[k..], [], false).0 == TailOf(p, k)
    decreases |p|
  {
    if p == [] || k == 0 {
      DecodeEscape(p, []);
      assert [] + p == p && Escape(p)[0..] == Escape(p);
    } else {
      var e, f := EscapeByte(p[0]), Escape(p[1..]);
      if |e| <= k {
        assert (e + f)[k..] == f[k - |e|..];
        DecodeTail(p[1..], k - |e|);
      } else {
        DecodeHalf(p);
        assert Escape(p)[k..] == [e[1]] + f;
        DecodeEscape(p[1..], [e[1]]);
      }
    }
  }

  /** The second half of an escape pair, read by itself, and what follows. */
  lemma DecodeHalf(p: seq<byte>)
    requires p != [] && |EscapeByte(p[0])| == 2
    ensures Escape(p)[1..] == [EscapeByte(p[0])[1]] + Escape(p[1..])
    ensures forall f :: Decode([EscapeByte(p[0])[1]] + f, [], false) == Decode(f, [EscapeByte(p[0])[1]], false)
  {
    var d := EscapeByte(p[0])[1];
    forall f ensures Decode([d] + f, [], false) == Decode(f, [d], false) {
      assert ([d] + f)[1..] == f && [] + [d] == [d];
    }
  }

  // ---- A poll of one buffered frame ----

  /** What a poll hands over of the payload `p`, received from offset `b` on into a buffer of
      `size` bytes. */
  function HandedOver(p: seq<byte>, b: nat, size: nat, blen: nat): seq<byte>
    requires b < size
  {
    if |Escape(p)| + 2 > size then []
    else if |p| <= blen + 1 then p
    else if TailOnly(p, b, size, blen) then TailOf(p, size - b)
    else []
  }

  /** The frame wraps, the first loop gives up, and the second one does not: it delivers what
      lies behind the wrap as if it were a packet. */
  predicate TailOnly(p: seq<byte>, b: nat, size: nat, blen: nat)
    requires b < size
  {
    && |Escape(p)| + 2 <= size < b + |Escape(p)|
    && |p| > blen + 1
    && |Escape(p[..blen + 1])| < size - b
    && |Escape(p[..|p| - blen - 1])| <= size - b
  }

  /** A complete frame is buffered and nothing else. */
  predicate Holds(r: Rx, p: seq<byte>) {
    && r.InBounds() && r.state.Ok? && r.begin != r.pkt_end
    && r.next_free == Inc(r.pkt_end, |r.buf|) && Window(r.buf, r.begin, r.pkt_end) == Escape(p)
  }

  /** A frame that does not wrap, or the part up to the wrap. */
  lemma FirstLoop(p: seq<byte>, k: nat, blen: nat)
    requires 0 < k <= |Escape(p)|
    ensures Unescape(Escape(p)[..k], [], false, blen) ==
      if Fit(p, k - 1) <= blen then Decode(Escape(p)[..k], [], false) else ([], false)
    ensures Reach(Escape(p)[..k], [], false, blen) == Min(Fit(p, k), blen + 1)
  {
    var a := Escape(p)[..k];
    assert Front(a) == Escape(p)[..k - 1];
    UnescapeExact(a, [], false, blen);
    ReachExact(a, [], false, blen);
    DecodeFit(p, k - 1, []);
    DecodeFit(p, k, []);
  }

  lemma FitAll(p: seq<byte>, k: nat)
    ensures Fit(p, k) == |p| <==> |Escape(p)| <= k
  {
    FitExact(p, k, |p|);
    assert p[..|p|] == p;
  }

  lemma PollUnwrapped(r: Rx, p: seq<byte>, blen: nat)
    requires Holds(r, p) && r.begin < r.pkt_end
    ensures Packet(r, blen) == if |p| <= blen + 1 then p else []
    ensures HighWater(r, blen) == Min(|p|, blen + 1)
  {
    var e := Escape(p);
    assert e[..|e|] == e == r.buf[r.begin..r.pkt_end];
    FirstLoop(p, |e|, blen);
    LastByteStores(p);
    FitAll(p, |e|);
    DecodeEscape(p, []);
    assert [] + p == p;
  }

  /** The last escaped byte completes the last payload byte. */
  lemma LastByteStores(p: seq<byte>)
    requires p != []
    ensures |Escape(p)| > 0 && Fit(p, |Escape(p)| - 1) == |p| - 1
  {
    var n := |p| - 1;
    assert p == p[..n] + [p[n]];
    EscapeConcat(p[..n], [p[n]]);
    assert Escape([p[n]]) == EscapeByte(p[n]) + Escape([]);
    FitExact(p, |Escape(p)| - 1, n);
    FitAll(p, |Escape(p)| - 1);
  }

  /** A payload decoded in two parts. */
  lemma DecodeParts(p: seq<byte>, k: nat)
    requires k <= |Escape(p)|
    ensures var (o, esc) := Decode(Escape(p)[..k], [], false);
      |o| == Fit(p, k) && Decode(Escape(p)[k..], o, esc) == (p, false)
  {
    var e := Escape(p);
    DecodeConcat(e[..k], e[k..], [], false);
    DecodeEscape(p, []);
    assert [] + p == p && e[..k] + e[k..] == e;
    DecodeFit(p, k, []);
  }

  /** All but the last byte of the second part. */
  lemma DecodeAlmost(p: seq<byte>, k: nat)
    requires k < |Escape(p)|
    ensures var (o, esc) := Decode(Escape(p)[..k], [], false);
      |Decode(Front(Escape(p)[k..]), o, esc).0| == |p| - 1
  {
    var e := Escape(p);
    var a, b := e[..k], e[k..];
    assert a + Front(b) == e[..|e| - 1];
    DecodeConcat(a, Front(b), [], false);
    DecodeFit(p, |e| - 1, []);
    LastByteStores(p);
  }

  /** The second loop, after the first one has kept what it decoded. */
  lemma SecondLoop(p: seq<byte>, k: nat, blen: nat)
    requires 0 < k <= |Escape(p)| && Fit(p, k - 1) <= blen
    ensures var (o, esc) := Decode(Escape(p)[..k], [], false);
      && Unescape(Escape(p)[k..], o, esc, blen).0 == (if |p| <= blen + 1 then p else [])
      && Reach(Escape(p)[k..], o, esc, blen) == Min(|p|, blen + 1)
  {
    var b := Escape(p)[k..];
    var (o, esc) := Decode(Escape(p)[..k], [], false);
    DecodeParts(p, k);
    AtLimit(p, k, blen);
    UnescapeExact(b, o, esc, blen);
    ReachExact(b, o, esc, blen);
    if b != [] {
      DecodeAlmost(p, k);
    } else {
      OneMore(p, k);
      FitAll(p, k);
    }
  }

  /** A further escaped byte completes at most one payload byte. */
  lemma {:induction false} OneMore(p: seq<byte>, k: nat)
    requires k > 0
    ensures Fit(p, k - 1) <= Fit(p, k) <= Fit(p, k - 1) + 1
    decreases |p|
  {
    if p != [] && |EscapeByte(p[0])| < k {
      OneMore(p[1..], k - |EscapeByte(p[0])|);
    }
  }

  /** A byte that completes a payload byte leaves no escape pending. */
  lemma AtLimit(p: seq<byte>, k: nat, blen: nat)
    requires 0 < k <= |Escape(p)| && Fit(p, k - 1) <= blen
    ensures var (o, esc) := Decode(Escape(p)[..k], [], false);
      |o| <= blen + 1 && (|o| == blen + 1 ==> !esc)
  {
    var e := Escape(p);
    var (o, esc) := Decode(e[..k - 1], [], false);
    DecodeConcat(e[..k - 1], [e[k - 1]], [], false);
    assert e[..k] == e[..k - 1] + [e[k - 1]];
    DecodeFit(p, k - 1, []);
    assert [e[k - 1]][1..] == [];
    assert Decode([e[k - 1]], o, esc) == DecodeByte(o, esc, e[k - 1]);
  }

  /** All but the last byte of a tail completes all but the last of what it decodes to. */
  lemma {:induction false} FrontOfTail(p: seq<byte>, k: nat)
    requires k < |Escape(p)|
    ensures |Decode(Front(Escape(p)[k..]), [], false).0| == |TailOf(p, k)| - 1
    decreases |p|
  {
    var e, f := EscapeByte(p[0]), Escape(p[1..]);
    if k == 0 {
      assert Escape(p)[0..] == Escape(p);
      LastByteStores(p);
      DecodeFit(p, |Escape(p)| - 1, []);
    } else if |e| <= k {
      assert Escape(p)[k..] == f[k - |e|..];
      FrontOfTail(p[1..], k - |e|);
    } else {
      FrontOfHalf(p);
    }
  }

  lemma FrontOfHalf(p: seq<byte>)
    requires p != [] && |EscapeByte(p[0])| == 2
    ensures |Decode(Front(Escape(p)[1..]), [], false).0| == |p| - 1
  {
    var d, f := EscapeByte(p[0])[1], Escape(p[1..]);
    DecodeHalf(p);
    assert p[1..] != [] ==> |f| >= |EscapeByte(p[1..][0])| > 0;
    if f == [] {
      assert Front([d] + f) == [];
    } else {
      assert Front([d] + f) == [d] + Front(f);
      LastByteStores(p[1..]);
      DecodeFit(p[1..], |f| - 1, [d]);
    }
  }

  /** After the first loop gave up, the second one starts from an empty buffer. */
  lemma AfterOverrun(p: seq<byte>, k: nat, blen: nat)
    requires k <= |Escape(p)|
    ensures Unescape(Escape(p)[k..], [], false, blen).0 ==
      if |p| - Fit(p, k) <= blen + 1 then TailOf(p, k) else []
    ensures Reach(Escape(p)[k..], [], false, blen) <= blen + 1
  {
    var b := Escape(p)[k..];
    UnescapeExact(b, [], false, blen);
    ReachExact(b, [], false, blen);
    DecodeTail(p, k);
    if b != [] {
      FrontOfTail(p, k);
    }
  }

  /** What the two loops leave of a frame that wraps, told from the bytes each completes. */
  function Kept(p: seq<byte>, k: nat, blen: nat): seq<byte>
    requires k > 0
  {
    if |p| <= blen + 1 then p
    else if Fit(p, k - 1) > blen && |p| - Fit(p, k) <= blen + 1 then TailOf(p, k)
    else []
  }

  /** The two loops of a frame that wraps, `k` of whose bytes lie before the wrap. */
  lemma TwoLoops(p: seq<byte>, k: nat, blen: nat)
    requires 0 < k <= |Escape(p)|
    ensures var (o, esc) := Unescape(Escape(p)[..k], [], false, blen);
      && Unescape(Escape(p)[k..], o, esc, blen).0 == Kept(p, k, blen)
      && Max(Reach(Escape(p)[..k], [], false, blen), Reach(Escape(p)[k..], o, esc, blen)) == Min(|p|, blen + 1)
  {
    FirstLoop(p, k, blen);
    OneMore(p, k);
    FitAll(p, k - 1);
    if Fit(p, k - 1) <= blen {
      SecondLoop(p, k, blen);
    } else {
      AfterOverrun(p, k, blen);
    }
  }

  lemma PollWrapped(r: Rx, p: seq<byte>, blen: nat)
    requires Holds(r, p) && r.begin > r.pkt_end && |Escape(p)| + 2 <= |r.buf|
    ensures Packet(r, blen) == HandedOver(p, r.begin, |r.buf|, blen)
    ensures HighWater(r, blen) == Min(|p|, blen + 1)
  {
    WindowParts(r, p);
    TwoLoops(p, |r.buf| - r.begin, blen);
    HandedOverWrapped(p, r.begin, |r.buf|, blen);
  }

  lemma WindowParts(r: Rx, p: seq<byte>)
    requires Holds(r, p) && r.begin > r.pkt_end
    ensures var k := |r.buf| - r.begin;
      k <= |Escape(p)| && r.buf[r.begin..] == Escape(p)[..k] && r.buf[..r.pkt_end] == Escape(p)[k..]
  {
    var e, k := Escape(p), |r.buf| - r.begin;
    assert e == r.buf[r.begin..] + r.buf[..r.pkt_end];
  }

  /** The guards of HandedOver are those of the two loops. */
  lemma HandedOverWrapped(p: seq<byte>, b: nat, size: nat, blen: nat)
    requires b < size <= b + |Escape(p)| && |Escape(p)| + 2 <= size
    ensures HandedOver(p, b, size, blen) == Kept(p, size - b, blen)
  {
    if |p| > blen + 1 {
      TailGuards(p, size - b, blen);
      FitAll(p, size - b);
      assert |Escape(p)| == size - b ==> TailOf(p, size - b) == [];
    }
  }

  lemma TailGuards(p: seq<byte>, k: nat, blen: nat)
    requires |p| > blen + 1 && k > 0
    ensures Fit(p, k - 1) > blen <==> |Escape(p[..blen + 1])| < k
    ensures |p| - Fit(p, k) <= blen + 1 <==> |Escape(p[..|p| - blen - 1])| <= k
  {
    FitExact(p, k - 1, blen + 1);
    FitExact(p, k, |p| - blen - 1);
  }

  /** Where the receiver begins after a packet and a poll. */
  function NextOffset(b: nat, p: seq<byte>, size: nat): (n: nat)
    requires b < size
    ensures n < size
  {
    if p != [] && |Escape(p)| + 2 <= size then (b + |Escape(p)| + 1) % size else b
  }

  /** A poll of a complete frame, exactly, and the buffer is empty again. */
  lemma PollDelivers(r: Rx, p: seq<byte>, blen: nat)
    requires Holds(r, p) && |Escape(p)| + 2 <= |r.buf|
    ensures var (t, out) := Poll(r, blen);
      out == HandedOver(p, r.begin, |r.buf|, blen) && Ready(t) && t.state.Ok? && !t.polled
      && t.begin == NextOffset(r.begin, p, |r.buf|)
    ensures HighWater(r, blen) == Min(|p|, blen + 1)
  {
    NextBegin(r, p);
    if r.begin < r.pkt_end {
      PollUnwrapped(r, p, blen);
    } else {
      PollWrapped(r, p, blen);
    }
  }

  lemma NextBegin(r: Rx, p: seq<byte>)
    requires Holds(r, p) && |Escape(p)| + 2 <= |r.buf|
    ensures r.next_free == NextOffset(r.begin, p, |r.buf|)
  {
    var x, s := r.begin + |Escape(p)| + 1, |r.buf|;
    if x < s { ModSmall(x, s); } else { ModUnique(x, s, 1, x - s); }
  }

  /** Main result: write any payload, feed it to a receiver that has nothing buffered, poll.
      What comes out is known exactly, the receiver is ready again, and the poll fills as many
      bytes of the output buffer as the payload has, but at most blen + 1. */
  lemma RoundTrip(r: Rx, p: seq<byte>, blen: nat)
    requires Ready(r) && !r.polled && |r.buf| > 1
    ensures var u := Feed(r, Frame(p)); var (t, out) := Poll(u, blen);
      && Ready(t) && !t.polled && |t.buf| == |r.buf| && t.begin == NextOffset(r.begin, p, |r.buf|)
      && out == HandedOver(p, r.begin, |r.buf|, blen)
      && HighWater(u, blen) == if |Escape(p)| + 2 <= |r.buf| then Min(|p|, blen + 1) else 0
  {
    FrameReceived(r, p);
    var u := Feed(r, Frame(p));
    if p != [] && |Escape(p)| + 2 <= |r.buf| {
      PollDelivers(u, p, blen);
    } else {
      PollIdle(u, blen);
    }
  }

  lemma PollIdle(r: Rx, blen: nat)
    requires Ready(r) && !r.polled
    ensures Poll(r, blen) == (r, []) && HighWater(r, blen) == 0
  {
  }

  /** The payload itself comes out exactly if it is empty, or fits the receive buffer and is
      at most one byte longer than the limit. */
  lemma IntactExactly(p: seq<byte>, b: nat, size: nat, blen: nat)
    requires b < size
    ensures HandedOver(p, b, size, blen) == p <==> p == [] || (|Escape(p)| + 2 <= size && |p| <= blen + 1)
  {
    if TailOnly(p, b, size, blen) {
      TailGuards(p, size - b, blen);
      OneMore(p, size - b);
    }
  }

  /** Something that was never sent comes out exactly when only the tail is delivered. */
  lemma PayloadOrNothingExactly(p: seq<byte>, b: nat, size: nat, blen: nat)
    requires b < size
    ensures HandedOver(p, b, size, blen) == p || HandedOver(p, b, size, blen) == [] <==> !TailOnly(p, b, size, blen)
  {
    if TailOnly(p, b, size, blen) {
      TailGuards(p, size - b, blen);
      OneMore(p, size - b);
      FitAll(p, size - b);
    }
  }

  /** The poll stays inside a buffer of `blen` bytes exactly if the payload does, or if the
      frame did not fit the receive buffer. */
  lemma IndexBlenExactly(r: Rx, p: seq<byte>, blen: nat)
    requires Ready(r) && !r.polled && |r.buf| > 1
    ensures HighWater(Feed(r, Frame(p)), blen) > blen <==> |Escape(p)| + 2 <= |r.buf| && |p| > blen
  {
    RoundTrip(r, p, blen);
  }

  // ---- Two inputs ----

  predicate Plain(p: seq<byte>) {
    END !in p && ESC !in p
  }

  lemma {:induction false} PlainEscape(p: seq<byte>, k: nat)
    requires Plain(p)
    ensures Escape(p) == p
    ensures k <= |p| ==> TailOf(p, k) == p[k..]
    decreases |p|
  {
    if p != [] {
      assert p[0] in p && forall c :: c in p[1..] ==> c in p;
      assert EscapeByte(p[0]) == [p[0]] && [p[0]] + p[1..] == p;
      PlainEscape(p[1..], if k > 0 then k - 1 else 0);
      PlainTail(p, k);
    } else {
      assert p[0..] == p;
    }
  }

  lemma PlainTail(p: seq<byte>, k: nat)
    requires p != [] && EscapeByte(p[0]) == [p[0]]
    requires 0 < k <= |p| ==> TailOf(p[1..], k - 1) == p[1..][k - 1..]
    ensures k <= |p| ==> TailOf(p, k) == p[k..]
  {
    assert p[0..] == p;
    if 0 < k <= |p| { assert p[1..][k - 1..] == p[k..]; }
  }

  /** A frame of blen + 1 ordinary bytes that does not wrap comes out whole, although the
      caller asked for at most blen bytes. */
  lemma OneByteTooMany(r: Rx, p: seq<byte>, blen: nat)
    requires Ready(r) && !r.polled && r.begin == 0 && |r.buf| == blen + 16
    requires Plain(p) && |p| == blen + 1
    ensures Poll(Feed(r, Frame(p)), blen).1 == p && HighWater(Feed(r, Frame(p)), blen) == blen + 1
  {
    RoundTrip(r, p, blen);
    PlainEscape(p, 0);
  }

  /** 30 ordinary bytes that wrap after the first 24 of them, under a limit of 20: the poll
      delivers the last 6 as a packet. */
  lemma TailDelivered(r: Rx, p: seq<byte>)
    requires Ready(r) && !r.polled && r.begin == 12 && |r.buf| == 36
    requires Plain(p) && |p| == 30
    ensures Poll(Feed(r, Frame(p)), 20).1 == p[24..]
  {
    RoundTrip(r, p, 20);
    PlainEscape(p, 24);
    PlainPrefix(p, 21);
    PlainPrefix(p, 9);
  }

  lemma PlainPrefix(p: seq<byte>, q: nat)
    requires Plain(p) && q <= |p|
    ensures Escape(p[..q]) == p[..q]
  {
    assert forall c :: c in p[..q] ==> c in p;
    PlainEscape(p[..q], 0);
  }

  // ---- Sessions ----

  /** What the receiver hands over when each packet is followed by a poll. */
  function Session(r: Rx, ps: seq<seq<byte>>, blen: nat): seq<seq<byte>>
    requires r.InBounds()
    decreases |ps|
  {
    if ps == [] then []
    else
      var (t, out) := Poll(Feed(r, Frame(ps[0])), blen);
      [out] + Session(t, ps[1..], blen)
  }

  /** Where in the cyclic buffer the i-th packet begins. */
  function OffsetOf(b: nat, ps: seq<seq<byte>>, i: nat, size: nat): (n: nat)
    requires b < size && i <= |ps|
    ensures n < size
    decreases i
  {
    if i == 0 then b else NextOffset(OffsetOf(b, ps, i - 1, size), ps[i - 1], size)
  }

  lemma {:induction false} OffsetTail(b: nat, ps: seq<seq<byte>>, i: nat, size: nat)
    requires b < size && 0 < i <= |ps|
    ensures OffsetOf(b, ps, i, size) == OffsetOf(NextOffset(b, ps[0], size), ps[1..], i - 1, size)
    decreases i
  {
    if i > 1 {
      OffsetTail(b, ps, i - 1, size);
    }
  }

  /** Any number of packets of any length: what each poll hands over depends on its packet
      and on where that begins, and on nothing that went before. */
  lemma {:induction false} SessionExact(r: Rx, ps: seq<seq<byte>>, blen: nat)
    requires Ready(r) && !r.polled && |r.buf| > 1
    ensures |Session(r, ps, blen)| == |ps|
    ensures forall i :: 0 <= i < |ps| ==>
      Session(r, ps, blen)[i] == HandedOver(ps[i], OffsetOf(r.begin, ps, i, |r.buf|), |r.buf|, blen)
    decreases |ps|
  {
    if ps != [] {
      RoundTrip(r, ps[0], blen);
      var (t, out) := Poll(Feed(r, Frame(ps[0])), blen);
      SessionExact(t, ps[1..], blen);
      forall i | 0 <= i < |ps|
        ensures Session(r, ps, blen)[i] == HandedOver(ps[i], OffsetOf(r.begin, ps, i, |r.buf|), |r.buf|, blen)
      {
        if i > 0 {
          OffsetTail(r.begin, ps, i, |r.buf|);
        }
      }
    }
  }

  /** Every packet that fits the receive buffer and the limit arrives unchanged and in order,
      wherever in the cyclic buffer it lies and whatever was dropped before it. */
  lemma SessionDelivers(r: Rx, ps: seq<seq<byte>>, blen: nat, i: nat)
    requires Ready(r) && !r.polled && |r.buf| > 1 && i < |ps|
    ensures |Session(r, ps, blen)| == |ps|
    ensures Session(r, ps, blen)[i] == ps[i] <==> ps[i] == [] || (|Escape(ps[i])| + 2 <= |r.buf| && |ps[i]| <= blen + 1)
  {
    SessionExact(r, ps, blen);
    IntactExactly(ps[i], OffsetOf(r.begin, ps, i, |r.buf|), |r.buf|, blen);
  }
}
