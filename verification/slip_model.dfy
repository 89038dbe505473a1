/** The SLIP codec of os/dev/slip.c on values: what is written for a packet, what one
    received byte does to the cyclic buffer, and what a poll takes out of it. */
module SlipModel {
  import opened Basics
  import opened Ringbuf

  /* SLIP_END, SLIP_ESC, SLIP_ESC_END and SLIP_ESC_ESC, octal in the source. */
  const END: byte := 192
  const ESC: byte := 219
  const ESC_END: byte := 220
  const ESC_ESC: byte := 221

  function EscapeByte(c: byte): seq<byte> {
    if c == END then [ESC, ESC_END] else if c == ESC then [ESC, ESC_ESC] else [c]
  }

  function Escape(p: seq<byte>): seq<byte> {
    if p == [] then [] else EscapeByte(p[0]) + Escape(p[1..])
  }

  lemma {:induction false} EscapeConcat(p: seq<byte>, q: seq<byte>)
    ensures Escape(p + q) == Escape(p) + Escape(q)
    decreases |p|
  {
    if p == [] {
      assert p + q == q;
    } else {
      assert (p + q)[1..] == p[1..] + q;
      EscapeConcat(p[1..], q);
    }
  }

  /** What slip_write sends. */
  function Frame(p: seq<byte>): seq<byte> {
    [END] + Escape(p) + [END]
  }

  datatype RxState = TwoPackets | Ok | Esc | Rubbish

  /** The static variables of the receiver; `polled` is a pending process_poll. */
  datatype Rx = Rx(state: RxState, begin: nat, next_free: nat, pkt_end: nat, buf: seq<byte>, polled: bool) {
    predicate InBounds() {
      begin < |buf| && next_free < |buf| && pkt_end < |buf|
    }
  }

  function Inc(i: nat, size: nat): nat {
    if i + 1 == size then 0 else i + 1
  }

  /** slip_input_byte from the label add_char on. */
  function AddChar(r: Rx, c: byte): (Rx, int)
    requires r.InBounds()
  {
    var next := Inc(r.next_free, |r.buf|);
    if next == r.begin then (r.(state := Rubbish, next_free := r.pkt_end), 0)
    else
      var s := r.(next_free := next, buf := r.buf[r.next_free := c]);
      if c != END then (s, 0)
      else if r.next_free != r.pkt_end then
        (s.(pkt_end := if r.begin == r.pkt_end then r.next_free else r.pkt_end, polled := true), 1)
      else (s.(next_free := r.next_free), 0)
  }

  /** slip_input_byte. */
  function Input(r: Rx, c: byte): (t: (Rx, int))
    requires r.InBounds()
    ensures t.0.InBounds() && |t.0.buf| == |r.buf|
  {
    match r.state
    case Rubbish => (if c == END then r.(state := Ok) else r, 0)
    case Esc =>
      if c != ESC_END && c != ESC_ESC then (r.(state := Rubbish, next_free := r.pkt_end), 0)
      else AddChar(r.(state := Ok), c)
    case _ => AddChar(if c == ESC then r.(state := Esc) else r, c)
  }

  /** One byte of the unescaping loops: the bytes stored so far and a pending escape. */
  function DecodeByte(out: seq<byte>, esc: bool, b: byte): (seq<byte>, bool) {
    if esc then
      (if b == ESC_ESC then out + [ESC] else if b == ESC_END then out + [END] else out, false)
    else if b == ESC then (out, true)
    else (out + [b], false)
  }

  /** An unescaping loop of slip_poll_handler, which gives up once more than `blen` bytes
      have been stored. */
  function Unescape(bs: seq<byte>, out: seq<byte>, esc: bool, blen: nat): (seq<byte>, bool) {
    if bs == [] then (out, esc)
    else if |out| > blen then ([], esc)
    else
      var (o, e) := DecodeByte(out, esc, bs[0]);
      Unescape(bs[1..], o, e, blen)
  }

  /** The bytes copied out: one loop, or two when the packet wraps. */
  function Packet(r: Rx, blen: nat): seq<byte>
    requires r.InBounds()
  {
    if r.begin < r.pkt_end then Unescape(r.buf[r.begin..r.pkt_end], [], false, blen).0
    else
      var (o, e) := Unescape(r.buf[r.begin..], [], false, blen);
      Unescape(r.buf[..r.pkt_end], o, e, blen).0
  }

  /** How many bytes of the output buffer an unescaping loop has filled when it ends. */
  function Reach(bs: seq<byte>, out: seq<byte>, esc: bool, blen: nat): (n: nat)
    ensures n >= |out|
  {
    if bs == [] || |out| > blen then |out|
    else
      var (o, e) := DecodeByte(out, esc, bs[0]);
      Reach(bs[1..], o, e, blen)
  }

  /** How many bytes of the output buffer a poll writes: it touches the indices below. */
  function HighWater(r: Rx, blen: nat): nat
    requires r.InBounds()
  {
    if r.begin == r.pkt_end then 0
    else if r.begin < r.pkt_end then Reach(r.buf[r.begin..r.pkt_end], [], false, blen)
    else
      var (o, e) := Unescape(r.buf[r.begin..], [], false, blen);
      Max(Reach(r.buf[r.begin..], [], false, blen), Reach(r.buf[..r.pkt_end], o, e, blen))
  }

  /** The search for a further END in [cur, stop); `stop` itself when there is none. */
  function FindEnd(buf: seq<byte>, cur: nat, stop: nat): (i: nat)
    requires cur < |buf| && stop < |buf|
    ensures i < |buf|
    decreases |Window(buf, cur, stop)|
  {
    if cur == stop || buf[cur] == END then cur else FindEnd(buf, Inc(cur, |buf|), stop)
  }

  /** slip_poll_handler. */
  function Poll(r: Rx, blen: nat): (t: (Rx, seq<byte>))
    requires r.InBounds()
    ensures t.0.InBounds() && |t.0.buf| == |r.buf|
  {
    var s := r.(polled := false);
    if r.begin == r.pkt_end then (s, [])
    else
      var pkt := Inc(r.pkt_end, |r.buf|);
      var cur := FindEnd(r.buf, pkt, r.next_free);
      (if cur != r.next_free then s.(begin := pkt, pkt_end := cur, polled := true)
       else s.(begin := pkt, pkt_end := pkt), Packet(r, blen))
  }

  function Feed(r: Rx, bs: seq<byte>): (t: Rx)
    requires r.InBounds()
    ensures t.InBounds() && |t.buf| == |r.buf|
    decreases |bs|
  {
    if bs == [] then r else Feed(Input(r, bs[0]).0, bs[1..])
  }

  lemma {:induction false} FeedConcat(r: Rx, a: seq<byte>, b: seq<byte>)
    requires r.InBounds()
    ensures Feed(r, a + b) == Feed(Feed(r, a), b)
    decreases |a|
  {
    if a == [] {
      assert a + b == b;
    } else {
      assert (a + b)[1..] == a[1..] + b;
      FeedConcat(Input(r, a[0]).0, a[1..], b);
    }
  }

  /** Nothing is buffered. A receiver that overflowed on the closing END of a frame is in
      this state too: it skips to the END that opens the next one. */
  predicate Ready(r: Rx) {
    r.InBounds() && r.begin == r.pkt_end == r.next_free && (r.state.Ok? || r.state.Rubbish?)
  }

  /** The receiver has the bytes `w` of a frame so far and none before. */
  predicate Receiving(r: Rx, b: nat, w: seq<byte>) {
    && r.InBounds() && r.begin == r.pkt_end == b
    && Window(r.buf, b, r.next_free) == w
  }

  /** The closing test `next_free == begin` holds exactly when all slots but one are used. */
  lemma FullWhen(d: seq<byte>, g: nat, p: nat)
    requires g < |d| && p < |d|
    ensures Inc(p, |d|) == Wrapped(p + 1, |d|)
    ensures Inc(p, |d|) == g <==> |Window(d, g, p)| == |d| - 1
  {
  }

  lemma AddCharStores(r: Rx, b: nat, w: seq<byte>, c: byte)
    requires Receiving(r, b, w) && c != END
    ensures |w| == |r.buf| - 1 ==> AddChar(r, c).0 == r.(state := Rubbish, next_free := b)
    ensures |w| < |r.buf| - 1 ==>
      Receiving(AddChar(r, c).0, b, w + [c]) && AddChar(r, c).0.state == r.state
      && AddChar(r, c).0.polled == r.polled
  {
    FullWhen(r.buf, r.begin, r.next_free);
    if |w| < |r.buf| - 1 {
      WindowPut(r.buf, b, r.next_free, c);
    }
  }

  /** The bytes `e` have been added to `w`, or they did not fit and all was dropped. */
  predicate StoredOrDropped(r: Rx, t: Rx, b: nat, w: seq<byte>, e: seq<byte>) {
    if |w| + |e| < |r.buf| then Receiving(t, b, w + e) && t.state.Ok? && t.polled == r.polled
    else Dropping(t, b, r.polled)
  }

  /** One payload byte, escaped, goes into the buffer, or the buffer overflows. */
  lemma ByteStored(r: Rx, b: nat, w: seq<byte>, c: byte)
    requires Receiving(r, b, w) && r.state.Ok?
    ensures StoredOrDropped(r, Feed(r, EscapeByte(c)), b, w, EscapeByte(c))
  {
    if c != END && c != ESC {
      AddCharStores(r, b, w, c);
      assert Feed(r, [c]) == Feed(Input(r, c).0, []);
    } else {
      var d := if c == END then ESC_END else ESC_ESC;
      var r1 := r.(state := Esc);
      AddCharStores(r1, b, w, ESC);
      var t1 := Input(r, ESC).0;
      assert [ESC, d][1..] == [d];
      assert Feed(r, [ESC, d]) == Feed(t1, [d]) == Feed(Input(t1, d).0, []);
      if |w| < |r.buf| - 1 {
        AddCharStores(t1.(state := Ok), b, w + [ESC], d);
        assert w + [ESC] + [d] == w + [ESC, d];
      }
    }
  }

  /** Out of step after an overflow, waiting for an END. */
  predicate Dropping(r: Rx, b: nat, polled: bool) {
    r.InBounds() && r.begin == r.pkt_end == r.next_free == b && r.state.Rubbish? && r.polled == polled
  }

  lemma {:induction false} DroppingSkips(r: Rx, b: nat, bs: seq<byte>)
    requires Dropping(r, b, r.polled) && END !in bs
    ensures Feed(r, bs) == r
    decreases |bs|
  {
    if bs != [] {
      assert bs[0] in bs;
      DroppingSkips(Input(r, bs[0]).0, b, bs[1..]);
    }
  }

  lemma {:induction false} EscapeHasNoEnd(p: seq<byte>)
    ensures END !in Escape(p)
    decreases |p|
  {
    if p != [] { EscapeHasNoEnd(p[1..]); }
  }

  /** A whole escaped payload is stored, or somewhere in it the buffer overflows. */
  lemma {:induction false} PayloadStored(r: Rx, b: nat, w: seq<byte>, p: seq<byte>)
    requires Receiving(r, b, w) && r.state.Ok?
    ensures StoredOrDropped(r, Feed(r, Escape(p)), b, w, Escape(p))
    decreases |p|
  {
    if p == [] {
      assert w + [] == w;
    } else {
      var e, f := EscapeByte(p[0]), Escape(p[1..]);
      var t := Feed(r, e);
      ByteStored(r, b, w, p[0]);
      FeedConcat(r, e, f);
      assert Feed(r, Escape(p)) == Feed(t, f);
      if |w| + |e| < |r.buf| {
        PayloadStored(t, b, w + e, p[1..]);
        JoinStored(r, t, b, w, e, f);
      } else {
        EscapeHasNoEnd(p[1..]);
        DroppingSkips(t, b, f);
      }
    }
  }

  lemma JoinStored(r: Rx, t: Rx, b: nat, w: seq<byte>, e: seq<byte>, f: seq<byte>)
    requires t.InBounds() && |t.buf| == |r.buf| && t.polled == r.polled
    requires StoredOrDropped(t, Feed(t, f), b, w + e, f)
    ensures StoredOrDropped(r, Feed(t, f), b, w, e + f)
  {
    assert w + e + f == w + (e + f);
  }

  /** The closing END of a frame whose bytes are all in the buffer. */
  lemma FrameClosed(r: Rx, b: nat, w: seq<byte>)
    requires Receiving(r, b, w) && r.state.Ok?
    ensures var t := Input(r, END).0;
      if |w| == |r.buf| - 1 then Dropping(t, b, r.polled)
      else if w == [] then Ready(t) && t.state.Ok? && t.begin == b && t.polled == r.polled
      else
        && t.InBounds() && t.state.Ok? && t.polled && t.begin == b && t.pkt_end != b
        && t.next_free == Inc(t.pkt_end, |t.buf|) && Window(t.buf, b, t.pkt_end) == w
  {
  }

  // ---- Any bytes between two ENDs ----

  /** The bytes are what some payload is escaped to. */
  ghost predicate IsEscaped(w: seq<byte>) {
    exists p :: Escape(p) == w
  }

  /** A string is an escaped payload exactly if what follows its first byte, or its first
      escape pair, is one. */
  lemma EscapedTail(x: byte, w: seq<byte>)
    ensures IsEscaped(EscapeByte(x) + w) <==> IsEscaped(w)
  {
    var e := EscapeByte(x);
    if IsEscaped(w) {
      var p :| Escape(p) == w;
      assert ([x] + p)[1..] == p;
      assert Escape([x] + p) == e + w;
    }
    if IsEscaped(e + w) {
      var p :| Escape(p) == e + w;
      HeadTold(x, w, p);
      assert Escape(p[1..]) == w;
    }
  }

  lemma HeadTold(x: byte, w: seq<byte>, p: seq<byte>)
    requires Escape(p) == EscapeByte(x) + w
    ensures p != [] && p[0] == x && Escape(p[1..]) == w
  {
    var e := EscapeByte(x);
    assert Escape(p)[0] == e[0];
    var f := EscapeByte(p[0]);
    assert f[0] == e[0];
    if |e| == 2 { assert Escape(p)[1] == e[1] == f[1]; }
    assert Escape(p) == f + Escape(p[1..]);
    assert Escape(p)[|e|..] == w && (f + Escape(p[1..]))[|f|..] == Escape(p[1..]);
  }

  /** An escape byte must be followed by one of the two bytes it can introduce. */
  lemma BadEscape(w: seq<byte>)
    requires w != [] && w[0] == ESC && (|w| == 1 || (w[1] != ESC_END && w[1] != ESC_ESC))
    ensures !IsEscaped(w)
  {
    forall p ensures Escape(p) != w {
      if p != [] { assert Escape(p)[0] == EscapeByte(p[0])[0]; }
    }
  }

  /** Bytes that are no escaped payload end in the middle of an escape, or have been dropped. */
  predicate Failed(t: Rx, b: nat, polled: bool) {
    || Dropping(t, b, polled)
    || (t.InBounds() && t.begin == t.pkt_end == b && t.state.Esc? && t.polled == polled)
  }

  lemma {:induction false} BytesRejected(r: Rx, b: nat, v: seq<byte>, w: seq<byte>)
    requires Receiving(r, b, v) && r.state.Ok? && END !in w && !IsEscaped(w)
    ensures Failed(Feed(r, w), b, r.polled)
    decreases |w|, 0
  {
    assert Escape([]) == [];
    if w[0] != ESC {
      assert w[0] in w;
      RejectedTail(r, b, v, w[0], w[1..]);
      assert EscapeByte(w[0]) + w[1..] == w;
    } else if |w| > 1 && (w[1] == ESC_END || w[1] == ESC_ESC) {
      var x := if w[1] == ESC_END then END else ESC;
      assert EscapeByte(x) + w[2..] == w;
      RejectedTail(r, b, v, x, w[2..]);
    } else {
      RejectedEscape(r, b, v, w);
    }
  }

  lemma {:induction false} RejectedTail(r: Rx, b: nat, v: seq<byte>, x: byte, w: seq<byte>)
    requires Receiving(r, b, v) && r.state.Ok? && END !in w && !IsEscaped(EscapeByte(x) + w)
    ensures Failed(Feed(r, EscapeByte(x) + w), b, r.polled)
    decreases |w|, 1
  {
    var e := EscapeByte(x);
    ByteStored(r, b, v, x);
    FeedConcat(r, e, w);
    EscapedTail(x, w);
    var t := Feed(r, e);
    if |v| + |e| < |r.buf| {
      BytesRejected(t, b, v + e, w);
    } else {
      DroppingSkips(t, b, w);
    }
  }

  lemma RejectedEscape(r: Rx, b: nat, v: seq<byte>, w: seq<byte>)
    requires Receiving(r, b, v) && r.state.Ok? && END !in w
    requires w != [] && w[0] == ESC && (|w| == 1 || (w[1] != ESC_END && w[1] != ESC_ESC))
    ensures Failed(Feed(r, w), b, r.polled)
  {
    AddCharStores(r.(state := Esc), b, v, ESC);
    var t := Input(r, ESC).0;
    assert Feed(r, w) == Feed(t, w[1..]);
    assert forall c :: c in w[1..] ==> c in w;
    if t.state.Rubbish? {
      DroppingSkips(t, b, w[1..]);
    } else if |w| > 1 {
      var u := Input(t, w[1]).0;
      assert w[1..][0] == w[1] && w[1..][1..] == w[2..];
      DroppingSkips(u, b, w[2..]);
    }
  }

  // ---- A whole frame ----

  /** The receiver holds the bytes `w` as a complete frame that begins at `b`. */
  predicate HoldsFrame(t: Rx, b: nat, w: seq<byte>) {
    && t.InBounds() && t.state.Ok? && t.polled && t.begin == b != t.pkt_end
    && t.next_free == Inc(t.pkt_end, |t.buf|) && Window(t.buf, b, t.pkt_end) == w
  }

  /** Nothing is buffered, and the receiver stands where it stood. */
  predicate HoldsNothing(t: Rx, b: nat) {
    Ready(t) && t.begin == b && !t.polled
  }

  /** The bytes `w` and an END, for a receiver in step. */
  lemma FrameEnded(r: Rx, w: seq<byte>)
    requires Ready(r) && r.state.Ok? && !r.polled && |r.buf| > 1 && END !in w
    ensures var t := Feed(r, w + [END]);
      if w != [] && IsEscaped(w) && |w| + 2 <= |r.buf| then HoldsFrame(t, r.begin, w) else HoldsNothing(t, r.begin)
  {
    var b := r.begin;
    assert Receiving(r, b, []);
    FeedConcat(r, w, [END]);
    var s := Feed(r, w);
    assert Feed(s, [END]) == Feed(Input(s, END).0, []) == Input(s, END).0;
    if IsEscaped(w) {
      var p :| Escape(p) == w;
      PayloadStored(r, b, [], p);
      assert [] + w == w;
      if |w| < |r.buf| { FrameClosed(s, b, w); }
    } else {
      BytesRejected(r, b, [], w);
      assert Escape([]) == [];
    }
  }

  /** Main result on what is received: whatever lies between two ENDs is buffered as a frame
      exactly if it is what some non-empty payload is escaped to and fits, and otherwise it
      leaves nothing behind. */
  lemma FrameExactly(r: Rx, w: seq<byte>)
    requires Ready(r) && !r.polled && |r.buf| > 1 && END !in w
    ensures var t := Feed(r, [END] + w + [END]);
      && (HoldsFrame(t, r.begin, w) <==>
            |w| + 2 <= |r.buf| && exists p :: p != [] && Escape(p) == w)
      && (HoldsFrame(t, r.begin, w) || HoldsNothing(t, r.begin))
  {
    var s := Input(r, END).0;
    FirstEnd(r, w + [END]);
    assert [END] + w + [END] == [END] + (w + [END]);
    FrameEnded(s, w);
    FrameTold(Feed(s, w + [END]), r.begin, w, |r.buf|);
  }

  lemma FrameTold(t: Rx, b: nat, w: seq<byte>, size: nat)
    requires if w != [] && IsEscaped(w) && |w| + 2 <= size then HoldsFrame(t, b, w) else HoldsNothing(t, b)
    ensures HoldsFrame(t, b, w) <==> |w| + 2 <= size && exists p :: p != [] && Escape(p) == w
    ensures HoldsFrame(t, b, w) || HoldsNothing(t, b)
  {
    EscapedSome(w);
  }

  /** The END that opens a frame finds the receiver in step, or brings it in step. */
  lemma FirstEnd(r: Rx, s: seq<byte>)
    requires Ready(r) && !r.polled && |r.buf| > 1
    ensures var r1 := Input(r, END).0;
      && Ready(r1) && r1.state.Ok? && !r1.polled && r1.begin == r.begin
      && Feed(r, [END] + s) == Feed(r1, s)
  {
    FullWhen(r.buf, r.begin, r.begin);
    assert ([END] + s)[1..] == s;
  }

  lemma EscapedSome(w: seq<byte>)
    ensures w != [] && IsEscaped(w) <==> exists p :: p != [] && Escape(p) == w
  {
    forall p | p != [] ensures Escape(p) != [] { assert |Escape(p)| >= |EscapeByte(p[0])| > 0; }
    if w != [] && IsEscaped(w) {
      var p :| Escape(p) == w;
      assert Escape([]) == [];
      assert p != [] && Escape(p) == w;
    }
  }

  /** How often the poll process is woken while the bytes come in. */
  function Wakes(r: Rx, bs: seq<byte>): int
    requires r.InBounds()
    decreases |bs|
  {
    if bs == [] then 0 else Input(r, bs[0]).1 + Wakes(Input(r, bs[0]).0, bs[1..])
  }

  lemma WakeIsPoll(r: Rx, c: byte)
    requires r.InBounds()
    ensures Input(r, c).1 == 0 || Input(r, c).1 == 1
    ensures c != END ==> Input(r, c).1 == 0 && Input(r, c).0.polled == r.polled
    ensures !r.polled ==> (Input(r, c).1 == 1 <==> Input(r, c).0.polled)
  {
  }

  lemma {:induction false} NoWake(r: Rx, w: seq<byte>)
    requires r.InBounds() && END !in w
    ensures Wakes(r, w + [END]) == Input(Feed(r, w), END).1 && Feed(r, w).polled == r.polled
    decreases |w|
  {
    if w == [] {
      assert w + [END] == [END];
      assert Wakes(r, [END]) == Input(r, END).1 + Wakes(Input(r, END).0, []);
    } else {
      WakeIsPoll(r, w[0]);
      assert w[0] in w && (w + [END])[1..] == w[1..] + [END];
      NoWake(Input(r, w[0]).0, w[1..]);
    }
  }

  /** The poll process is woken once for each frame that is buffered, and for nothing else. */
  lemma WokenOnce(r: Rx, w: seq<byte>)
    requires Ready(r) && !r.polled && |r.buf| > 1 && END !in w
    ensures var s := [END] + w + [END];
      Wakes(r, s) == if HoldsFrame(Feed(r, s), r.begin, w) then 1 else 0
  {
    var s, r1 := [END] + w + [END], Input(r, END).0;
    assert s == [END] + (w + [END]) && s[1..] == w + [END];
    FirstEnd(r, w + [END]);
    WakeIsPoll(r, END);
    NoWake(r1, w);
    var r2 := Feed(r1, w);
    WakeIsPoll(r2, END);
    FeedConcat(r1, w, [END]);
    assert Feed(r2, [END]) == Feed(Input(r2, END).0, []) == Input(r2, END).0;
    FrameExactly(r, w);
  }

  /** What one whole frame does to a receiver that has nothing buffered, at any offset: a
      payload whose escaped length plus 2 fits the buffer is held complete, and any other
      leaves nothing behind. */
  lemma FrameReceived(r: Rx, p: seq<byte>)
    requires Ready(r) && !r.polled && |r.buf| > 1
    ensures var t := Feed(r, Frame(p));
      if p != [] && |Escape(p)| + 2 <= |r.buf| then HoldsFrame(t, r.begin, Escape(p)) else HoldsNothing(t, r.begin)
  {
    EscapeHasNoEnd(p);
    FrameExactly(r, Escape(p));
    EscapedSome(Escape(p));
  }

  /** A bad escape drops the frame: the bytes END 'a' ESC 'b' END leave nothing behind. */
  lemma BadEscapeDropped(r: Rx)
    requires Ready(r) && !r.polled && |r.buf| == 8
    ensures HoldsNothing(Feed(r, [END, 97, ESC, 98, END]), r.begin)
  {
    var w: seq<byte> := [97, ESC, 98];
    assert [END] + w + [END] == [END, 97, ESC, 98, END];
    FrameExactly(r, w);
    BadEscape([ESC, 98]);
    EscapedTail(97, [ESC, 98]);
    assert EscapeByte(97) + [ESC, 98] == w;
  }
}
