/** Frames that come in while others still wait to be polled. */
module SlipQueue {
  import opened Basics
  import opened Ringbuf
  import opened SlipModel
  import opened SlipPoll

  // ---- The cyclic buffer ----

  /** The first `k` bytes of a window are a window. */
  lemma WindowPrefix(d: seq<byte>, g: nat, p: nat, k: nat)
    requires g < |d| && p < |d| && k <= |Window(d, g, p)|
    ensures var q := Wrapped(g + k, |d|); 0 <= q < |d| && Window(d, g, q) == Window(d, g, p)[..k]
  {
  }

  /** And so are the others. */
  lemma WindowSuffix(d: seq<byte>, g: nat, p: nat, k: nat)
    requires g < |d| && p < |d| && k <= |Window(d, g, p)|
    ensures var q := Wrapped(g + k, |d|); 0 <= q < |d| && Window(d, q, p) == Window(d, g, p)[k..]
  {
  }

  /** A window ends where its length says. */
  lemma WindowEnds(d: seq<byte>, g: nat, p: nat)
    requires g < |d| && p < |d|
    ensures p == Wrapped(g + |Window(d, g, p)|, |d|)
  {
  }

  /** The search stops at the first END. */
  lemma {:induction false} FindEndAt(d: seq<byte>, cur: nat, stop: nat, k: nat)
    requires cur < |d| && stop < |d| && k < |Window(d, cur, stop)| && Window(d, cur, stop)[k] == END
    requires END !in Window(d, cur, stop)[..k]
    ensures FindEnd(d, cur, stop) == Wrapped(cur + k, |d|)
    decreases k
  {
    var w := Window(d, cur, stop);
    WindowGet(d, cur, stop);
    if k > 0 {
      assert w[..k][0] == w[0];
      assert Wrapped(cur + 1, |d|) == Inc(cur, |d|);
      assert w[1..][..k - 1] == w[..k][1..];
      FindEndAt(d, Inc(cur, |d|), stop, k - 1);
    }
  }

  // ---- Bytes behind a frame that waits ----

  /** `w` is everything the buffer holds. */
  predicate Stored(r: Rx, w: seq<byte>) {
    r.InBounds() && Window(r.buf, r.begin, r.next_free) == w
  }

  /** Only what is stored has changed. */
  predicate SameFrame(r: Rx, t: Rx) {
    t.begin == r.begin && t.pkt_end == r.pkt_end && |t.buf| == |r.buf| && t.state == r.state && t.polled == r.polled
  }

  lemma ByteAppended(r: Rx, w: seq<byte>, c: byte)
    requires Stored(r, w) && c != END && |w| + 1 < |r.buf|
    ensures var t := AddChar(r, c).0; Stored(t, w + [c]) && SameFrame(r, t)
  {
    FullWhen(r.buf, r.begin, r.next_free);
    WindowPut(r.buf, r.begin, r.next_free, c);
  }

  lemma EscapedAppended(r: Rx, w: seq<byte>, c: byte)
    requires Stored(r, w) && r.state.Ok? && |w| + |EscapeByte(c)| < |r.buf|
    ensures var t := Feed(r, EscapeByte(c)); Stored(t, w + EscapeByte(c)) && SameFrame(r, t)
  {
    if c != END && c != ESC {
      ByteAppended(r, w, c);
      assert Feed(r, [c]) == Feed(Input(r, c).0, []);
    } else {
      var d := if c == END then ESC_END else ESC_ESC;
      ByteAppended(r.(state := Esc), w, ESC);
      var t := Input(r, ESC).0;
      assert [ESC, d][1..] == [d];
      assert Feed(r, [ESC, d]) == Feed(t, [d]) == Feed(Input(t, d).0, []);
      ByteAppended(t.(state := Ok), w + [ESC], d);
      assert w + [ESC] + [d] == w + [ESC, d];
    }
  }

  lemma {:induction false} PayloadAppended(r: Rx, w: seq<byte>, p: seq<byte>)
    requires Stored(r, w) && r.state.Ok? && |w| + |Escape(p)| < |r.buf|
    ensures var t := Feed(r, Escape(p)); Stored(t, w + Escape(p)) && SameFrame(r, t)
    decreases |p|
  {
    if p == [] {
      assert w + [] == w;
    } else {
      var e, f := EscapeByte(p[0]), Escape(p[1..]);
      EscapedAppended(r, w, p[0]);
      FeedConcat(r, e, f);
      PayloadAppended(Feed(r, e), w + e, p[1..]);
      assert w + e + f == w + (e + f);
    }
  }

  /** A closing END behind at least one byte of its frame. */
  lemma EndAppended(r: Rx, w: seq<byte>)
    requires Stored(r, w) && r.state.Ok? && |w| + 1 < |r.buf| && r.next_free != r.pkt_end
    ensures var t := Input(r, END).0;
      && Stored(t, w + [END]) && t.begin == r.begin && |t.buf| == |r.buf| && t.state.Ok? && t.polled
      && t.pkt_end == if r.begin == r.pkt_end then r.next_free else r.pkt_end
  {
    FullWhen(r.buf, r.begin, r.next_free);
    WindowPut(r.buf, r.begin, r.next_free, END);
  }

  // ---- The queue ----

  /** The payloads `ps`, escaped, each with its closing END. */
  function Ended(ps: seq<seq<byte>>): seq<byte> {
    if ps == [] then [] else Escape(ps[0]) + [END] + Ended(ps[1..])
  }

  lemma {:induction false} EndedSnoc(ps: seq<seq<byte>>, p: seq<byte>)
    ensures Ended(ps + [p]) == Ended(ps) + (Escape(p) + [END])
    decreases |ps|
  {
    if ps == [] {
      assert [p][1..] == [] && ps + [p] == [p];
    } else {
      assert (ps + [p])[1..] == ps[1..] + [p];
      EndedSnoc(ps[1..], p);
    }
  }

  /** How many bytes the oldest frame takes. */
  function First(ps: seq<seq<byte>>): nat {
    if ps == [] then 0 else |Escape(ps[0])|
  }

  predicate NonEmpty(ps: seq<seq<byte>>) {
    forall p :: p in ps ==> p != []
  }

  /** The frames of `ps` wait, oldest first, and a poll is pending if there are any. */
  predicate Queue(r: Rx, ps: seq<seq<byte>>) {
    && Stored(r, Ended(ps)) && r.state.Ok? && NonEmpty(ps) && r.polled == (ps != [])
    && First(ps) + 1 < |r.buf| && r.pkt_end == Wrapped(r.begin + First(ps), |r.buf|)
  }

  predicate Fits(ps: seq<seq<byte>>, p: seq<byte>, size: nat) {
    p != [] && |Ended(ps)| + |Escape(p)| + 2 <= size
  }

  lemma EscapeSome(p: seq<byte>)
    requires p != []
    ensures |Escape(p)| > 0
  {
    assert |Escape(p)| >= |EscapeByte(p[0])|;
  }

  /** `t` is `r` after the bytes `e` and an END have joined the bytes `w`, of which the
      oldest frame takes the first `k`. */
  predicate Appended(r: Rx, t: Rx, w: seq<byte>, e: seq<byte>, k: nat) {
    && Stored(t, w + (e + [END])) && t.begin == r.begin && |t.buf| == |r.buf| && t.state.Ok? && t.polled
    && t.pkt_end == Wrapped(t.begin + (if k == 0 then |w| + |e| else k), |t.buf|)
  }

  /** A whole frame joins what is stored, of which the oldest frame takes `k` bytes. */
  lemma FrameAppended(r: Rx, w: seq<byte>, p: seq<byte>, k: nat)
    requires Stored(r, w) && r.state.Ok? && p != [] && |w| + |Escape(p)| + 1 < |r.buf|
    requires k <= |w| && r.pkt_end == Wrapped(r.begin + k, |r.buf|)
    ensures Appended(r, Feed(r, Escape(p) + [END]), w, Escape(p), k)
  {
    var e := Escape(p);
    EscapeSome(p);
    PayloadAppended(r, w, p);
    var s := Feed(r, e);
    FeedConcat(r, e, [END]);
    assert Feed(s, [END]) == Feed(Input(s, END).0, []) == Input(s, END).0;
    WindowEnds(s.buf, s.begin, s.next_free);
    Places(s.begin, k, |w + e|, |s.buf|);
    EndAppended(s, w + e);
    assert w + e + [END] == w + (e + [END]);
  }

  /** Different distances below the size lead to different places. */
  lemma Places(b: nat, i: nat, j: nat, size: nat)
    requires b < size && i < j < size
    ensures Wrapped(b + i, size) != Wrapped(b + j, size) && (Wrapped(b + i, size) == b <==> i == 0)
  {
  }

  /** A frame without an opening END of its own joins the queue. */
  lemma Arrives(r: Rx, ps: seq<seq<byte>>, p: seq<byte>)
    requires Queue(r, ps) && Fits(ps, p, |r.buf|)
    ensures var t := Feed(r, Escape(p) + [END]);
      Queue(t, ps + [p]) && t.begin == r.begin && |t.buf| == |r.buf|
  {
    FirstPlace(ps, p);
    FrameAppended(r, Ended(ps), p, First(ps));
    Joined(r, Feed(r, Escape(p) + [END]), ps, p);
  }

  lemma Joined(r: Rx, t: Rx, ps: seq<seq<byte>>, p: seq<byte>)
    requires Queue(r, ps) && Fits(ps, p, |r.buf|) && Appended(r, t, Ended(ps), Escape(p), First(ps))
    ensures Queue(t, ps + [p]) && t.begin == r.begin && |t.buf| == |r.buf|
  {
    FirstPlace(ps, p);
    EndedSnoc(ps, p);
  }

  /** The oldest frame is the same with another one behind it. */
  lemma FirstPlace(ps: seq<seq<byte>>, p: seq<byte>)
    requires NonEmpty(ps) && p != []
    ensures NonEmpty(ps + [p]) && First(ps) <= |Ended(ps)|
    ensures First(ps) == 0 <==> ps == []
    ensures First(ps + [p]) == if ps == [] then |Escape(p)| else First(ps)
  {
    if ps == [] {
      assert ps + [p] == [p];
    } else {
      assert ps[0] in ps && (ps + [p])[0] == ps[0];
      EscapeSome(ps[0]);
    }
  }

  /** The oldest frame: what a poll hands over of it, and what is stored behind it. */
  lemma Oldest(r: Rx, p: seq<byte>, v: seq<byte>, blen: nat)
    requires Stored(r, Escape(p) + [END] + v) && p != [] && r.state.Ok?
    requires |Escape(p)| + 1 < |r.buf| && r.pkt_end == Wrapped(r.begin + |Escape(p)|, |r.buf|)
    ensures r.begin != r.pkt_end && Packet(r, blen) == HandedOver(p, r.begin, |r.buf|, blen)
    ensures Inc(r.pkt_end, |r.buf|) == NextOffset(r.begin, p, |r.buf|)
    ensures Window(r.buf, Inc(r.pkt_end, |r.buf|), r.next_free) == v
  {
    var e, w := Escape(p), Escape(p) + [END] + v;
    EscapeSome(p);
    Places(r.begin, 0, |e|, |r.buf|);
    WindowPrefix(r.buf, r.begin, r.next_free, |e|);
    assert w[..|e|] == e;
    OldestAlone(r, p, blen);
    WindowSuffix(r.buf, r.begin, r.next_free, |e| + 1);
    assert w[|e| + 1..] == v;
  }

  /** What is handed over depends on the oldest frame alone. */
  lemma OldestAlone(r: Rx, p: seq<byte>, blen: nat)
    requires r.InBounds() && r.state.Ok? && r.begin != r.pkt_end && |Escape(p)| + 1 < |r.buf|
    requires Window(r.buf, r.begin, r.pkt_end) == Escape(p)
    ensures Packet(r, blen) == HandedOver(p, r.begin, |r.buf|, blen)
    ensures Inc(r.pkt_end, |r.buf|) == NextOffset(r.begin, p, |r.buf|)
  {
    var s := r.(next_free := Inc(r.pkt_end, |r.buf|));
    assert Holds(s, p);
    PollDelivers(s, p, blen);
    NextBegin(s, p);
    assert Packet(s, blen) == Packet(r, blen);
  }

  /** A poll hands over the oldest frame, and leaves the others queued. */
  lemma Polls(r: Rx, ps: seq<seq<byte>>, blen: nat)
    requires Queue(r, ps) && ps != []
    ensures var (t, out) := Poll(r, blen);
      && out == HandedOver(ps[0], r.begin, |r.buf|, blen) && |t.buf| == |r.buf|
      && Queue(t, ps[1..]) && t.begin == NextOffset(r.begin, ps[0], |r.buf|)
  {
    var v := Ended(ps[1..]);
    assert ps[0] in ps && forall p :: p in ps[1..] ==> p in ps;
    Oldest(r, ps[0], v, blen);
    NextFound(r.buf, Inc(r.pkt_end, |r.buf|), r.next_free, ps[1..]);
  }

  /** The search finds the end of the next frame, or nothing when there is none. */
  lemma NextFound(d: seq<byte>, pkt: nat, stop: nat, ps: seq<seq<byte>>)
    requires pkt < |d| && stop < |d| && Window(d, pkt, stop) == Ended(ps)
    ensures First(ps) + (if ps == [] then 0 else 1) < |d|
    ensures FindEnd(d, pkt, stop) == Wrapped(pkt + First(ps), |d|)
    ensures FindEnd(d, pkt, stop) == stop <==> ps == []
  {
    if ps != [] {
      var f, v := Escape(ps[0]), Ended(ps);
      assert v == f + [END] + Ended(ps[1..]);
      EscapeHasNoEnd(ps[0]);
      assert v[..|f|] == f && v[|f|] == END;
      FindEndAt(d, pkt, stop, |f|);
      WindowEnds(d, pkt, stop);
      Places(pkt, |f|, |v|, |d|);
    }
  }

  // ---- Polls that lag behind ----

  datatype Step = Comes(p: seq<byte>) | IsPolled

  /** What each poll hands over, frames coming in between polls as `steps` says. */
  function Play(r: Rx, steps: seq<Step>, blen: nat): seq<seq<byte>>
    requires r.InBounds()
    decreases |steps|
  {
    if steps == [] then []
    else match steps[0]
      case Comes(p) => Play(Feed(r, Escape(p) + [END]), steps[1..], blen)
      case IsPolled => [Poll(r, blen).1] + Play(Poll(r, blen).0, steps[1..], blen)
  }

  /** A queue of payloads, the oldest of which begins at offset `b`. */
  function Fifo(b: nat, ps: seq<seq<byte>>, steps: seq<Step>, size: nat, blen: nat): seq<seq<byte>>
    requires b < size
    decreases |steps|
  {
    if steps == [] then []
    else match steps[0]
      case Comes(p) => Fifo(b, ps + [p], steps[1..], size, blen)
      case IsPolled =>
        if ps == [] then [[]] + Fifo(b, ps, steps[1..], size, blen)
        else [HandedOver(ps[0], b, size, blen)] + Fifo(NextOffset(b, ps[0], size), ps[1..], steps[1..], size, blen)
  }

  /** Each frame that comes in fits beside those that wait. */
  predicate AllFit(ps: seq<seq<byte>>, steps: seq<Step>, size: nat)
    decreases |steps|
  {
    steps != [] ==>
      match steps[0]
      case Comes(p) => Fits(ps, p, size) && AllFit(ps + [p], steps[1..], size)
      case IsPolled => AllFit(if ps == [] then [] else ps[1..], steps[1..], size)
  }

  /** Main result: however the polls lag behind, each one hands over the oldest frame that
      waits, as long as the frames fit the buffer together and share their ENDs. */
  lemma {:induction false} PlayExact(r: Rx, ps: seq<seq<byte>>, steps: seq<Step>, blen: nat)
    requires Queue(r, ps) && AllFit(ps, steps, |r.buf|)
    ensures Play(r, steps, blen) == Fifo(r.begin, ps, steps, |r.buf|, blen)
    decreases |steps|
  {
    if steps != [] {
      match steps[0] {
        case Comes(p) =>
          Arrives(r, ps, p);
          PlayExact(Feed(r, Escape(p) + [END]), ps + [p], steps[1..], blen);
        case IsPolled =>
          if ps != [] {
            Polls(r, ps, blen);
            PlayExact(Poll(r, blen).0, ps[1..], steps[1..], blen);
          } else {
            assert Poll(r, blen) == (r, []);
            PlayExact(r, ps, steps[1..], blen);
          }
      }
    }
  }

  // ---- Frames with an opening END of their own ----

  /** A frame of slip_write comes in while another one waits: its opening END is taken for
      the END of an empty frame, on which the poll after the next gets stuck. */
  lemma OpeningEndStuck(r: Rx, p: seq<byte>, q: seq<byte>, blen: nat)
    requires Queue(r, [p]) && q != [] && |Escape(p)| + |Escape(q)| + 4 <= |r.buf|
    ensures var (t, out) := Poll(Feed(r, Frame(q)), blen);
      && out == HandedOver(p, r.begin, |r.buf|, blen)
      && Poll(t, blen) == (t.(polled := false), [])
      && t.begin == t.pkt_end && Stored(t, [END] + Escape(q) + [END])
  {
    var w, e := Escape(p) + [END], Escape(q);
    OpeningEnd(r, p);
    var r1 := Input(r, END).0;
    assert Frame(q) == [END] + (e + [END]) && Frame(q)[1..] == e + [END];
    FrameAppended(r1, w + [END], q, |Escape(p)|);
    StuckBehind(r1, Feed(r1, e + [END]), p, q, blen);
  }

  lemma StuckBehind(r: Rx, t: Rx, p: seq<byte>, q: seq<byte>, blen: nat)
    requires r.InBounds() && p != [] && |Escape(p)| > 0 && |Escape(p)| + |Escape(q)| + 4 <= |r.buf|
    requires Appended(r, t, Escape(p) + [END] + [END], Escape(q), |Escape(p)|)
    ensures var (u, out) := Poll(t, blen);
      && out == HandedOver(p, r.begin, |r.buf|, blen)
      && Poll(u, blen) == (u.(polled := false), [])
      && u.begin == u.pkt_end && Stored(u, [END] + Escape(q) + [END])
  {
    Regrouped(Escape(p) + [END], [END], Escape(q) + [END]);
    Regrouped([END], Escape(q), [END]);
    StuckPoll(t, p, [END] + Escape(q) + [END], blen);
  }

  lemma Regrouped(a: seq<byte>, b: seq<byte>, c: seq<byte>)
    ensures a + b + c == a + (b + c)
  {
  }

  lemma OpeningEnd(r: Rx, p: seq<byte>)
    requires Queue(r, [p]) && |Escape(p)| + 3 <= |r.buf|
    ensures var t := Input(r, END).0;
      && p != [] && |Escape(p)| > 0 && Stored(t, Escape(p) + [END] + [END]) && t.begin == r.begin
      && |t.buf| == |r.buf| && t.state.Ok? && t.pkt_end == Wrapped(t.begin + |Escape(p)|, |t.buf|)
  {
    var w := Escape(p) + [END];
    assert [p][0] == p && p in [p] && [p][1..] == [] && Ended([]) == [];
    assert Ended([p]) == w;
    EscapeSome(p);
    WindowEnds(r.buf, r.begin, r.next_free);
    Places(r.begin, |Escape(p)|, |w|, |r.buf|);
    EndAppended(r, w);
  }

  /** A poll of `p` with bytes behind it that begin with an END. */
  lemma StuckPoll(r: Rx, p: seq<byte>, v: seq<byte>, blen: nat)
    requires Stored(r, Escape(p) + [END] + v) && p != [] && v != [] && v[0] == END && r.state.Ok?
    requires |Escape(p)| + 2 <= |r.buf| && r.pkt_end == Wrapped(r.begin + |Escape(p)|, |r.buf|)
    ensures var (t, out) := Poll(r, blen);
      && out == HandedOver(p, r.begin, |r.buf|, blen)
      && Poll(t, blen) == (t.(polled := false), []) && t.begin == t.pkt_end && Stored(t, v)
  {
    Oldest(r, p, v, blen);
    FindEndAt(r.buf, Inc(r.pkt_end, |r.buf|), r.next_free, 0);
  }
}
