/** os/dev/serial-line.c: bytes come in from an interrupt, go through a ring buffer, and
    are assembled into lines; either end of the ring may be the slower one. */
module SerialLine {
  import opened Basics
  import opened Ringbuf

  /* END and END2. */
  const LF: byte := 10
  const CR: byte := 13

  predicate Ends(c: byte) {
    c == LF || c == CR
  }

  /** A line handed to the application: its text was received from position `start` on,
      the byte that ended it is at `end`, and `run` bytes of it went through the ring. */
  datatype Line = Line(start: nat, run: nat, end: nat, text: seq<byte>)

  /** The history of one receiver. Bytes are told apart by their position in `input`;
      `queue` is what waits in the ring, `run` the bytes of the line being assembled. */
  datatype History = History(
    input: seq<byte>, queue: seq<nat>, overflow: bool, refused: nat,
    start: nat, run: nat, lines: seq<Line>)

  /** The positions waiting in the ring follow on from each other: an ordinary byte comes
      right after the byte before it, in the ring and on the wire. */
  ghost predicate Follows(h: History, j: nat)
    requires j < |h.queue|
  {
    var before := if j == 0 then h.start + h.run - 1 else h.queue[j - 1];
    && before < h.queue[j] < |h.input|
    && (!Ends(h.input[h.queue[j]]) || h.refused == 0 ==> h.queue[j] == before + 1)
  }

  function LastPut(h: History): int {
    if h.queue == [] then h.start + h.run - 1 else h.queue[|h.queue| - 1]
  }

  /** Position `i` is where an input line begins. */
  predicate Begins(input: seq<byte>, i: nat) {
    i <= |input| && (i == 0 || Ends(input[i - 1]))
  }

  /** The bytes from `start`, `run` of them, hold no line end. */
  predicate Plain(input: seq<byte>, start: nat, run: nat) {
    start + run <= |input| && forall i :: start <= i < start + run ==> !Ends(input[i])
  }

  function Cut(s: seq<byte>, max: nat): seq<byte> {
    if |s| <= max then s else s[..max]
  }

  /** What is true of every assembled line: it begins where an input line begins and its
      text is the beginning of that line; nothing was lost from it if nothing was refused. */
  ghost predicate LineOk(h: History, max: nat, l: Line) {
    && Begins(h.input, l.start) && Plain(h.input, l.start, l.run)
    && l.text == Cut(h.input[l.start..l.start + l.run], max)
    && l.start + l.run <= l.end < |h.input| && Ends(h.input[l.end])
    && (h.refused == 0 ==> l.end == l.start + l.run)
  }

  /** As much of the line being assembled as the buffer keeps. */
  function LineText(h: History, max: nat): seq<byte> {
    if h.start + h.run <= |h.input| then Cut(h.input[h.start..h.start + h.run], max) else []
  }

  ghost predicate Inv(h: History, max: nat) {
    match h
    case History(input, queue, overflow, refused, start, run, lines) =>
      && (forall j {:trigger Follows(h, j)} :: 0 <= j < |queue| ==> Follows(h, j))
      && Begins(input, start) && Plain(input, start, run)
      && LastPut(h) < |input|
      && (!overflow || refused == 0 ==> LastPut(h) == |input| - 1)
      && (forall k {:trigger LineOk(h, max, lines[k])} :: 0 <= k < |lines| ==> LineOk(h, max, lines[k]))
      && (forall k {:trigger Chained(h, k)} :: 0 <= k < |lines| ==> Chained(h, k))
  }

  /** The line after line `k`, or the one being assembled, begins right after the byte
      that ended line `k`. */
  ghost predicate Chained(h: History, k: nat)
    requires k < |h.lines|
  {
    (if k + 1 < |h.lines| then h.lines[k + 1].start else h.start) == h.lines[k].end + 1
  }

  const START: History := History([], [], false, 0, 0, 0, [])

  /** serial_line_input_byte with room for `cap` bytes in the ring. */
  function Input(h: History, c: byte, cap: nat): History {
    var g := h.(input := h.input + [c]);
    if !h.overflow || Ends(c) then
      if |h.queue| < cap then g.(queue := h.queue + [|h.input|], overflow := false)
      else g.(overflow := true, refused := h.refused + 1)
    else g.(refused := h.refused + 1)
  }

  /** One turn of the loop in serial_line_process. */
  function Consume(h: History, max: nat): History
    requires Inv(h, max)
  {
    if h.queue == [] then h
    else
      assert Follows(h, 0);
      var p := h.queue[0];
      var g := h.(queue := h.queue[1..]);
      if Ends(h.input[p]) then
        g.(lines := h.lines + [Line(h.start, h.run, p, Cut(h.input[h.start..h.start + h.run], max))],
           start := p + 1, run := 0)
      else g.(run := h.run + 1)
  }

  lemma LinesStill(h: History, g: History, max: nat)
    requires h.input <= g.input && g.lines == h.lines && h.refused <= g.refused
    requires forall k {:trigger LineOk(h, max, h.lines[k])} :: 0 <= k < |h.lines| ==> LineOk(h, max, h.lines[k])
    ensures forall k {:trigger LineOk(g, max, g.lines[k])} :: 0 <= k < |g.lines| ==> LineOk(g, max, g.lines[k])
  {
    forall k {:trigger LineOk(g, max, g.lines[k])} | 0 <= k < |g.lines| ensures LineOk(g, max, g.lines[k]) {
      var l := h.lines[k];
      assert LineOk(h, max, l);
      assert g.input[l.start..l.start + l.run] == h.input[l.start..l.start + l.run];
    }
  }

  lemma InputKeeps(h: History, c: byte, cap: nat, max: nat)
    requires Inv(h, max)
    ensures Inv(Input(h, c, cap), max)
  {
    var g := Input(h, c, cap);
    LinesStill(h, g, max);
    forall k {:trigger Chained(g, k)} | 0 <= k < |g.lines| ensures Chained(g, k) {
      assert Chained(h, k);
    }
    forall j {:trigger Follows(g, j)} | 0 <= j < |g.queue| ensures Follows(g, j) {
      if j < |h.queue| { assert Follows(h, j); }
    }
  }

  lemma ConsumeKeeps(h: History, max: nat)
    requires Inv(h, max)
    ensures Inv(Consume(h, max), max)
  {
    if h.queue != [] {
      assert Follows(h, 0);
      var g := Consume(h, max);
      forall j {:trigger Follows(g, j)} | 0 <= j < |g.queue| ensures Follows(g, j) {
        assert Follows(h, j + 1);
      }
      if Ends(h.input[h.queue[0]]) {
        LineAdded(h, g, max);
      } else {
        LinesStill(h, g, max);
        forall k {:trigger Chained(g, k)} | 0 <= k < |g.lines| ensures Chained(g, k) {
          assert Chained(h, k);
        }
      }
    }
  }

  lemma LineAdded(h: History, g: History, max: nat)
    requires Inv(h, max) && h.queue != [] && Follows(h, 0) && Ends(h.input[h.queue[0]]) && g == Consume(h, max)
    ensures forall k {:trigger LineOk(g, max, g.lines[k])} :: 0 <= k < |g.lines| ==> LineOk(g, max, g.lines[k])
    ensures forall k {:trigger Chained(g, k)} :: 0 <= k < |g.lines| ==> Chained(g, k)
  {
    forall k {:trigger LineOk(g, max, g.lines[k])} | 0 <= k < |g.lines| ensures LineOk(g, max, g.lines[k]) {
      if k < |h.lines| { assert LineOk(h, max, h.lines[k]); }
    }
    forall k {:trigger Chained(g, k)} | 0 <= k < |g.lines| ensures Chained(g, k) {
      if k < |h.lines| { assert Chained(h, k); }
    }
  }

  datatype Event = Received(c: byte) | Polled

  /** Any interleaving of received bytes and turns of the assembling loop. */
  function Run(h: History, events: seq<Event>, cap: nat, max: nat): (g: History)
    requires Inv(h, max)
    ensures Inv(g, max)
    decreases |events|
  {
    if events == [] then h
    else match events[0]
      case Received(c) => InputKeeps(h, c, cap, max); Run(Input(h, c, cap), events[1..], cap, max)
      case Polled => ConsumeKeeps(h, max); Run(Consume(h, max), events[1..], cap, max)
  }

  /** The text is that of the line, byte by byte, as far as the buffer reaches. */
  predicate TextOk(input: seq<byte>, l: Line, max: nat) {
    && l.start + l.run <= |input| && |l.text| == Min(l.run, max)
    && forall i :: 0 <= i < |l.text| ==> l.text[i] == input[l.start + i]
  }

  lemma LineTextOk(h: History, max: nat, l: Line)
    requires LineOk(h, max, l)
    ensures TextOk(h.input, l, max)
  {
  }

  /** Main result. However the ring overflows, every line handed to the application is
      the beginning of one input line, cut to `max` bytes, and successive lines come from
      strictly later positions. If nothing was refused, line k is input line k entire,
      up to `max` bytes. */
  lemma LinesNeverMerge(events: seq<Event>, cap: nat, max: nat)
    ensures var h := Run(START, events, cap, max);
      && (forall k :: 0 <= k < |h.lines| ==>
            var l := h.lines[k];
            && Begins(h.input, l.start) && Plain(h.input, l.start, l.run) && TextOk(h.input, l, max)
            && l.start + l.run <= l.end < |h.input| && Ends(h.input[l.end])
            && (h.refused == 0 ==> l.end == l.start + l.run))
      && (forall j, k :: 0 <= j < k < |h.lines| ==> h.lines[j].start <= h.lines[j].end < h.lines[k].start)
  {
    var h := Run(START, events, cap, max);
    forall k | 0 <= k < |h.lines| ensures LineOk(h, max, h.lines[k]) && TextOk(h.input, h.lines[k], max) {
      assert LineOk(h, max, h.lines[k]);
      LineTextOk(h, max, h.lines[k]);
    }
    forall j, k | 0 <= j < k < |h.lines| ensures h.lines[j].start <= h.lines[j].end < h.lines[k].start {
      StartsRise(h, max, j, k);
    }
  }

  /** Every line end taken from the ring makes one line of what was assembled before it. */
  lemma LineMade(h: History, max: nat)
    requires Inv(h, max) && h.queue != []
    ensures var g, p := Consume(h, max), h.queue[0];
      && p < |h.input| && g.queue == h.queue[1..] && g.input == h.input
      && (!Ends(h.input[p]) ==> g.lines == h.lines && g.start == h.start && g.run == h.run + 1)
      && (Ends(h.input[p]) ==>
            |g.lines| == |h.lines| + 1 && g.lines[..|h.lines|] == h.lines && g.start == p + 1 && g.run == 0
            && var l := g.lines[|h.lines|];
            l.start == h.start && l.run == h.run && l.end == p && TextOk(h.input, l, max))
  {
    assert Follows(h, 0);
    ConsumeKeeps(h, max);
    var g := Consume(h, max);
    if Ends(h.input[h.queue[0]]) {
      assert LineOk(g, max, g.lines[|h.lines|]);
      LineTextOk(g, max, g.lines[|h.lines|]);
    }
  }

  // ---- Without losses ----

  /** The bytes after the last line end. */
  function Rest(s: seq<byte>): (r: seq<byte>)
    ensures |r| <= |s|
  {
    if s == [] || Ends(s[|s| - 1]) then [] else Rest(s[..|s| - 1]) + [s[|s| - 1]]
  }

  /** The lines of `s` that are complete, line ends removed. */
  function Lines(s: seq<byte>): seq<seq<byte>> {
    if s == [] then []
    else
      var t := s[..|s| - 1];
      if Ends(s[|s| - 1]) then Lines(t) + [Rest(t)] else Lines(t)
  }

  /** `texts` are the lines `ls`, each as far as `max` bytes reach. */
  predicate AreCut(texts: seq<seq<byte>>, ls: seq<seq<byte>>, max: nat) {
    && |texts| == |ls|
    && forall k :: 0 <= k < |ls| ==>
         |texts[k]| == Min(|ls[k]|, max) && texts[k] == ls[k][..|texts[k]|]
  }

  /** As long as nothing was refused, the lines made are the input's lines so far. */
  ghost predicate Lossless(h: History, max: nat) {
    h.refused == 0 ==>
      && h.start + h.run + |h.queue| == |h.input|
      && Rest(h.input[..h.start + h.run]) == h.input[h.start..h.start + h.run]
      && AreCut(Texts(h.lines), Lines(h.input[..h.start + h.run]), max)
  }

  lemma InputLossless(h: History, c: byte, cap: nat, max: nat)
    requires Lossless(h, max)
    ensures Lossless(Input(h, c, cap), max)
  {
    var g := Input(h, c, cap);
    if g.refused == 0 {
      assert g.input[..h.start + h.run] == h.input[..h.start + h.run];
      assert g.input[h.start..h.start + h.run] == h.input[h.start..h.start + h.run];
    }
  }

  lemma OneByteMore(input: seq<byte>, p: nat)
    requires p < |input|
    ensures Ends(input[p]) ==>
      Rest(input[..p + 1]) == [] && Lines(input[..p + 1]) == Lines(input[..p]) + [Rest(input[..p])]
    ensures !Ends(input[p]) ==>
      Rest(input[..p + 1]) == Rest(input[..p]) + [input[p]] && Lines(input[..p + 1]) == Lines(input[..p])
  {
    var s := input[..p + 1];
    assert s[..|s| - 1] == input[..p] && s[|s| - 1] == input[p];
  }

  lemma ConsumeLossless(h: History, max: nat)
    requires Inv(h, max) && Lossless(h, max)
    ensures Lossless(Consume(h, max), max)
  {
    if h.refused == 0 && h.queue != [] {
      LineMade(h, max);
      assert Follows(h, 0);
      if Ends(h.input[h.queue[0]]) {
        LineTaken(h, Consume(h, max), max);
      } else {
        ByteTaken(h, Consume(h, max), max);
      }
    }
  }

  lemma LineTaken(h: History, g: History, max: nat)
    requires Lossless(h, max) && h.refused == 0 && h.start + h.run < |h.input| && Ends(h.input[h.start + h.run])
    requires |g.lines| == |h.lines| + 1 && g.lines[..|h.lines|] == h.lines && |g.queue| + 1 == |h.queue|
    requires g == h.(queue := g.queue, lines := g.lines, start := h.start + h.run + 1, run := 0)
    requires var l := g.lines[|h.lines|]; l.start == h.start && l.run == h.run && TextOk(h.input, l, max)
    ensures Lossless(g, max)
  {
    OneByteMore(h.input, h.start + h.run);
    LineCut(h, g, max);
  }

  lemma ByteTaken(h: History, g: History, max: nat)
    requires Lossless(h, max) && h.refused == 0 && h.start + h.run < |h.input| && !Ends(h.input[h.start + h.run])
    requires g == h.(queue := g.queue, run := h.run + 1) && |g.queue| + 1 == |h.queue|
    ensures Lossless(g, max)
  {
    var p := h.start + h.run;
    OneByteMore(h.input, p);
    assert h.input[h.start..p] + [h.input[p]] == h.input[h.start..p + 1];
  }

  lemma LineCut(h: History, g: History, max: nat)
    requires h.start + h.run < |h.input| && AreCut(Texts(h.lines), Lines(h.input[..h.start + h.run]), max)
    requires Rest(h.input[..h.start + h.run]) == h.input[h.start..h.start + h.run]
    requires Ends(h.input[h.start + h.run]) && |g.lines| == |h.lines| + 1 && g.lines[..|h.lines|] == h.lines
    requires var l := g.lines[|h.lines|]; l.start == h.start && l.run == h.run && TextOk(h.input, l, max)
    ensures AreCut(Texts(g.lines), Lines(h.input[..h.start + h.run + 1]), max)
  {
    var l := g.lines[|h.lines|];
    OneByteMore(h.input, h.start + h.run);
    assert g.lines == h.lines + [l];
    TextsAdd(h.lines, l);
    assert l.text == h.input[h.start..h.start + h.run][..|l.text|];
  }

  lemma {:induction false} RunLossless(h: History, events: seq<Event>, cap: nat, max: nat)
    requires Inv(h, max) && Lossless(h, max)
    ensures Lossless(Run(h, events, cap, max), max)
    decreases |events|
  {
    if events != [] {
      match events[0] {
        case Received(c) =>
          InputKeeps(h, c, cap, max);
          InputLossless(h, c, cap, max);
          RunLossless(Input(h, c, cap), events[1..], cap, max);
        case Polled =>
          ConsumeKeeps(h, max);
          ConsumeLossless(h, max);
          RunLossless(Consume(h, max), events[1..], cap, max);
      }
    }
  }

  /** If nothing was refused, the lines made are exactly those of the input that the ring
      has given up, none missing and none added, each cut to `max` bytes. */
  lemma LinesComplete(events: seq<Event>, cap: nat, max: nat)
    ensures var h := Run(START, events, cap, max);
      h.refused == 0 ==>
        |h.queue| <= |h.input| && AreCut(Texts(h.lines), Lines(h.input[..|h.input| - |h.queue|]), max)
  {
    assert START.input[..0] == [];
    RunLossless(START, events, cap, max);
  }

  lemma {:induction false} StartsRise(h: History, max: nat, j: nat, k: nat)
    requires Inv(h, max) && j < k < |h.lines|
    ensures h.lines[j].start <= h.lines[j].end < h.lines[k].start
    decreases k
  {
    assert Chained(h, k - 1) && LineOk(h, max, h.lines[j]) && LineOk(h, max, h.lines[k - 1]);
    if j < k - 1 { StartsRise(h, max, j, k - 1); }
  }

  /** The driver's static variables and its process, over the ring buffer. `posted` is
      what the line events have carried; `h` is the history they belong to. */
  class Driver {
    const rxbuf: RingBuffer
    var overflow: bool
    const buf: array<byte>
    var ptr: nat
    var posted: seq<seq<byte>>
    ghost var h: History

    /** The assembling side: the buffer holds the line so far, cut to what fits. */
    ghost predicate Assembles(h: History)
      reads this`ptr, this`posted, buf
    {
      && buf.Length > 0 && Inv(h, buf.Length - 1)
      && ptr <= buf.Length - 1 && buf[..ptr] == LineText(h, buf.Length - 1)
      && posted == Texts(h.lines)
    }

    ghost predicate Valid()
      reads this, rxbuf, rxbuf.data, buf
    {
      && rxbuf.Valid() && buf != rxbuf.data && buf.Length == rxbuf.data.Length
      && Assembles(h) && overflow == h.overflow
      && rxbuf.Contents() == Bytes(h.input, h.queue)
    }

    /** serial_line_init, with a ring over an array of BUFSIZE bytes. */
    constructor (ring: RingBuffer, buffer: array<byte>)
      requires ring.Valid() && ring.Contents() == []
      requires buffer != ring.data && buffer.Length == ring.data.Length
      ensures Valid() && h == START && rxbuf == ring && buf == buffer
    {
      rxbuf, buf := ring, buffer;
      overflow, ptr, posted, h := false, 0, [], START;
    }

    /** What has been posted: one text for each line of the history, byte by byte what was
        received, as far as the buffer reaches; and the buffer holds so far the line that is
        being assembled. */
    lemma Posted()
      requires Valid()
      ensures |posted| == |h.lines|
      ensures forall k :: 0 <= k < |posted| ==>
        var l := h.lines[k];
        && l.start + l.run <= |h.input| && |posted[k]| == Min(l.run, buf.Length - 1)
        && forall i :: 0 <= i < |posted[k]| ==> posted[k][i] == h.input[l.start + i]
      ensures ptr == Min(h.run, buf.Length - 1) && h.start + h.run <= |h.input|
      ensures forall i :: 0 <= i < ptr ==> buf[i] == h.input[h.start + i]
    {
      assert h.start + h.run <= |h.input|;
      assert |buf[..ptr]| == Min(h.run, buf.Length - 1);
      forall i | 0 <= i < ptr ensures buf[i] == h.input[h.start + i] {
        assert buf[..ptr][i] == buf[i];
      }
      forall k | 0 <= k < |posted| ensures TextOk(h.input, h.lines[k], buf.Length - 1) {
        assert LineOk(h, buf.Length - 1, h.lines[k]);
        LineTextOk(h, buf.Length - 1, h.lines[k]);
      }
    }

    /** The statements of serial_line_input_byte. */
    method Receive(c: byte)
      requires rxbuf.Valid()
      modifies this`overflow, rxbuf`put_ptr, rxbuf.data
      ensures rxbuf.Valid()
      ensures var room := |old(rxbuf.Contents())| < rxbuf.mask;
        var wanted := !old(overflow) || Ends(c);
        && rxbuf.Contents() == (if wanted && room then old(rxbuf.Contents()) + [c] else old(rxbuf.Contents()))
        && overflow == (if wanted then !room else old(overflow))
    {
      if !overflow {
        var ok := rxbuf.Put(c);
        if !ok { overflow := true; }
      } else if Ends(c) {
        var ok := rxbuf.Put(c);
        if ok { overflow := false; }
      }
    }

    /** serial_line_input_byte. */
    method InputByte(c: byte)
      requires Valid()
      modifies this, rxbuf, rxbuf.data
      ensures Valid() && h == Input(old(h), c, buf.Length - 1)
    {
      ghost var g := Input(h, c, buf.Length - 1);
      InputAssembles(c);
      Receive(c);
      assert Assembles(g);
      h := g;
    }

    /** The received byte changes nothing on the assembling side, and the history has the
        ring and the flag where Receive puts them. */
    lemma InputAssembles(c: byte)
      requires Valid()
      ensures var g := Input(h, c, buf.Length - 1); var s := rxbuf.Contents();
        var room, wanted := |s| < rxbuf.mask, !overflow || Ends(c);
        && Assembles(g)
        && Bytes(g.input, g.queue) == (if wanted && room then s + [c] else s)
        && g.overflow == (if wanted then !room else overflow)
    {
      InputKeeps(h, c, buf.Length - 1, buf.Length - 1);
      InputLine(h, c, buf.Length - 1, buf.Length - 1);
    }

    /** ringbuf_get, in terms of the history. */
    method GetByte() returns (c: int)
      requires Valid()
      modifies rxbuf`get_ptr
      ensures rxbuf.Valid() && (c == -1 <==> h.queue == [])
      ensures c != -1 ==>
        && 0 <= c < 256 && h.queue[0] < |h.input| && c == h.input[h.queue[0]]
        && (!Ends(c) ==> h.queue[0] == h.start + h.run)
        && rxbuf.Contents() == Bytes(h.input, h.queue[1..])
      ensures c == -1 ==> rxbuf.Contents() == old(rxbuf.Contents())
    {
      if h.queue != [] { BytesHead(h, buf.Length - 1); }
      c := rxbuf.Get();
    }

    /** What the loop does with a byte it got: the byte joins the line, unless the line is
        as long as the buffer allows, or it ends the line. */
    method Take(c: byte)
      requires ptr < buf.Length
      modifies this`ptr, this`posted, buf
      ensures ptr < buf.Length && buf[..ptr] == Extended(old(buf[..ptr]), c, buf.Length - 1)
      ensures posted == if Ends(c) then old(posted) + [old(buf[..ptr])] else old(posted)
    {
      if !Ends(c) {
        AddChar(c);
      } else {
        EndLine();
      }
    }

    /** The same in terms of the history. */
    method Advance(c: byte)
      requires Assembles(h) && h.queue != [] && h.queue[0] < |h.input| && c == h.input[h.queue[0]]
      modifies this`ptr, this`posted, this`h, buf
      ensures h == Consume(old(h), buf.Length - 1) && Assembles(h)
    {
      ghost var g := Consume(h, buf.Length - 1);
      ghost var line, lines := buf[..ptr], posted;
      ConsumeText(h, buf.Length - 1);
      ConsumeTexts(h, buf.Length - 1);
      ConsumeKeeps(h, buf.Length - 1);
      Take(c);
      assert buf[..ptr] == Extended(line, c, buf.Length - 1) == LineText(g, buf.Length - 1);
      assert posted == (if Ends(c) then lines + [line] else lines) == Texts(g.lines);
      h := g;
    }

    /** One turn of the loop in serial_line_process; false when the ring is empty. */
    method Turn() returns (more: bool)
      requires Valid()
      modifies this, rxbuf, buf
      ensures Valid() && h == Consume(old(h), buf.Length - 1) && (more <==> old(h).queue != [])
    {
      var c := GetByte();
      more := c != -1;
      if more {
        Advance(c);
      }
    }

    method AddChar(c: byte)
      requires ptr < buf.Length && !Ends(c)
      modifies this`ptr, buf
      ensures ptr < buf.Length && buf[..ptr] == Extended(old(buf[..ptr]), c, buf.Length - 1)
    {
      ghost var before := buf[..ptr];
      if ptr < buf.Length - 1 {
        buf[ptr] := c;
        ptr := ptr + 1;
        assert buf[..ptr] == before + [c];
      }
    }

    /** The line is terminated and posted. */
    method EndLine()
      requires ptr < buf.Length
      modifies this`ptr, this`posted, buf
      ensures ptr == 0 && posted == old(posted) + [old(buf[..ptr])]
    {
      posted := posted + [buf[..ptr]];
      buf[ptr] := 0;
      ptr := 0;
    }
  }

  /** The bytes at the positions `q`. */
  function Bytes(input: seq<byte>, q: seq<nat>): (s: seq<byte>)
    ensures |s| == |q|
  {
    seq(|q|, j requires 0 <= j < |q| => if q[j] < |input| then input[q[j]] else 0)
  }

  lemma BytesGrow(h: History, c: byte, max: nat)
    requires Inv(h, max)
    ensures var i := h.input + [c];
      && Bytes(i, h.queue) == Bytes(h.input, h.queue)
      && Bytes(i, h.queue + [|h.input|]) == Bytes(h.input, h.queue) + [c]
      && LineText(h.(input := i), max) == LineText(h, max)
  {
    assert h.start + h.run <= |h.input|;
    assert (h.input + [c])[h.start..h.start + h.run] == h.input[h.start..h.start + h.run];
    forall j | 0 <= j < |h.queue| ensures h.queue[j] < |h.input| {
      assert Follows(h, j);
    }
  }

  /** A byte that comes in changes nothing on the assembling side. */
  lemma InputLine(h: History, c: byte, cap: nat, max: nat)
    requires Inv(h, max)
    ensures LineText(Input(h, c, cap), max) == LineText(h, max) && Input(h, c, cap).lines == h.lines
    ensures var g := Input(h, c, cap);
      Bytes(g.input, g.queue) ==
        if (!h.overflow || Ends(c)) && |h.queue| < cap then Bytes(h.input, h.queue) + [c] else Bytes(h.input, h.queue)
  {
    BytesGrow(h, c, max);
    assert LineText(Input(h, c, cap), max) == LineText(h.(input := h.input + [c]), max);
  }

  lemma BytesHead(h: History, max: nat)
    requires Inv(h, max) && h.queue != []
    ensures var p := h.queue[0];
      && p < |h.input| && Bytes(h.input, h.queue)[0] == h.input[p]
      && Bytes(h.input, h.queue)[1..] == Bytes(h.input, h.queue[1..])
      && (!Ends(h.input[p]) ==> p == h.start + h.run)
  {
    assert Follows(h, 0);
  }

  /** The line being assembled after one more byte. */
  function Extended(line: seq<byte>, c: byte, max: nat): seq<byte> {
    if Ends(c) then [] else if |line| < max then line + [c] else line
  }

  /** What the byte at the head of the ring does to the line. */
  lemma ConsumeText(h: History, max: nat)
    requires Inv(h, max) && h.queue != []
    ensures h.queue[0] < |h.input|
    ensures LineText(Consume(h, max), max) == Extended(LineText(h, max), h.input[h.queue[0]], max)
  {
    BytesHead(h, max);
    if Ends(h.input[h.queue[0]]) { LineStarts(Consume(h, max), max); } else { LineGrows(h, Consume(h, max), max); }
  }

  lemma LineStarts(h: History, max: nat)
    requires h.run == 0
    ensures LineText(h, max) == []
  {
  }

  lemma LineGrows(h: History, g: History, max: nat)
    requires h.start + h.run < |h.input| && !Ends(h.input[h.start + h.run])
    requires g.input == h.input && g.start == h.start && g.run == h.run + 1
    ensures LineText(g, max) == Extended(LineText(h, max), h.input[h.start + h.run], max)
  {
    CutGrows(h.input, h.start, h.start + h.run, max);
  }

  /** And to the lines posted. */
  lemma ConsumeTexts(h: History, max: nat)
    requires Inv(h, max) && h.queue != [] && h.queue[0] < |h.input|
    ensures Texts(Consume(h, max).lines) ==
      if Ends(h.input[h.queue[0]]) then Texts(h.lines) + [LineText(h, max)] else Texts(h.lines)
  {
    var p := h.queue[0];
    if Ends(h.input[p]) {
      TextsAdd(h.lines, Line(h.start, h.run, p, LineText(h, max)));
    }
  }

  lemma TextsAdd(lines: seq<Line>, l: Line)
    ensures Texts(lines + [l]) == Texts(lines) + [l.text]
  {
  }

  lemma CutGrows(input: seq<byte>, start: nat, end: nat, max: nat)
    requires start <= end < |input| && !Ends(input[end])
    ensures Cut(input[start..end + 1], max) == Extended(Cut(input[start..end], max), input[end], max)
  {
    assert input[start..end + 1] == input[start..end] + [input[end]];
  }

  function Texts(lines: seq<Line>): seq<seq<byte>> {
    seq(|lines|, k requires 0 <= k < |lines| => lines[k].text)
  }
}
