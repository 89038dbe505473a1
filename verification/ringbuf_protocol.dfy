/** ringbuf_put and ringbuf_get running at the same time: one producer and one consumer,
    each shared read and each shared write a step of its own, in any interleaving. The
    two indices of a test may be read in either order. */
module RingbufProtocol {
  import opened Basics
  import opened Modular
  import opened Ringbuf

  datatype Option<T> = None | Some(value: T)

  /** Where the producer is inside ringbuf_put(c); `gotThen` is how many bytes had been
      taken when it read get_ptr. */
  datatype Producer =
    | PutIdle
    | PutLoading(c: byte, put: Option<nat>, get: Option<nat>, gotThen: nat)
    | PutStoring(c: byte)
    | PutAdvancing(c: byte)

  /** Where the consumer is inside ringbuf_get; `putThen` is how many bytes had been put
      when it read put_ptr. */
  datatype Consumer =
    | GetIdle
    | GetLoading(put: Option<nat>, get: Option<nat>, putThen: nat)
    | GetFetching
    | GetAdvancing(c: byte)

  /** The shared buffer, the two programs, and the history: bytes accepted by calls of
      ringbuf_put that moved put_ptr, and bytes handed out by calls of ringbuf_get. */
  datatype State = State(
    data: seq<byte>, put_ptr: nat, get_ptr: nat,
    p: Producer, g: Consumer,
    accepted: seq<byte>, returned: seq<byte>)

  datatype Step =
    | CallPut(c: byte) | PutReadsPut | PutReadsGet | PutTests | PutStores | PutAdvances
    | CallGet | GetReadsPut | GetReadsGet | GetTests | GetFetches | GetAdvances

  predicate Enabled(s: State, step: Step) {
    match step
    case CallPut(_) => s.p.PutIdle?
    case PutReadsPut => s.p.PutLoading? && s.p.put.None?
    case PutReadsGet => s.p.PutLoading? && s.p.get.None?
    case PutTests => s.p.PutLoading? && s.p.put.Some? && s.p.get.Some?
    case PutStores => s.p.PutStoring?
    case PutAdvances => s.p.PutAdvancing?
    case CallGet => s.g.GetIdle?
    case GetReadsPut => s.g.GetLoading? && s.g.put.None?
    case GetReadsGet => s.g.GetLoading? && s.g.get.None?
    case GetTests => s.g.GetLoading? && s.g.put.Some? && s.g.get.Some?
    case GetFetches => s.g.GetFetching?
    case GetAdvances => s.g.GetAdvancing?
  }

  /** put_ptr, get_ptr and both programs' copies of them stay inside the array. */
  predicate InBounds(s: State) {
    IsSize(|s.data|) && s.put_ptr < |s.data| && s.get_ptr < |s.data|
  }

  /** The test of ringbuf_put: is the distance equal to the mask? */
  predicate PutRefuses(s: State)
    requires InBounds(s) && Enabled(s, PutTests)
  {
    Masked(s.p.put.value - s.p.get.value, |s.data|) == |s.data| - 1
  }

  /** The test of ringbuf_get: is the distance zero? */
  predicate GetRefuses(s: State)
    requires InBounds(s) && Enabled(s, GetTests)
  {
    Masked(s.g.put.value - s.g.get.value, |s.data|) == 0
  }

  function Next(s: State, step: Step): State
    requires InBounds(s) && Enabled(s, step)
  {
    match step
    case CallPut(c) => s.(p := PutLoading(c, None, None, 0))
    case PutReadsPut => s.(p := s.p.(put := Some(s.put_ptr)))
    case PutReadsGet => s.(p := s.p.(get := Some(s.get_ptr), gotThen := |s.returned|))
    case PutTests => s.(p := if PutRefuses(s) then PutIdle else PutStoring(s.p.c))
    case PutStores => s.(data := s.data[s.put_ptr := s.p.c], p := PutAdvancing(s.p.c))
    case PutAdvances =>
      s.(put_ptr := Masked(s.put_ptr + 1, |s.data|), p := PutIdle, accepted := s.accepted + [s.p.c])
    case CallGet => s.(g := GetLoading(None, None, 0))
    case GetReadsPut => s.(g := s.g.(put := Some(s.put_ptr), putThen := |s.accepted|))
    case GetReadsGet => s.(g := s.g.(get := Some(s.get_ptr)))
    case GetTests => s.(g := if GetRefuses(s) then GetIdle else GetFetching)
    case GetFetches => s.(g := GetAdvancing(s.data[s.get_ptr]))
    case GetAdvances =>
      s.(get_ptr := Masked(s.get_ptr + 1, |s.data|), g := GetIdle, returned := s.returned + [s.g.c])
  }

  /** The indices are the histories' lengths, reduced, and the slots between them hold
      exactly the accepted bytes that have not been returned. */
  ghost predicate Indexed(s: State) {
    && InBounds(s)
    && s.put_ptr == |s.accepted| % |s.data| && s.get_ptr == |s.returned| % |s.data|
    && s.returned <= s.accepted && |s.accepted| - |s.returned| <= |s.data| - 1
  }

  ghost predicate Stored(s: State, i: nat)
    requires InBounds(s) && i < |s.accepted|
  {
    s.data[i % |s.data|] == s.accepted[i]
  }

  ghost predicate Filled(s: State)
    requires InBounds(s)
  {
    forall i {:trigger Stored(s, i)} :: |s.returned| <= i < |s.accepted| ==> Stored(s, i)
  }

  /** What a side has read may be out of date, but only in the safe direction. */
  ghost predicate ProducerOk(s: State)
    requires Indexed(s)
  {
    match s.p
    case PutIdle => true
    case PutLoading(_, put, get, gotThen) =>
      && (put.Some? ==> put.value == s.put_ptr)
      && (get.Some? ==> gotThen <= |s.returned| && get.value == gotThen % |s.data|
                        && |s.accepted| - gotThen <= |s.data| - 1)
    case PutStoring(_) => |s.accepted| - |s.returned| < |s.data| - 1
    case PutAdvancing(c) => |s.accepted| - |s.returned| < |s.data| - 1 && s.data[s.put_ptr] == c
  }

  ghost predicate ConsumerOk(s: State)
    requires Indexed(s)
  {
    match s.g
    case GetIdle => true
    case GetLoading(put, get, putThen) =>
      && (get.Some? ==> get.value == s.get_ptr)
      && (put.Some? ==> |s.returned| <= putThen <= |s.accepted| && put.value == putThen % |s.data|)
    case GetFetching => |s.returned| < |s.accepted|
    case GetAdvancing(c) => |s.returned| < |s.accepted| && c == s.accepted[|s.returned|]
  }

  ghost predicate Inv(s: State) {
    Indexed(s) && Filled(s) && ProducerOk(s) && ConsumerOk(s)
  }

  /** The distance of two reduced counts that are less than a whole turn apart. */
  lemma Apart(a: nat, r: nat, size: nat)
    requires r <= a < r + size
    ensures (a % size - r % size) % size == a - r
  {
    ModDiff(a, r, size);
    ModSmall(a - r, size);
  }

  lemma PutTestsKeeps(s: State)
    requires Inv(s) && Enabled(s, PutTests)
    ensures Inv(Next(s, PutTests))
    ensures PutRefuses(s) <==> |s.accepted| - s.p.gotThen == |s.data| - 1
  {
    PutTestExact(s);
    FilledSame(s, Next(s, PutTests));
  }

  lemma PutTestExact(s: State)
    requires Indexed(s) && ProducerOk(s) && Enabled(s, PutTests)
    ensures PutRefuses(s) <==> |s.accepted| - s.p.gotThen == |s.data| - 1
  {
    Apart(|s.accepted|, s.p.gotThen, |s.data|);
  }

  lemma PutStoresKeeps(s: State)
    requires Inv(s) && Enabled(s, PutStores)
    ensures Inv(Next(s, PutStores))
  {
    var t := Next(s, PutStores);
    forall i {:trigger Stored(t, i)} | |t.returned| <= i < |t.accepted| ensures Stored(t, i) {
      assert Stored(s, i);
      ModApart(i, |s.accepted|, |s.data|);
    }
  }

  lemma PutAdvancesKeeps(s: State)
    requires Inv(s) && Enabled(s, PutAdvances)
    ensures Inv(Next(s, PutAdvances))
  {
    var t := Next(s, PutAdvances);
    ModSum(|s.accepted|, 1, |s.data|);
    forall i {:trigger Stored(t, i)} | |t.returned| <= i < |t.accepted| ensures Stored(t, i) {
      if i < |s.accepted| { assert Stored(s, i); }
    }
  }

  lemma GetTestsKeeps(s: State)
    requires Inv(s) && Enabled(s, GetTests)
    ensures Inv(Next(s, GetTests))
    ensures GetRefuses(s) <==> s.g.putThen == |s.returned|
  {
    GetTestExact(s);
    FilledSame(s, Next(s, GetTests));
  }

  lemma GetTestExact(s: State)
    requires Indexed(s) && ConsumerOk(s) && Enabled(s, GetTests)
    ensures GetRefuses(s) <==> s.g.putThen == |s.returned|
  {
    Apart(s.g.putThen, |s.returned|, |s.data|);
  }

  /** The byte fetched is the oldest one accepted and not returned. */
  lemma GetFetchesKeeps(s: State)
    requires Inv(s) && Enabled(s, GetFetches)
    ensures Inv(Next(s, GetFetches))
    ensures s.data[s.get_ptr] == s.accepted[|s.returned|]
  {
    assert Stored(s, |s.returned|);
    FilledSame(s, Next(s, GetFetches));
  }

  lemma GetAdvancesKeeps(s: State)
    requires Inv(s) && Enabled(s, GetAdvances)
    ensures Inv(Next(s, GetAdvances))
  {
    ModSum(|s.returned|, 1, |s.data|);
    var t := Next(s, GetAdvances);
    forall i {:trigger Stored(t, i)} | |t.returned| <= i < |t.accepted| ensures Stored(t, i) {
      assert Stored(s, i);
    }
  }

  /** Every step of either side, whatever the other side is in the middle of. */
  lemma StepKeeps(s: State, step: Step)
    requires Inv(s) && Enabled(s, step)
    ensures Inv(Next(s, step))
  {
    match step
    case PutTests => PutTestsKeeps(s);
    case PutStores => PutStoresKeeps(s);
    case PutAdvances => PutAdvancesKeeps(s);
    case GetTests => GetTestsKeeps(s);
    case GetFetches => GetFetchesKeeps(s);
    case GetAdvances => GetAdvancesKeeps(s);
    case _ => FilledSame(s, Next(s, step));
  }

  lemma FilledSame(s: State, t: State)
    requires InBounds(s) && Filled(s) && InBounds(t)
    requires t.data == s.data && t.accepted == s.accepted && t.returned == s.returned
    ensures Filled(t)
  {
    forall i {:trigger Stored(t, i)} | |t.returned| <= i < |t.accepted| ensures Stored(t, i) {
      assert Stored(s, i);
    }
  }

  ghost predicate Possible(s: State, steps: seq<Step>)
    requires Inv(s)
    decreases |steps|
  {
    steps != [] ==>
      Enabled(s, steps[0]) && (StepKeeps(s, steps[0]); Possible(Next(s, steps[0]), steps[1..]))
  }

  ghost function Run(s: State, steps: seq<Step>): State
    requires Inv(s) && Possible(s, steps)
    decreases |steps|
  {
    if steps == [] then s
    else
      StepKeeps(s, steps[0]);
      Run(Next(s, steps[0]), steps[1..])
  }

  lemma {:induction false} RunKeeps(s: State, steps: seq<Step>)
    requires Inv(s) && Possible(s, steps)
    ensures Inv(Run(s, steps))
    decreases |steps|
  {
    if steps != [] {
      StepKeeps(s, steps[0]);
      RunKeeps(Next(s, steps[0]), steps[1..]);
    }
  }

  /** After ringbuf_init, before either side has called. */
  function Start(data: seq<byte>): (s: State)
    requires IsSize(|data|)
    ensures Inv(s)
  {
    ModSmall(0, |data|);
    State(data, 0, 0, PutIdle, GetIdle, [], [])
  }

  /** Main result. In every interleaving of one producer and one consumer, what has been
      returned is a prefix of what has been accepted, at most size - 1 bytes are waiting,
      and a byte about to be handed out is the next accepted one, not a stale slot. */
  lemma InterleavingSafe(data: seq<byte>, steps: seq<Step>)
    requires IsSize(|data|) && Possible(Start(data), steps)
    ensures var s := Run(Start(data), steps);
      && s.returned <= s.accepted
      && |s.accepted| - |s.returned| <= |data| - 1
      && (s.g.GetAdvancing? ==> |s.returned| < |s.accepted| && s.g.c == s.accepted[|s.returned|])
  {
    RunKeeps(Start(data), steps);
    RunSize(Start(data), steps);
  }

  lemma {:induction false} RunSize(s: State, steps: seq<Step>)
    requires Inv(s) && Possible(s, steps)
    ensures |Run(s, steps).data| == |s.data|
    decreases |steps|
  {
    if steps != [] {
      StepKeeps(s, steps[0]);
      RunSize(Next(s, steps[0]), steps[1..]);
    }
  }

  /** A refusal is never spurious: ringbuf_put refuses only if the buffer was full, and
      ringbuf_get only if it was empty, at the moment the other side's index was read. */
  lemma RefusalsHonest(s: State)
    requires Inv(s)
    ensures Enabled(s, PutTests) ==> (PutRefuses(s) <==> |s.accepted| - s.p.gotThen == |s.data| - 1)
    ensures Enabled(s, GetTests) ==> (GetRefuses(s) <==> s.g.putThen - |s.returned| == 0)
  {
    if Enabled(s, PutTests) { PutTestsKeeps(s); }
    if Enabled(s, GetTests) { GetTestsKeeps(s); }
  }

  /** What the masked expressions come to. */
  lemma MaskedIndices(s: State)
    requires InBounds(s)
    ensures Masked(s.put_ptr - s.get_ptr, |s.data|) == |Window(s.data, s.get_ptr, s.put_ptr)|
    ensures Masked(s.put_ptr + 1, |s.data|) == Wrapped(s.put_ptr + 1, |s.data|)
    ensures Masked(s.get_ptr + 1, |s.data|) == Wrapped(s.get_ptr + 1, |s.data|)
  {
    WrappedMod(s.put_ptr - s.get_ptr, |s.data|);
    WrappedMod(s.put_ptr + 1, |s.data|);
    WrappedMod(s.get_ptr + 1, |s.data|);
  }

  /** The steps of ringbuf_put up to its test, the other side at rest meanwhile. */
  function PutReads(s: State, c: byte): (t: State)
    requires InBounds(s) && s.p.PutIdle?
    ensures t == s.(p := PutLoading(c, Some(s.put_ptr), Some(s.get_ptr), |s.returned|))
  {
    Next(Next(Next(s, CallPut(c)), PutReadsPut), PutReadsGet)
  }

  /** And those from its test on, when it does not refuse. */
  function PutCompletes(t: State): (u: State)
    requires InBounds(t) && Enabled(t, PutTests) && !PutRefuses(t)
    ensures u == t.(data := t.data[t.put_ptr := t.p.c], put_ptr := Masked(t.put_ptr + 1, |t.data|),
                    p := PutIdle, accepted := t.accepted + [t.p.c])
  {
    Next(Next(Next(t, PutTests), PutStores), PutAdvances)
  }

  function GetReads(s: State): (t: State)
    requires InBounds(s) && s.g.GetIdle?
    ensures t == s.(g := GetLoading(Some(s.put_ptr), Some(s.get_ptr), |s.accepted|))
  {
    Next(Next(Next(s, CallGet), GetReadsPut), GetReadsGet)
  }

  function GetCompletes(t: State): (u: State)
    requires InBounds(t) && Enabled(t, GetTests) && !GetRefuses(t)
    ensures u == t.(get_ptr := Masked(t.get_ptr + 1, |t.data|), g := GetIdle,
                    returned := t.returned + [t.data[t.get_ptr]])
  {
    Next(Next(Next(t, GetTests), GetFetches), GetAdvances)
  }

  /** With no step of the consumer between them, the steps of one ringbuf_put add up to the
      sequential method: the byte is accepted exactly if there was room for it. */
  lemma SoloPut(s: State, c: byte)
    requires InBounds(s) && s.p.PutIdle?
    ensures var t := PutReads(s, c); var w := Window(s.data, s.get_ptr, s.put_ptr);
      && (PutRefuses(t) <==> |w| == |s.data| - 1)
      && (!PutRefuses(t) ==>
            var u := PutCompletes(t);
            && u.accepted == s.accepted + [c] && u.returned == s.returned && u.g == s.g
            && Window(u.data, u.get_ptr, u.put_ptr) == w + [c])
  {
    MaskedIndices(s);
    if |Window(s.data, s.get_ptr, s.put_ptr)| < |s.data| - 1 {
      WindowPut(s.data, s.get_ptr, s.put_ptr, c);
    }
  }

  /** Likewise the steps of one ringbuf_get: it takes the oldest byte that waits, and is
      refused exactly if none does. */
  lemma SoloGet(s: State)
    requires InBounds(s) && s.g.GetIdle?
    ensures var t := GetReads(s); var w := Window(s.data, s.get_ptr, s.put_ptr);
      && (GetRefuses(t) <==> w == [])
      && (!GetRefuses(t) ==>
            var u := GetCompletes(t);
            && w != [] && u.returned == s.returned + [w[0]] && u.accepted == s.accepted && u.p == s.p
            && Window(u.data, u.get_ptr, u.put_ptr) == w[1..])
  {
    MaskedIndices(s);
    if s.put_ptr != s.get_ptr {
      WindowGet(s.data, s.get_ptr, s.put_ptr);
    }
  }
}
