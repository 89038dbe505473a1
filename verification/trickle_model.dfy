/** The timer of os/lib/trickle-timer.c on values, beside the algorithm of section 4.2 of
    RFC 6206 that it is meant to be. The timer sees a clock of `w` bits that wraps and
    counts in eight bits; the algorithm has true time and a true count. */
module TrickleModel {
  import opened Basics
  import opened Modular
  import opened MaxImax

  /** The ctimer: which function it will call, after how long, and when it was set. */
  datatype Pending = Nothing | ToFire(delay: nat, at: nat) | ToDouble(delay: nat, at: nat)

  /** struct trickle_timer. i_cur is 0 while the timer is stopped. */
  datatype Timer = Timer(
    i_min: nat, i_cur: nat, i_start: nat, i_max_abs: nat, ct: Pending,
    i_max: nat, k: nat, c: nat)

  /** What trickle_timer_config leaves behind. */
  ghost predicate Configured(tt: Timer, w: nat) {
    && IsWidth(w) && 2 <= tt.i_min && tt.k < 256
    && tt.i_max_abs == tt.i_min * Pow2(tt.i_max) && tt.i_min <= tt.i_max_abs <= Pow2(w - 1)
  }

  /** get_t. */
  function GetT(i_cur: nat, rand: nat): (t: nat)
    requires i_cur >= 2
    ensures i_cur / 2 <= t < i_cur
  {
    i_cur / 2 + rand % (i_cur / 2)
  }

  /** A generator that reaches the numbers below I/2 makes get_t pick `t`. */
  ghost predicate Picks(i: nat, t: nat)
    requires i >= 2
  {
    exists rand: nat :: rand < i / 2 && GetT(i, rand) == t
  }

  /** The points that get_t picks: every one of the second half, except the last one if I is
      odd, and no more with a generator that reaches further. */
  lemma PointsExactly(i: nat, t: nat)
    requires i >= 2
    ensures Picks(i, t) <==> i / 2 <= t < i - i % 2
    ensures forall rand: nat :: Picks(i, GetT(i, rand))
  {
    var h := i / 2;
    assert i == 2 * h + i % 2;
    if h <= t < 2 * h {
      ModSmall(t - h, h);
      assert GetT(i, t - h) == t;
    }
    forall rand: nat ensures Picks(i, GetT(i, rand)) {
      ModSmall(rand % h, h);
      assert GetT(i, rand % h) == GetT(i, rand);
    }
  }

  /** So all of [I/2, I) is reached exactly for an even I. */
  lemma AllPointsExactly(i: nat)
    requires i >= 2
    ensures (forall t: nat :: i / 2 <= t < i ==> Picks(i, t)) <==> i % 2 == 0
  {
    forall t: nat ensures Picks(i, t) <==> i / 2 <= t < i - i % 2 {
      PointsExactly(i, t);
    }
    var last: nat := i - 1;
    assert Picks(i, last) <==> i / 2 <= last < i - i % 2;
  }

  /** The number of ticks until `due`, or 0 when that looks like the past. */
  function Until(due: int, now: nat, w: nat): nat {
    var d := (due - now) % Pow2(w);
    if d > Shr(ClockMax(w), 1) then 0 else d
  }

  /** trickle_timer_config with i_max already adjusted. */
  function Config(tt: Timer, i_min: nat, i_max: nat, k: nat, w: nat): Timer {
    tt.(i_min := i_min, i_max := i_max, i_max_abs := Shl(i_min, i_max, w), k := k, i_cur := 0)
  }

  /** new_interval; `now` is clock_time(). */
  function NewInterval(tt: Timer, now: nat, rand: nat): Timer
    requires tt.i_cur >= 2
  {
    tt.(c := 0, ct := ToFire(GetT(tt.i_cur, rand), now), i_start := now)
  }

  /** trickle_timer_set. */
  function Set(tt: Timer, now: nat, rand0: nat, rand1: nat): Timer
    requires 2 <= tt.i_min <= tt.i_max_abs
  {
    NewInterval(tt.(i_cur := tt.i_min + rand0 % (tt.i_max_abs - tt.i_min + 1)), now, rand1)
  }

  /** Every interval between Imin and the largest one can be the first, and no other. */
  lemma FirstIntervals(tt: Timer, i: nat, now: nat, rand1: nat)
    requires 2 <= tt.i_min <= tt.i_max_abs
    ensures (exists rand0: nat :: rand0 <= tt.i_max_abs - tt.i_min && Set(tt, now, rand0, rand1).i_cur == i)
      <==> tt.i_min <= i <= tt.i_max_abs
  {
    if tt.i_min <= i <= tt.i_max_abs {
      var rand0: nat := i - tt.i_min;
      ModSmall(rand0, tt.i_max_abs - tt.i_min + 1);
      assert Set(tt, now, rand0, rand1).i_cur == i;
    }
  }

  /** trickle_timer_consistency. */
  function Consistency(tt: Timer): Timer {
    if tt.i_cur != 0 && tt.c < 0xFF then tt.(c := tt.c + 1) else tt
  }

  /** trickle_timer_inconsistency. */
  function Inconsistency(tt: Timer, now: nat, rand: nat): Timer
    requires tt.i_min >= 2
  {
    if tt.i_cur != 0 && tt.i_cur != tt.i_min then NewInterval(tt.(i_cur := tt.i_min), now, rand) else tt
  }

  /** trickle_timer_stop. */
  function Stop(tt: Timer): Timer {
    tt.(ct := Nothing, i_cur := 0)
  }

  /** TRICKLE_TIMER_PROTO_TX_ALLOW, the argument of the protocol's callback. */
  predicate TxAllowed(tt: Timer) {
    tt.k == 0 || tt.c < tt.k
  }

  /** fire, for a callback that stops the timer or leaves it alone. The ctimer that called it
      is no longer pending. */
  function Fire(tt: Timer, stops: bool, now: nat, w: nat): Timer {
    if stops then Stop(tt)
    else if tt.i_cur == 0 then tt.(ct := Nothing)
    else tt.(ct := ToDouble(Until((tt.i_start + tt.i_cur) % Pow2(w), now, w), now))
  }

  /** The interval after one of length `i`. */
  function Doubled(i: nat, imax: nat, w: nat): nat {
    if i <= Shr(imax, 1) then Shl(i, 1, w) else imax
  }

  /** double_interval, with drift compensation. */
  function DoubleInterval(tt: Timer, now: nat, rand: nat, w: nat): Timer {
    IntervalAt(tt, Doubled(tt.i_cur, tt.i_max_abs, w), (tt.i_start + tt.i_cur) % Pow2(w), now, rand, w)
  }

  /** The doubled interval has no half, and get_t divides by zero. */
  predicate DividesByZero(tt: Timer, w: nat) {
    Doubled(tt.i_cur, tt.i_max_abs, w) < 2
  }

  /** An interval of length `i` that begins at `at` on the clock, `now` being later; without
      a half, the fields are as they stand when get_t divides. */
  function IntervalAt(tt: Timer, i: nat, at: nat, now: nat, rand: nat, w: nat): Timer {
    if i < 2 then tt.(c := 0, i_cur := i, ct := Nothing)
    else tt.(c := 0, i_cur := i, ct := ToFire(Until((at + GetT(i, rand)) % Pow2(w), now, w), now), i_start := at)
  }

  /** The state of section 4.2: the interval I, its start, the point t in it, and the
      number n of consistent transmissions heard in it. `armed` is when the timer was last
      told to wait. */
  datatype Rfc =
    | Stopped
    | Running(I: nat, start: nat, t: nat, n: nat, fired: bool, armed: nat)

  datatype Event =
    | DoSet(now: nat, rand0: nat, rand1: nat)
    | Consistent
    | Inconsistent(now: nat, rand: nat)
    | AtT(now: nat, stops: bool)
    | AtEnd(now: nat, rand: nat)
    | DoStop
    | DoConfig(i_min: nat, i_max: nat, k: nat)

  /** Rule 2: an interval of length I begins at `at`. */
  predicate Begins(s: Rfc, I: nat, at: nat, now: nat) {
    s.Running? && s.I == I && s.start == at && s.n == 0 && !s.fired && s.armed == now && I / 2 <= s.t < I
  }

  /** One step of the algorithm of section 4.2 with parameters Imin and Imax. */
  predicate RfcStep(imin: nat, imax: nat, s: Rfc, e: Event, s': Rfc) {
    match e
    case DoSet(now, _, _) => s'.Running? && imin <= s'.I <= imax && Begins(s', s'.I, now, now)
    case Consistent => s' == if s.Running? then s.(n := s.n + 1) else s
    case Inconsistent(now, _) =>
      if s.Running? && s.I > imin then Begins(s', imin, now, now) else s' == s
    case AtT(now, stops) =>
      s.Running? && !s.fired && s' == if stops then Stopped else s.(fired := true, armed := now)
    case AtEnd(now, _) =>
      s.Running? && s.fired && Begins(s', Min(2 * s.I, imax), s.start + s.I, now)
    case DoStop => s' == Stopped
    case DoConfig(_, _, _) => s == Stopped == s'
  }

  /** When the algorithm wants to be woken next. */
  function Due(s: Rfc): nat
    requires s.Running?
  {
    if s.fired then s.start + s.I else s.start + s.t
  }

  function Wait(due: nat, now: nat): nat {
    if due <= now then 0 else due - now
  }

  /** The timer and the algorithm agree, and the ctimer waits for the right moment. */
  ghost predicate Agree(tt: Timer, s: Rfc, w: nat) {
    && Configured(tt, w)
    && match s
       case Stopped => tt.i_cur == 0 && tt.ct.Nothing?
       case Running(I, start, t, n, fired, armed) =>
         && tt.i_cur == I && tt.i_min <= I <= tt.i_max_abs && I / 2 <= t < I
         && tt.i_start == start % Pow2(w) && tt.c == Min(n, 0xFF)
         && tt.ct == (if fired then ToDouble(Wait(Due(s), armed), armed % Pow2(w))
                      else ToFire(Wait(Due(s), armed), armed % Pow2(w)))
  }

  /** Parameters that trickle_timer_config takes, Imax having been lowered if need be. */
  predicate LegalParameters(i_min: nat, i_max: nat, k: nat, w: nat)
    requires w > 0
  {
    2 <= i_min && i_min * Pow2(i_max) <= Pow2(w - 1) && 0 < k < 256
  }

  /** A ctimer event comes no earlier than asked for and less than half a turn of the
      clock too late; every event comes after the one before it. The timer is reconfigured
      only while it is stopped and its ctimer with it. */
  predicate Timely(s: Rfc, e: Event, w: nat)
    requires w > 0
  {
    match e
    case AtT(now, _) => s.Running? && !s.fired && Due(s) <= now <= s.start + s.I + Pow2(w - 1)
    case AtEnd(now, _) => s.Running? && s.fired && Due(s) <= now <= Due(s) + Pow2(w - 1)
    case DoConfig(i_min, i_max, k) => s.Stopped? && LegalParameters(i_min, i_max, k, w)
    case _ => true
  }

  /** What the C code does with an event. */
  function Step(tt: Timer, e: Event, w: nat): Timer
    requires 2 <= tt.i_min <= tt.i_max_abs
  {
    match e
    case DoSet(now, rand0, rand1) => Set(tt, now % Pow2(w), rand0, rand1)
    case Consistent => Consistency(tt)
    case Inconsistent(now, rand) => Inconsistency(tt, now % Pow2(w), rand)
    case AtT(now, stops) => Fire(tt, stops, now % Pow2(w), w)
    case AtEnd(now, rand) => DoubleInterval(tt, now % Pow2(w), rand, w)
    case DoStop => Stop(tt)
    case DoConfig(i_min, i_max, k) => Config(tt, i_min, i_max, k, w)
  }

  lemma HalfTurn(w: nat)
    requires w > 0
    ensures Pow2(w) == 2 * Pow2(w - 1) && Shr(ClockMax(w), 1) == Pow2(w - 1) - 1
  {
  }

  /** A signed distance of less than half a turn, read off the wrapped difference. */
  lemma SignedMod(d: int, h: nat)
    requires h > 0 && 0 <= d + h && d < h
    ensures d % (2 * h) == if d >= 0 then d else d + 2 * h
  {
    if d >= 0 { ModUnique(d, 2 * h, 0, d); } else { ModUnique(d, 2 * h, -1, d + 2 * h); }
  }

  /** On wrapping clocks, the time to wait is the true one, or 0 if it has passed. */
  lemma UntilExact(due: nat, now: nat, w: nat)
    requires IsWidth(w) && due - now < Pow2(w - 1) && now - due <= Pow2(w - 1)
    ensures Until(due % Pow2(w), now % Pow2(w), w) == Wait(due, now)
  {
    HalfTurn(w);
    ModDiff(due, now, Pow2(w));
    SignedMod(due - now, Pow2(w - 1));
  }

  lemma EndExact(tt: Timer, start: nat, w: nat)
    requires tt.i_start == start % Pow2(w)
    ensures (tt.i_start + tt.i_cur) % Pow2(w) == (start + tt.i_cur) % Pow2(w)
  {
    ModSum(start, tt.i_cur, Pow2(w));
  }

  /** Doubling never loses a bit, and gives min(2I, Imax). */
  lemma DoubledExact(i: nat, imax: nat, w: nat)
    requires IsWidth(w) && imax <= Pow2(w - 1)
    ensures Doubled(i, imax, w) == Min(2 * i, imax)
  {
    assert Pow2(1) == 2 && Pow2(w) == 2 * Pow2(w - 1);
    if i <= imax / 2 { ModSmall(2 * i, Pow2(w)); }
  }

  /** What the algorithm makes of the same event and the same random numbers. */
  function SpecStep(tt: Timer, s: Rfc, e: Event, w: nat): Rfc
    requires 2 <= tt.i_min <= tt.i_max_abs
  {
    match e
    case DoSet(now, rand0, rand1) =>
      var I := tt.i_min + rand0 % (tt.i_max_abs - tt.i_min + 1);
      Running(I, now, GetT(I, rand1), 0, false, now)
    case Consistent => if s.Running? then s.(n := s.n + 1) else s
    case Inconsistent(now, rand) =>
      if s.Running? && s.I > tt.i_min then Running(tt.i_min, now, GetT(tt.i_min, rand), 0, false, now) else s
    case AtT(now, stops) => if stops then Stopped else if s.Running? then s.(fired := true, armed := now) else s
    case AtEnd(now, rand) =>
      if s.Running? && s.I > 0 then
        var I := Min(2 * s.I, tt.i_max_abs);
        Running(I, s.start + s.I, GetT(I, rand), 0, false, now)
      else s
    case DoStop => Stopped
    case DoConfig(_, _, _) => s
  }

  /** fire sets the ctimer for the true end of the interval. */
  lemma FireExact(tt: Timer, start: nat, now: nat, w: nat)
    requires IsWidth(w) && tt.i_cur != 0 && tt.i_start == start % Pow2(w)
    requires start + tt.i_cur - now < Pow2(w - 1) && now - (start + tt.i_cur) <= Pow2(w - 1)
    ensures Fire(tt, false, now % Pow2(w), w) == tt.(ct := ToDouble(Wait(start + tt.i_cur, now), now % Pow2(w)))
  {
    EndExact(tt, start, w);
    UntilExact(start + tt.i_cur, now, w);
  }

  /** double_interval starts the next interval exactly where the last one ended, and sets
      the ctimer for the true point t in it. */
  lemma DoubleExact(tt: Timer, start: nat, now: nat, rand: nat, w: nat)
    requires Configured(tt, w) && tt.i_start == start % Pow2(w) && tt.i_min <= tt.i_cur <= tt.i_max_abs
    requires start + tt.i_cur <= now <= start + tt.i_cur + Pow2(w - 1)
    ensures var I := Min(2 * tt.i_cur, tt.i_max_abs);
      DoubleInterval(tt, now % Pow2(w), rand, w) ==
        tt.(c := 0, i_cur := I, ct := ToFire(Wait(start + tt.i_cur + GetT(I, rand), now), now % Pow2(w)),
            i_start := (start + tt.i_cur) % Pow2(w))
  {
    EndExact(tt, start, w);
    DoubledExact(tt.i_cur, tt.i_max_abs, w);
    IntervalAtExact(tt, Min(2 * tt.i_cur, tt.i_max_abs), start + tt.i_cur, now, rand, w);
  }

  lemma IntervalAtExact(tt: Timer, i: nat, at: nat, now: nat, rand: nat, w: nat)
    requires IsWidth(w) && 2 <= i <= Pow2(w - 1) && at <= now <= at + Pow2(w - 1)
    ensures IntervalAt(tt, i, at % Pow2(w), now % Pow2(w), rand, w) ==
      tt.(c := 0, i_cur := i, ct := ToFire(Wait(at + GetT(i, rand), now), now % Pow2(w)), i_start := at % Pow2(w))
  {
    WaitForT(at, GetT(i, rand), now, w);
  }

  /** The distance to `t` ticks after `end`, both known modulo the clock only. */
  lemma WaitForT(end: nat, t: nat, now: nat, w: nat)
    requires IsWidth(w) && end + t - now < Pow2(w - 1) && now - (end + t) <= Pow2(w - 1)
    ensures Until((end % Pow2(w) + t) % Pow2(w), now % Pow2(w), w) == Wait(end + t, now)
  {
    ModSum(end, t, Pow2(w));
    UntilExact(end + t, now, w);
  }

  lemma AtTRefines(tt: Timer, s: Rfc, e: Event, w: nat)
    requires e.AtT? && Agree(tt, s, w) && Timely(s, e, w)
    ensures Agree(Step(tt, e, w), SpecStep(tt, s, e, w), w)
    ensures RfcStep(tt.i_min, tt.i_max_abs, s, e, SpecStep(tt, s, e, w))
    ensures TxAllowed(tt) <==> tt.k == 0 || s.n < tt.k
  {
    if !e.stops {
      HalfTurn(w);
      FireExact(tt, s.start, e.now, w);
    }
  }

  lemma AtEndRefines(tt: Timer, s: Rfc, e: Event, w: nat)
    requires e.AtEnd? && Agree(tt, s, w) && Timely(s, e, w)
    ensures Agree(Step(tt, e, w), SpecStep(tt, s, e, w), w)
    ensures RfcStep(tt.i_min, tt.i_max_abs, s, e, SpecStep(tt, s, e, w))
  {
    DoubleExact(tt, s.start, e.now, e.rand, w);
    var I := Min(2 * s.I, tt.i_max_abs);
    assert SpecStep(tt, s, e, w) == Running(I, s.start + s.I, GetT(I, e.rand), 0, false, e.now);
    IntervalAgrees(tt, I, s.start + s.I, GetT(I, e.rand), e.now, w);
  }

  /** The fields of a fresh interval agree with the algorithm's. */
  lemma IntervalAgrees(tt: Timer, I: nat, start: nat, t: nat, now: nat, w: nat)
    requires Configured(tt, w) && tt.i_min <= I <= tt.i_max_abs && I / 2 <= t < I
    ensures var p := Pow2(w);
      Agree(tt.(c := 0, i_cur := I, ct := ToFire(Wait(start + t, now), now % p), i_start := start % p),
            Running(I, start, t, 0, false, now), w)
  {
  }

  lemma SetRefines(tt: Timer, s: Rfc, e: Event, w: nat)
    requires e.DoSet? && Agree(tt, s, w)
    ensures Agree(Step(tt, e, w), SpecStep(tt, s, e, w), w)
    ensures RfcStep(tt.i_min, tt.i_max_abs, s, e, SpecStep(tt, s, e, w))
  {
  }

  lemma InconsistentRefines(tt: Timer, s: Rfc, e: Event, w: nat)
    requires e.Inconsistent? && Agree(tt, s, w)
    ensures Agree(Step(tt, e, w), SpecStep(tt, s, e, w), w)
    ensures RfcStep(tt.i_min, tt.i_max_abs, s, e, SpecStep(tt, s, e, w))
  {
  }

  /** Every step of the timer is a step of the algorithm, as long as ctimer events come
      in time: the interval stays in [Imin, Imax], t in its second half, an expired
      interval is followed without a gap by one of length min(2I, Imax), and the callback
      is told to transmit exactly when k is 0 or fewer than k consistent transmissions
      have been heard, however many there were. */
  lemma StepRefines(tt: Timer, s: Rfc, e: Event, w: nat)
    requires Agree(tt, s, w) && Timely(s, e, w)
    ensures Agree(Step(tt, e, w), SpecStep(tt, s, e, w), w)
    ensures RfcStep(tt.i_min, tt.i_max_abs, s, e, SpecStep(tt, s, e, w))
    ensures e.AtT? ==> (TxAllowed(tt) <==> tt.k == 0 || s.n < tt.k)
  {
    match e
    case AtT(_, _) => AtTRefines(tt, s, e, w);
    case AtEnd(_, _) => AtEndRefines(tt, s, e, w);
    case DoSet(_, _, _) => SetRefines(tt, s, e, w);
    case Inconsistent(_, _) => InconsistentRefines(tt, s, e, w);
    case DoConfig(i_min, i_max, k) => ConfigAgrees(tt, i_min, i_max, k, w);
    case _ => CountRefines(tt, s, e, w);
  }

  lemma CountRefines(tt: Timer, s: Rfc, e: Event, w: nat)
    requires (e.Consistent? || e.DoStop?) && Agree(tt, s, w)
    ensures Agree(Step(tt, e, w), SpecStep(tt, s, e, w), w)
    ensures RfcStep(tt.i_min, tt.i_max_abs, s, e, SpecStep(tt, s, e, w))
  {
  }

  // ---- Reconfiguration ----

  /** trickle_timer_config clears i_cur and does not stop the ctimer: the timer is stopped
      afterwards exactly if no ctimer was pending. */
  lemma ConfigAgrees(tt: Timer, i_min: nat, i_max: nat, k: nat, w: nat)
    requires IsWidth(w) && LegalParameters(i_min, i_max, k, w)
    ensures Agree(Config(tt, i_min, i_max, k, w), Stopped, w) <==> tt.ct.Nothing?
    ensures Configured(Config(tt, i_min, i_max, k, w), w)
  {
    MulAtLeast(Pow2(i_max), i_min);
    ModSmall(i_min * Pow2(i_max), Pow2(w));
  }

  /** A reconfigured timer whose double_interval is still pending. */
  predicate Lingers(tt: Timer) {
    tt.i_cur == 0 && tt.ct.ToDouble?
  }

  /** double_interval reaches a division by zero exactly on a timer whose interval is 0. */
  lemma DividesExactly(tt: Timer, w: nat)
    requires Configured(tt, w)
    ensures DividesByZero(tt, w) <==> tt.i_cur == 0
  {
    DoubledExact(tt.i_cur, tt.i_max_abs, w);
  }

  /** A timer that runs, has fired and is then reconfigured before the end of its interval
      lingers, and its double_interval divides by zero. */
  lemma FiredReconfiguredDivides(tt: Timer, s: Rfc, i_min: nat, i_max: nat, k: nat, w: nat)
    requires Agree(tt, s, w) && s.Running? && s.fired && LegalParameters(i_min, i_max, k, w)
    ensures var u := Config(tt, i_min, i_max, k, w); Lingers(u) && DividesByZero(u, w)
  {
    ConfigAgrees(tt, i_min, i_max, k, w);
    DividesExactly(Config(tt, i_min, i_max, k, w), w);
  }

  /** A pending fire survives reconfiguration as well, and does no harm: it calls nobody,
      and the timer is stopped. */
  lemma ReconfiguredFireHarmless(tt: Timer, s: Rfc, i_min: nat, i_max: nat, k: nat, now: nat, w: nat)
    requires Agree(tt, s, w) && s.Running? && !s.fired && LegalParameters(i_min, i_max, k, w)
    ensures var u := Config(tt, i_min, i_max, k, w);
      u.ct.ToFire? && Agree(Fire(u, false, now, w), Stopped, w)
  {
    ConfigAgrees(tt, i_min, i_max, k, w);
  }

  /** Setting or stopping a configured timer replaces the ctimer, whatever was pending. */
  lemma SetAndStopHeal(tt: Timer, now: nat, rand0: nat, rand1: nat, w: nat)
    requires Configured(tt, w)
    ensures var e := DoSet(now, rand0, rand1); Agree(Step(tt, e, w), SpecStep(tt, Stopped, e, w), w)
    ensures Agree(Stop(tt), Stopped, w)
  {
  }

  /** The only event that makes a timer linger is a reconfiguration between fire and the end
      of the interval; it goes on until the timer is set, stopped or its ctimer comes. */
  lemma LingersExactly(tt: Timer, e: Event, w: nat)
    requires Configured(tt, w) && (tt.i_cur == 0 || tt.i_cur >= 2) && tt.i_cur <= tt.i_max_abs
    ensures Lingers(Step(tt, e, w)) <==>
      (e.DoConfig? && tt.ct.ToDouble?) || (Lingers(tt) && (e.Consistent? || e.Inconsistent?))
  {
    DoubledExact(tt.i_cur, tt.i_max_abs, w);
  }

  /** Imin, the largest interval and k, as the last configuration set them. */
  datatype Parameters = Parameters(imin: nat, imax: nat, k: nat)

  function ParametersOf(tt: Timer): Parameters {
    Parameters(tt.i_min, tt.i_max_abs, tt.k)
  }

  function NextParameters(p: Parameters, e: Event): Parameters {
    if e.DoConfig? then Parameters(e.i_min, e.i_min * Pow2(e.i_max), e.k) else p
  }

  lemma SameParameters(tt: Timer, s: Rfc, e: Event, w: nat)
    requires 2 <= tt.i_min <= tt.i_max_abs && IsWidth(w) && Timely(s, e, w)
    ensures ParametersOf(Step(tt, e, w)) == NextParameters(ParametersOf(tt), e)
  {
    if e.DoConfig? {
      ModSmall(e.i_min * Pow2(e.i_max), Pow2(w));
    }
  }

  /** All ctimer events of the run come in time. */
  predicate AllTimely(tt: Timer, s: Rfc, es: seq<Event>, w: nat)
    requires w > 0
    decreases |es|
  {
    es != [] ==>
      && Timely(s, es[0], w) && 2 <= tt.i_min <= tt.i_max_abs
      && AllTimely(Step(tt, es[0], w), SpecStep(tt, s, es[0], w), es[1..], w)
  }

  /** The transmit decisions the timer takes during a run. */
  function Decisions(tt: Timer, s: Rfc, es: seq<Event>, w: nat): seq<bool>
    requires w > 0 && AllTimely(tt, s, es, w)
    decreases |es|
  {
    if es == [] then []
    else
      (if es[0].AtT? then [TxAllowed(tt)] else [])
      + Decisions(Step(tt, es[0], w), SpecStep(tt, s, es[0], w), es[1..], w)
  }

  /** `ss` is a run of the algorithm under the same events, and `tx` are its decisions:
      transmit if k is 0 or fewer than k consistent transmissions have been counted. */
  ghost predicate RfcRun(p: Parameters, ss: seq<Rfc>, es: seq<Event>, tx: seq<bool>)
    decreases |es|
  {
    && |ss| == |es| + 1
    && (es == [] ==> tx == [])
    && (es != [] ==>
          && RfcStep(p.imin, p.imax, ss[0], es[0], ss[1])
          && (es[0].AtT? ==>
                && ss[0].Running? && tx != [] && tx[0] == (p.k == 0 || ss[0].n < p.k)
                && RfcRun(p, ss[1..], es[1..], tx[1..]))
          && (!es[0].AtT? ==> RfcRun(NextParameters(p, es[0]), ss[1..], es[1..], tx)))
  }

  /** The states of the algorithm under the same events and the same random numbers. */
  function SpecStates(tt: Timer, s: Rfc, es: seq<Event>, w: nat): (ss: seq<Rfc>)
    requires w > 0 && AllTimely(tt, s, es, w)
    ensures |ss| == |es| + 1 && ss[0] == s
    decreases |es|
  {
    if es == [] then [s] else [s] + SpecStates(Step(tt, es[0], w), SpecStep(tt, s, es[0], w), es[1..], w)
  }

  /** Main result: every run of the timer takes the decisions of a run of section 4.2. */
  lemma {:induction false} RunRefines(tt: Timer, s: Rfc, es: seq<Event>, w: nat)
    requires Agree(tt, s, w) && AllTimely(tt, s, es, w)
    ensures RfcRun(ParametersOf(tt), SpecStates(tt, s, es, w), es, Decisions(tt, s, es, w))
    decreases |es|
  {
    if es != [] {
      var e, u, v := es[0], Step(tt, es[0], w), SpecStep(tt, s, es[0], w);
      StepRefines(tt, s, e, w);
      SameParameters(tt, s, e, w);
      RunRefines(u, v, es[1..], w);
      RfcRunCons(ParametersOf(tt), s, SpecStates(u, v, es[1..], w), es,
                 if e.AtT? then [TxAllowed(tt)] else [], Decisions(u, v, es[1..], w));
    }
  }

  lemma RfcRunCons(p: Parameters, s: Rfc, ss: seq<Rfc>, es: seq<Event>, first: seq<bool>, tx: seq<bool>)
    requires es != [] && ss != [] && RfcRun(NextParameters(p, es[0]), ss, es[1..], tx)
    requires RfcStep(p.imin, p.imax, s, es[0], ss[0])
    requires if es[0].AtT? then s.Running? && first == [p.k == 0 || s.n < p.k] else first == []
    ensures RfcRun(p, [s] + ss, es, first + tx)
  {
    assert ([s] + ss)[1..] == ss;
    assert es[0].AtT? ==> (first + tx)[1..] == tx;
    assert !es[0].AtT? ==> first + tx == tx;
  }
}
