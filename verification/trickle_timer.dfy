/** os/lib/trickle-timer.c over the fields of struct trickle_timer. clock_time() and the
    random numbers are parameters, the ctimer is what it was last told to do. */
module TrickleTimer {
  import opened Modular
  import opened MaxImax
  import opened TrickleModel

  class Trickle {
    const w: nat
    /** TRICKLE_TIMER_MAX_IMAX_WIDTH selects a fixed-width variant. */
    const fixedWidth: bool
    /** The machine's shifts of a clock value, defined for counts below `promoted`. */
    const shl: Shifter
    const shr: Shifter
    const promoted: nat
    var i_min: nat
    var i_cur: nat
    var i_start: nat
    var i_max_abs: nat
    var ct: Pending
    var cb: bool
    var i_max: nat
    var k: nat
    var c: nat

    ghost function View(): Timer
      reads this
    {
      Timer(i_min, i_cur, i_start, i_max_abs, ct, i_max, k, c)
    }

    ghost predicate Machine() {
      IsWidth(w) && Shifts(shl, shr, w, promoted)
    }

    constructor (width: nat, fixed: bool, left: Shifter, right: Shifter, bits: nat)
      requires IsWidth(width) && Shifts(left, right, width, bits)
      ensures w == width && fixedWidth == fixed && i_cur == 0 && ct.Nothing? && Machine()
    {
      w, fixedWidth, shl, shr, promoted := width, fixed, left, right, bits;
      i_min, i_cur, i_start, i_max_abs, ct, cb := 0, 0, 0, 0, Nothing, false;
      i_max, k, c := 0, 0, 0;
    }

    /** max_imax in the flavour configured. */
    method LargestImax(value: nat) returns (r: nat)
      requires IsWidth(w) && !IminIsBad(value, w)
      ensures value * Pow2(r) <= Pow2(w - 1)
      ensures !fixedWidth ==> Pow2(w - 1) < value * Pow2(r + 1)
      ensures fixedWidth ==> Pow2(w - 1) <= value * Pow2(r + 1)
    {
      if !fixedWidth {
        r := MaxImaxGeneric(w, value);
      } else if w == 16 {
        r := MaxImax16(value);
      } else {
        r := MaxImax32(value);
      }
    }

    /** The check of Imin << Imax: an Imax that does not fit is lowered. */
    method FitImax(imin: nat, imax: nat) returns (m: nat)
      requires Machine() && !IminIsBad(imin, w)
      ensures imax + 1 < promoted ==>
        && m <= imax && (m == imax <==> imin * Pow2(imax) <= Pow2(w - 1))
        && imin <= imin * Pow2(m) <= Pow2(w - 1)
        && (m < imax && !fixedWidth ==> imin * Pow2(m + 1) > Pow2(w - 1))
    {
      m := imax;
      var bad := IpairIsBad(imin, imax, w, shr);
      if bad {
        m := LargestImax(imin);
      }
      if imax + 1 < promoted {
        IpairExact(imin, imax, w, shl, shr, promoted);
        if bad && m >= imax { ShiftMono(imin, imax, m); }
        ShiftMono(imin, 0, m);
        MulOne(imin);
      }
    }

    /** trickle_timer_config. A zero Imax or k is an error. Where C defines the shifts, an Imax
        that does not fit is lowered, never wrapped. The ctimer is left alone, so that the
        timer is stopped afterwards exactly if nothing was pending. */
    method Config(imin: nat, imax: nat, kk: nat) returns (ok: bool)
      requires Machine() && imin < Pow2(w) && imax < 256 && kk < 256
      modifies this
      ensures ok <==> !IminIsBad(imin, w) && imax != 0 && kk != 0
      ensures !ok ==> View() == old(View()) && cb == old(cb)
      ensures ok ==>
        View() == old(View()).(i_min := imin, i_max := i_max, i_max_abs := i_max_abs, k := kk, i_cur := 0) && !cb
      ensures ok && imax + 1 < promoted ==>
        && View() == TrickleModel.Config(old(View()), imin, i_max, kk, w)
        && LegalParameters(imin, i_max, kk, w) && i_max_abs == imin * Pow2(i_max)
        && i_max <= imax && (i_max == imax <==> imin * Pow2(imax) <= Pow2(w - 1))
        && (i_max < imax && !fixedWidth ==> imin * Pow2(i_max + 1) > Pow2(w - 1))
        && Configured(View(), w) && (Agree(View(), Stopped, w) <==> old(ct).Nothing?)
    {
      if IminIsBad(imin, w) { return false; }
      if imax == 0 || kk == 0 { return false; }
      var m := FitImax(imin, imax);
      if imax + 1 < promoted {
        StoredExactly(View(), imin, m, kk);
      }
      Store(imin, m, kk);
      ok := true;
    }

    lemma StoredExactly(tt: Timer, imin: nat, m: nat, kk: nat)
      requires Machine() && LegalParameters(imin, m, kk, w) && m < promoted
      ensures var u := TrickleModel.Config(tt, imin, m, kk, w);
        && shl(imin, m) == u.i_max_abs == imin * Pow2(m)
        && Configured(u, w) && (Agree(u, Stopped, w) <==> tt.ct.Nothing?)
    {
      ConfigAgrees(tt, imin, m, kk, w);
      ModSmall(imin * Pow2(m), Pow2(w));
    }

    method Store(imin: nat, m: nat, kk: nat)
      modifies this
      ensures View() == old(View()).(i_min := imin, i_max := m, i_max_abs := shl(imin, m), k := kk, i_cur := 0) && !cb
    {
      i_min := imin;
      i_max := m;
      i_max_abs := shl(imin, m);
      k := kk;
      i_cur := 0;
      cb := false;
    }

    /** get_t. */
    method PickT(i: nat, rand: nat) returns (t: nat)
      requires i >= 2
      ensures t == GetT(i, rand)
    {
      t := i / 2;
      t := t + rand % t;
    }

    /** new_interval. */
    method NewInterval(now: nat, rand: nat)
      requires i_cur >= 2
      modifies this
      ensures View() == TrickleModel.NewInterval(old(View()), now, rand) && cb == old(cb)
    {
      c := 0;
      var loc_clock := PickT(i_cur, rand);
      ct := ToFire(loc_clock, now);
      i_start := now;
    }

    /** trickle_timer_set; it needs a callback. */
    method Set(proto_cb: bool, now: nat, rand0: nat, rand1: nat) returns (ok: bool)
      requires Configured(View(), w)
      modifies this
      ensures ok <==> proto_cb
      ensures View() == if ok then TrickleModel.Set(old(View()), now, rand0, rand1) else old(View())
      ensures ok ==> cb && i_min <= i_cur <= i_max_abs
    {
      if !proto_cb { return false; }
      cb := proto_cb;
      i_cur := i_min + rand0 % (i_max_abs - i_min + 1);
      NewInterval(now, rand1);
      ok := true;
    }

    /** trickle_timer_consistency: an 8-bit counter that stops at 255. */
    method Consistency()
      modifies this
      ensures View() == TrickleModel.Consistency(old(View())) && cb == old(cb)
    {
      if i_cur == 0 { return; }
      if c < 0xFF { c := c + 1; }
    }

    /** trickle_timer_inconsistency. */
    method Inconsistency(now: nat, rand: nat)
      requires Configured(View(), w)
      modifies this
      ensures View() == TrickleModel.Inconsistency(old(View()), now, rand) && cb == old(cb)
    {
      if i_cur == 0 { return; }
      if i_cur != i_min {
        i_cur := i_min;
        NewInterval(now, rand);
      }
    }

    /** trickle_timer_stop. */
    method Stop()
      modifies this
      ensures View() == TrickleModel.Stop(old(View())) && cb == old(cb)
    {
      ct := Nothing;
      i_cur := 0;
    }

    /** A distance to a point in clock time, 0 if that looks like the past. */
    method Remaining(due: nat, now: nat) returns (loc_clock: nat)
      ensures loc_clock == Until(due, now, w)
    {
      loc_clock := (due - now) % Pow2(w);
      if loc_clock > Shr(ClockMax(w), 1) { loc_clock := 0; }
    }

    /** TRICKLE_TIMER_INTERVAL_END. */
    method IntervalEnd() returns (end: nat)
      ensures end == (i_start + i_cur) % Pow2(w)
    {
      end := (i_start + i_cur) % Pow2(w);
    }

    /** schedule_for_end. */
    method ScheduleForEnd(now: nat)
      modifies this
      ensures View() == old(View()).(ct := ToDouble(Until((i_start + i_cur) % Pow2(w), now, w), now))
      ensures cb == old(cb)
    {
      var end := IntervalEnd();
      var loc_clock := Remaining(end, now);
      ct := ToDouble(loc_clock, now);
    }

    /** fire: `tx` is what the callback is told, if there is one; it may stop the timer. */
    method Fire(stops: bool, now: nat) returns (tx: bool)
      requires Configured(View(), w)
      modifies this
      ensures cb == old(cb) && (cb ==> tx == TxAllowed(old(View())))
      ensures View() == TrickleModel.Fire(old(View()), cb && stops, now, w)
    {
      ct := Nothing;
      tx := k == 0 || c < k;
      if cb {
        if stops { Stop(); }
      }
      if i_cur != 0 { ScheduleForEnd(now); }
    }

    /** double_interval. It returns false where get_t would divide by zero, which it does
        exactly on a timer whose interval is 0. */
    method DoubleInterval(now: nat, rand: nat) returns (defined: bool)
      requires Configured(View(), w)
      modifies this
      ensures defined == !DividesByZero(old(View()), w) == (old(i_cur) != 0)
      ensures View() == TrickleModel.DoubleInterval(old(View()), now, rand, w) && cb == old(cb)
    {
      DividesExactly(View(), w);
      ct := Nothing;
      c := 0;
      var last_end := IntervalEnd();
      if i_cur <= Shr(i_max_abs, 1) {
        i_cur := Shl(i_cur, 1, w);
      } else {
        i_cur := i_max_abs;
      }
      defined := StartAt(last_end, now, rand);
    }

    /** The part of double_interval from get_t on. */
    method StartAt(last_end: nat, now: nat, rand: nat) returns (defined: bool)
      requires c == 0 && ct.Nothing?
      modifies this
      ensures defined <==> i_cur >= 2
      ensures View() == IntervalAt(old(View()), i_cur, last_end, now, rand, w) && cb == old(cb) && i_cur == old(i_cur)
    {
      defined := i_cur / 2 != 0;
      if defined {
        var loc_clock := PickT(i_cur, rand);
        loc_clock := Remaining((last_end + loc_clock) % Pow2(w), now);
        ct := ToFire(loc_clock, now);
        i_start := last_end;
      }
    }
  }
}
