/** Timers on a clock that counts modulo `w`. */
module Timer {
  import opened Modular

  function TimerExpired(start: nat, interval: nat, now: nat, w: nat): bool
    requires w > 0
  {
    interval < ((now - start) % w + 1) % w
  }

  function TimerRemaining(start: nat, interval: nat, now: nat, w: nat): nat
    requires w > 0
  {
    (start + interval - now) % w
  }

  /** The answer for a timer set at the true time `s` and asked `e` ticks later, when the
      clock shows both modulo `w`: expiry is reported exactly when the interval is over,
      counting whole turns of the clock as nothing and except one tick before a whole turn. */
  lemma ExpiredExact(s: nat, e: nat, interval: nat, w: nat)
    requires w > 1 && interval < w
    ensures TimerExpired(s % w, interval, (s + e) % w, w) <==> interval <= e % w && e % w != w - 1
  {
    ModDiff(s + e, s, w);
    AddOne(e % w, w);
  }

  lemma AddOne(x: nat, w: nat)
    requires x < w && w > 1
    ensures (x + 1) % w == if x == w - 1 then 0 else x + 1
  {
  }

  /** Within one turn of the clock the answer is right, except on its last tick. */
  lemma ExpiredRightExactly(s: nat, e: nat, interval: nat, w: nat)
    requires w > 1 && interval < w && e < w
    ensures (TimerExpired(s % w, interval, (s + e) % w, w) <==> interval <= e) <==> e != w - 1
  {
    ExpiredExact(s, e, interval, w);
    ModSmall(e, w);
  }

  lemma RemainingExact(s: nat, e: nat, interval: nat, w: nat)
    requires w > 1 && interval < w && e <= interval
    ensures TimerRemaining(s % w, interval, (s + e) % w, w) == interval - e
  {
    ModSum(s, interval, w);
    ModDiff(s + interval, s + e, w);
    assert (s % w + interval - (s + e) % w) % w == (s + interval - (s + e)) % w by {
      RemainingShift(s, e, interval, w);
    }
    ModSmall(interval - e, w);
  }

  lemma RemainingShift(s: nat, e: nat, interval: nat, w: nat)
    requires w > 1
    ensures (s % w + interval - (s + e) % w) % w == (interval - e) % w
  {
    var k := (s + e) / w - s / w;
    assert s == s / w * w + s % w && s + e == (s + e) / w * w + (s + e) % w;
    MulDistrib((s + e) / w, s / w, w);
    assert s % w + interval - (s + e) % w == interval - e + k * w;
    ModTurn(interval - e, w, k);
  }
}
