/** Event timers: a list edited while it is walked, posting into a queue that can fill up.
    Timers are numbered slots; processes are numbers, PROCESS_NONE being 0. */
module Etimer {
  import opened Basics
  import opened EtimerModel
  import opened List
  import opened Process
  import opened Seqs
  import opened Timer

  const PROCESS_NONE := 0
  const PROCESS_EVENT_TIMER := 0x88

  datatype Event = Event(p: int, ev: nat, data: int)

  /** One TIMER event per timer, in the given order, to the process that armed it. */
  function TimerEvents(d: seq<int>, owner: seq<int>): (r: seq<Event>)
    requires InRange(d, |owner|)
    ensures |r| == |d|
  {
    seq(|d|, i requires 0 <= i < |d| => Event(owner[d[i]], PROCESS_EVENT_TIMER, d[i]))
  }

  /** The owners after the timers in `d` were released. */
  function Released(owner: seq<int>, d: seq<int>): (r: seq<int>)
    ensures |r| == |owner|
    ensures forall x :: 0 <= x < |owner| ==> r[x] == if x in d then PROCESS_NONE else owner[x]
  {
    seq(|owner|, x requires 0 <= x < |owner| => if x in d then PROCESS_NONE else owner[x])
  }

  ghost predicate Linked2(next: seq<int>, owner: seq<int>, s: seq<int>) {
    InRange(s, |next|) && |owner| == |next| && forall i :: 0 <= i < |s| ==> owner[s[i]] != PROCESS_NONE
  }

  /** What a poll found when it began. */
  datatype Before = Before(list: seq<int>, owner: seq<int>, due: seq<int>, events: seq<Event>,
                           expiration: nat, poll: bool)

  class EventTimers {
    const w: nat
    const next: array<int>
    const owner: array<int>
    const start: array<nat>
    const interval: array<nat>
    const queue: EventQueue<Event>
    var timerlist: int
    var nextExpiration: nat
    var pollRequested: bool
    ghost var elems: seq<int>

    ghost predicate Apart() {
      && next != owner
      && start != interval
      && (start as object) != next && (start as object) != owner && (start as object) != queue.events
      && (interval as object) != next && (interval as object) != owner && (interval as object) != queue.events
      && (queue.events as object) != next && (queue.events as object) != owner
      && next.Length == owner.Length == start.Length == interval.Length
      && w > 1
    }

    ghost predicate Valid()
      reads this, next, owner, start, interval, queue, queue.events
    {
      && Apart()
      && queue.Valid() && queue.Size() <= 128
      && Linked(timerlist, next[..], elems)
      && Linked2(next[..], owner[..], elems)
      && (forall x :: 0 <= x < start.Length ==> start[x] < w && interval[x] < w)
    }

    /** The timers that have expired when the clock shows `now`. */
    ghost function Exp(now: nat): set<int>
      requires Apart()
      reads start, interval
    {
      set x | 0 <= x < start.Length && TimerExpired(start[x], interval[x], now, w)
    }

    constructor (timers: nat, w: nat, queueSize: nat)
      requires w > 1 && 0 < queueSize <= 128
      ensures Valid() && elems == [] && queue.Contents() == [] && queue.Size() == queueSize && next.Length == timers
    {
      this.w := w;
      next := new int[timers](_ => NO_SLOT);
      owner := new int[timers](_ => PROCESS_NONE);
      start := new nat[timers](_ => 0);
      interval := new nat[timers](_ => 0);
      queue := new EventQueue(queueSize, Event(PROCESS_NONE, 0, NO_SLOT));
      timerlist, nextExpiration, pollRequested, elems := NO_SLOT, 0, false, [];
    }

    /** The element at a position, as the links name it. */
    lemma AtPosition(i: nat)
      requires Valid() && i < |elems|
      ensures 0 <= elems[i] < next.Length && next[elems[i]] == At(elems, i + 1)
      ensures i + 1 < |elems| ==> elems[i + 1] != NO_SLOT
    {
      assert Follows(next[..], elems, i);
      if i + 1 < |elems| {
        assert Follows(next[..], elems, i + 1);
      }
    }

    lemma HeadPosition()
      requires Valid()
      ensures timerlist == NO_SLOT <==> elems == []
    {
    }

    method UpdateTime(now: nat)
      requires Valid()
      modifies this`nextExpiration
      ensures Valid() && nextExpiration == NextExpiration(elems, start[..], interval[..], now, w)
    {
      HeadPosition();
      if timerlist == NO_SLOT {
        nextExpiration := 0;
      } else {
        var tdist := Nearest(now, Distances(start[..], interval[..], now, w));
        nextExpiration := (now + tdist) % w;
      }
    }

    /** The smallest distance to an expiry; distances allow for the wrap of the clock. */
    method Nearest(now: nat, ghost dist: seq<nat>) returns (tdist: nat)
      requires Valid() && elems != [] && dist == Distances(start[..], interval[..], now, w)
      ensures tdist == MinDist(elems, dist)
    {
      AtPosition(0);
      var t := timerlist;
      tdist := Remaining(t, now, dist);
      assert elems[..1] == [t];
      t := next[t];
      ghost var i := 1;
      while t != NO_SLOT
        invariant 1 <= i <= |elems| && t == At(elems, i)
        invariant tdist == MinDist(elems[..i], dist)
        decreases |elems| - i
      {
        assert i < |elems|;
        AtPosition(i);
        MinDistSnoc(elems, dist, i);
        var d := Remaining(t, now, dist);
        if d < tdist {
          tdist := d;
        }
        t := next[t];
        i := i + 1;
      }
      EndPosition(i);
      assert elems[..i] == elems;
    }

    lemma MinDistSnoc(s: seq<int>, dist: seq<nat>, i: nat)
      requires 0 < i < |s| && InRange(s, |dist|)
      ensures MinDist(s[..i + 1], dist) == Min(dist[s[i]], MinDist(s[..i], dist))
    {
      assert s[..i + 1][..i] == s[..i];
    }

    method Remaining(t: int, now: nat, ghost dist: seq<nat>) returns (d: nat)
      requires Apart() && 0 <= t < next.Length && dist == Distances(start[..], interval[..], now, w)
      ensures d == dist[t]
    {
      d := TimerRemaining(start[t], interval[t], now, w);
    }

    lemma EndPosition(i: nat)
      requires Valid() && i <= |elems| && At(elems, i) == NO_SLOT
      ensures i == |elems|
    {
    }

    /** Unlinks the timer at position `i`, whose predecessor is `u`, and releases it. */
    method Detach(t: int, u: int, ghost i: nat)
      requires Valid() && i < |elems| && t == elems[i] && u == At(elems, i - 1)
      modifies this`timerlist, this`elems, next, owner
      ensures Valid() && elems == Without(old(elems), t) && owner[..] == Released(old(owner[..]), [t])
    {
      AtPosition(i);
      if i > 0 {
        AtPosition(i - 1);
      }
      owner[t] := PROCESS_NONE;
      ghost var was := next[..];
      ghost var first := timerlist;
      if u != NO_SLOT {
        next[u] := next[t];
      } else {
        timerlist := next[t];
      }
      next[t] := NO_SLOT;
      RemoveLinked(first, was, elems, i, timerlist, next[..]);
      StillOwned(old(owner[..]), owner[..], was, t);
      elems := Without(elems, t);
    }

    lemma StillOwned(before: seq<int>, after: seq<int>, links: seq<int>, t: int)
      requires Linked2(links, before, elems) && Distinct(elems) && t in elems && |after| == |before| == next.Length
      requires forall x :: 0 <= x < |after| && x != t ==> after[x] == before[x]
      ensures Linked2(next[..], after, Without(elems, t))
    {
    }

    /** next_expiration is that of the present list. */
    ghost predicate UpToDate(now: nat)
      reads this`nextExpiration, this`elems, start, interval
    {
      Apart() && InRange(elems, start.Length)
        && nextExpiration == NextExpiration(elems, start[..], interval[..], now, w)
    }

    /** One walk from the head: it stops after the first timer whose event could be posted. */
    method Scan(now: nat, ghost exp: set<int>) returns (removed: bool)
      requires Valid() && exp == Exp(now)
      modifies this, next, owner, queue, queue.events
      ensures Valid()
      ensures removed <==> Due(old(elems), exp) != [] && |old(queue.Contents())| < queue.Size()
      ensures removed ==>
        && var t := Due(old(elems), exp)[0];
        && t in old(elems)
        && elems == Without(old(elems), t)
        && queue.Contents() == old(queue.Contents()) + [Event(old(owner[..])[t], PROCESS_EVENT_TIMER, t)]
        && owner[..] == Released(old(owner[..]), [t])
        && UpToDate(now)
        && pollRequested == old(pollRequested)
        && Due(old(elems), exp) == [t] + Due(elems, exp)
        && (forall k: nat :: Leave(old(elems), exp, k + 1) == Leave(elems, exp, k))
      ensures !removed ==>
        && elems == old(elems) && owner[..] == old(owner[..]) && queue.Contents() == old(queue.Contents())
        && nextExpiration == old(nextExpiration)
        && pollRequested == (old(pollRequested) || Due(elems, exp) != [])
    {
      removed := false;
      var u, t := NO_SLOT, timerlist;
      ghost var i := 0;
      assert elems[..0] == [];
      while t != NO_SLOT
        invariant Valid() && 0 <= i <= |elems| && t == At(elems, i) && u == At(elems, i - 1)
        invariant elems == old(elems) && owner[..] == old(owner[..]) && queue.Contents() == old(queue.Contents())
        invariant nextExpiration == old(nextExpiration)
        invariant Due(elems[..i], exp) != [] ==> |queue.Contents()| == queue.Size()
        invariant pollRequested == (old(pollRequested) || Due(elems[..i], exp) != [])
        decreases |elems| - i
      {
        assert i < |elems|;
        AtPosition(i);
        DueSnoc(elems, exp, i);
        if TimerExpired(start[t], interval[t], now, w) {
          removed := Expire(t, u, now, exp, i);
          if removed {
            return;
          }
        }
        u, t := t, next[t];
        i := i + 1;
      }
      EndPosition(i);
      assert elems[..i] == elems;
    }

    /** Posts the event of the timer at position `i`; on success the timer leaves the list,
        otherwise the process asks to be polled again. */
    method Expire(t: int, u: int, now: nat, ghost exp: set<int>, ghost i: nat) returns (ok: bool)
      requires Valid() && i < |elems| && t == elems[i] && u == At(elems, i - 1) && t in exp && 0 <= t < owner.Length
      requires Due(elems[..i], exp) != [] ==> |queue.Contents()| == queue.Size()
      modifies this, next, owner, queue, queue.events
      ensures Valid() && ok == (|old(queue.Contents())| < queue.Size())
      ensures ok ==>
        && elems == Without(old(elems), t)
        && queue.Contents() == old(queue.Contents()) + [Event(old(owner[..])[t], PROCESS_EVENT_TIMER, t)]
        && owner[..] == Released(old(owner[..]), [t])
        && UpToDate(now)
        && pollRequested == old(pollRequested)
        && Due(old(elems), exp) == [t] + Due(elems, exp)
        && (forall k: nat :: Leave(old(elems), exp, k + 1) == Leave(elems, exp, k))
      ensures !ok ==>
        && elems == old(elems) && owner[..] == old(owner[..]) && queue.Contents() == old(queue.Contents())
        && nextExpiration == old(nextExpiration) && timerlist == old(timerlist) && next[..] == old(next[..])
        && pollRequested
    {
      ok := queue.Post(Event(owner[t], PROCESS_EVENT_TIMER, t));
      if ok {
        Release(t, u, now, exp, i);
      } else {
        pollRequested := true;
      }
    }

    method Release(t: int, u: int, now: nat, ghost exp: set<int>, ghost i: nat)
      requires Valid() && i < |elems| && t == elems[i] && u == At(elems, i - 1) && t in exp
      requires Due(elems[..i], exp) == []
      modifies this, next, owner
      ensures Valid() && elems == Without(old(elems), t) && owner[..] == Released(old(owner[..]), [t])
      ensures UpToDate(now)
      ensures pollRequested == old(pollRequested)
      ensures Due(old(elems), exp) == [t] + Due(elems, exp)
      ensures forall k: nat :: Leave(old(elems), exp, k + 1) == Leave(elems, exp, k)
    {
      FirstDue(elems, exp, i);
      Detach(t, u, i);
      UpdateTime(now);
    }

    lemma DueSnoc(s: seq<int>, exp: set<int>, i: nat)
      requires i < |s|
      ensures Due(s[..i + 1], exp) == if s[i] in exp then Due(s[..i], exp) + [s[i]] else Due(s[..i], exp)
    {
      assert s[..i + 1] == s[..i] + [s[i]];
      DueConcat(s[..i], [s[i]], exp);
      assert Due([s[i]], exp) == if s[i] in exp then [s[i]] else [];
    }

    /** How many events the queue still takes. */
    ghost function Room(): nat
      requires queue.Valid()
      reads queue, queue.events
    {
      queue.Size() - |queue.Contents()|
    }

    /** The POLL branch of the process, the clock showing `now` throughout. */
    method Poll(now: nat)
      requires Valid()
      modifies this, next, owner, queue, queue.events
      ensures Valid() && Room() == old(Room()) - Min(old(Room()), |Due(old(elems), old(Exp(now)))|)
      ensures var d, room := Due(old(elems), old(Exp(now))), old(Room());
        && InRange(d, owner.Length)
        && elems == Leave(old(elems), old(Exp(now)), room)
        && queue.Contents() == old(queue.Contents()) + TimerEvents(d[..Min(room, |d|)], old(owner[..]))
        && owner[..] == Released(old(owner[..]), d[..Min(room, |d|)])
        && (forall x :: 0 <= x < owner.Length ==>
              owner[x] == if x in d[..Min(room, |d|)] then PROCESS_NONE else old(owner[x]))
        && pollRequested == (old(pollRequested) || room < |d|)
        && nextExpiration ==
          if d == [] || room == 0 then old(nextExpiration) else NextExpiration(elems, start[..], interval[..], now, w)
    {
      ghost var exp, all := Exp(now), elems;
      DueInRange(elems, exp, owner.Length);
      ghost var m := Drain(now, exp);
      assert Leave(all, exp, m) == Leave(elems, exp, 0);
      LeaveNothing(elems, exp, 0);
      LeaveCapped(all, exp, old(Room()));
    }

    /** The walks, each from the head again, until one finds nothing that it can post. */
    method Drain(now: nat, ghost exp: set<int>) returns (ghost m: nat)
      requires Valid() && exp == Exp(now) && InRange(Due(elems, exp), owner.Length) && Distinct(Due(elems, exp))
      modifies this, next, owner, queue, queue.events
      ensures Valid() && m == Min(old(Room()), |Due(old(elems), exp)|)
      ensures SameLeft(old(elems), elems, exp, m)
      ensures queue.Contents() == old(queue.Contents()) + TimerEvents(Due(old(elems), exp)[..m], old(owner[..]))
      ensures owner[..] == Released(old(owner[..]), Due(old(elems), exp)[..m])
      ensures if m == 0 then nextExpiration == old(nextExpiration) else UpToDate(now)
      ensures pollRequested == (old(pollRequested) || m < |Due(old(elems), exp)|)
    {
      ghost var before := Before(elems, owner[..], Due(elems, exp), queue.Contents(), nextExpiration, pollRequested);
      Started(before.owner, before.due);
      m := Walks(now, exp, before);
    }

    method Walks(now: nat, ghost exp: set<int>, ghost before: Before) returns (ghost m: nat)
      requires Valid() && exp == Exp(now) && Progress(now, exp, before, 0) && pollRequested == before.poll
      modifies this, next, owner, queue, queue.events
      ensures Valid() && Progress(now, exp, before, m) && Outcome(before, m, false, queue.Size() - |before.events|)
    {
      m := 0;
      var again := true;
      while again
        invariant Valid() && exp == Exp(now) && Progress(now, exp, before, m)
        invariant Outcome(before, m, again, queue.Size() - |before.events|)
        decreases |before.due| - m, again
      {
        again, m := Round(now, exp, before, m);
      }
    }

    /** Another poll is asked for exactly when the walks end with a due timer left, and they
        end when no timer is due or no room is left. */
    ghost predicate Outcome(before: Before, m: nat, again: bool, room: int)
      reads this
    {
      && pollRequested == (before.poll || (!again && m < |before.due|))
      && (!again ==> m == Min(room, |before.due|))
    }

    /** After `m` events: what was posted, who was released and what is still due. */
    ghost predicate Progress(now: nat, exp: set<int>, before: Before, m: nat)
      requires Valid()
      reads this, next, owner, start, interval, queue, queue.events
    {
      match before
      case Before(list, was, due, events, expiration, _) =>
        && m <= |due| && InRange(due, |was|) && Distinct(due)
        && Due(elems, exp) == due[m..] && SameLeft(list, elems, exp, m)
        && queue.Contents() == events + TimerEvents(due[..m], was)
        && owner[..] == Released(was, due[..m])
        && (if m == 0 then nextExpiration == expiration else UpToDate(now))
    }

    method Round(now: nat, ghost exp: set<int>, ghost before: Before, ghost m: nat)
      returns (again: bool, ghost m': nat)
      requires Valid() && exp == Exp(now) && Progress(now, exp, before, m)
      requires Outcome(before, m, true, queue.Size() - |before.events|)
      modifies this, next, owner, queue, queue.events
      ensures Valid() && m' == (if again then m + 1 else m) && (again ==> m' <= |before.due|)
      ensures Progress(now, exp, before, m') && Outcome(before, m', again, queue.Size() - |before.events|)
    {
      ghost var d := before.due;
      ghost var list, posted, owned := elems, queue.Contents(), owner[..];
      again := Scan(now, exp);
      m' := if again then m + 1 else m;
      if again {
        assert Due(list, exp)[0] == d[m];
        OneMore(d, m, before.owner, before.events, posted, owned);
        SameStep(before.list, list, elems, exp, d, m);
      }
    }

    lemma Started(was: seq<int>, d: seq<int>)
      requires InRange(d, |was|)
      ensures d[0..] == d && TimerEvents(d[..0], was) == [] && Released(was, d[..0]) == was
    {
    }

    /** What is left of a list once `m` more due timers are gone is the same from both lists. */
    ghost predicate SameLeft(all: seq<int>, cur: seq<int>, exp: set<int>, m: nat) {
      forall k: nat {:trigger Leave(cur, exp, k)} :: Leave(all, exp, k + m) == Leave(cur, exp, k)
    }

    lemma SameStep(all: seq<int>, before: seq<int>, cur: seq<int>, exp: set<int>, d: seq<int>, m: nat)
      requires SameLeft(all, before, exp, m) && m < |d| && Due(before, exp) == d[m..]
      requires Due(before, exp) != [] && Due(before, exp) == [Due(before, exp)[0]] + Due(cur, exp)
      requires forall k: nat :: Leave(before, exp, k + 1) == Leave(cur, exp, k)
      ensures SameLeft(all, cur, exp, m + 1) && Due(cur, exp) == d[m + 1..]
    {
    }

    lemma OneMore(d: seq<int>, m: nat, was: seq<int>, first: seq<Event>, posted: seq<Event>, owned: seq<int>)
      requires m < |d| && Distinct(d) && InRange(d, |was|)
      requires posted == first + TimerEvents(d[..m], was) && owned == Released(was, d[..m])
      ensures |owned| == |was|
        && posted + [Event(owned[d[m]], PROCESS_EVENT_TIMER, d[m])] == first + TimerEvents(d[..m + 1], was)
      ensures Released(owned, [d[m]]) == Released(was, d[..m + 1])
    {
    }

    lemma {:induction false} DueInRange(s: seq<int>, exp: set<int>, n: nat)
      requires InRange(s, n) && Distinct(s)
      ensures InRange(Due(s, exp), n) && Distinct(Due(s, exp))
    {
      DueMembers(s, exp);
      forall i | 0 <= i < |Due(s, exp)| ensures 0 <= Due(s, exp)[i] < n {
        assert Due(s, exp)[i] in Due(s, exp);
      }
    }

    /** Asking for more than is due takes all that is due. */
    lemma {:induction false} LeaveCapped(s: seq<int>, exp: set<int>, k: nat)
      ensures Leave(s, exp, k) == Leave(s, exp, Min(k, |Due(s, exp)|))
      decreases |s|
    {
      if s != [] {
        if s[0] in exp && k > 0 {
          LeaveCapped(s[1..], exp, k - 1);
        } else if s[0] !in exp {
          LeaveCapped(s[1..], exp, k);
          assert Due(s, exp) == Due(s[1..], exp);
        }
      }
    }

    ghost function OwnedBy(p: int): set<int>
      reads owner
    {
      set x | 0 <= x < owner.Length && owner[x] == p
    }

    /** The EXITED branch: every timer of the process leaves the list. */
    method Exited(p: int)
      requires Valid()
      modifies this`timerlist, this`elems, next
      ensures Valid() && elems == Outside(old(elems), OwnedBy(p))
      ensures forall x :: x in elems <==> x in old(elems) && !(0 <= x < owner.Length && owner[x] == p)
    {
      OutsideMembers(elems, OwnedBy(p));
      DropOwned(p);
    }

    /** First the timers at the head, then those behind one that stays. */
    method DropOwned(p: int)
      requires Valid()
      modifies this`timerlist, this`elems, next
      ensures Valid() && elems == Outside(old(elems), OwnedBy(p))
    {
      ghost var gone := OwnedBy(p);
      DropLeading(p, gone);
      HeadPosition();
      if timerlist != NO_SLOT {
        AtPosition(0);
        var t := timerlist;
        ghost var i := 0;
        ghost var front := elems[..1];
        while next[t] != NO_SLOT
          invariant Valid() && 0 <= i < |elems| && t == elems[i] && 0 <= t < next.Length
          invariant Outside(elems[..i + 1], gone) == elems[..i + 1]
          invariant Outside(elems, gone) == Outside(old(elems), gone)
          decreases |elems| - i
        {
          AtPosition(i);
          EndPositionNext(i);
          AtPosition(i + 1);
          OutsideSnoc(elems, gone, i + 1);
          if owner[next[t]] == p {
            DropNext(t, i, gone);
          } else {
            t := next[t];
            i := i + 1;
            AtPosition(i);
          }
        }
        AtPosition(i);
        EndPosition(i + 1);
        assert elems[..i + 1] == elems;
      } else {
        assert elems == Outside(elems, gone);
      }
    }

    lemma EndPositionNext(i: nat)
      requires Valid() && i < |elems| && next[elems[i]] != NO_SLOT
      ensures i + 1 < |elems|
    {
      AtPosition(i);
    }

    method DropLeading(p: int, ghost gone: set<int>)
      requires Valid() && gone == OwnedBy(p)
      modifies this`timerlist, this`elems
      ensures Valid() && Outside(elems, gone) == Outside(old(elems), gone)
      ensures elems != [] ==> Outside(elems[..1], gone) == elems[..1]
    {
      HeadPosition();
      while timerlist != NO_SLOT && owner[timerlist] == p
        invariant Valid() && (timerlist == NO_SLOT <==> elems == [])
        invariant timerlist != NO_SLOT ==> 0 <= timerlist < owner.Length
        invariant Outside(elems, gone) == Outside(old(elems), gone)
        decreases |elems|
      {
        AtPosition(0);
        TailLinked();
        timerlist := next[timerlist];
        elems := elems[1..];
        HeadPosition();
        if elems != [] {
          AtPosition(0);
        }
      }
      if elems != [] {
        assert elems[..1] == [elems[0]];
        assert Outside([elems[0]], gone) == [elems[0]];
      }
    }

    lemma TailLinked()
      requires Valid() && elems != []
      ensures Linked(next[elems[0]], next[..], elems[1..]) && Linked2(next[..], owner[..], elems[1..])
    {
      AtPosition(0);
      forall i | 0 <= i < |elems[1..]| ensures Follows(next[..], elems[1..], i) {
        assert Follows(next[..], elems, i + 1);
      }
    }

    lemma OutsideSnoc(s: seq<int>, gone: set<int>, i: nat)
      requires i < |s|
      ensures Outside(s[..i + 1], gone) == Outside(s[..i], gone) + if s[i] in gone then [] else [s[i]]
      ensures s[i] in gone ==> Outside(s[..i] + s[i + 1..], gone) == Outside(s, gone)
    {
      assert s[..i + 1] == s[..i] + [s[i]] && s == s[..i] + ([s[i]] + s[i + 1..]);
      OutsideConcat(s[..i], [s[i]], gone);
      OutsideConcat(s[..i], s[i + 1..], gone);
      OutsideConcat(s[..i], [s[i]] + s[i + 1..], gone);
      OutsideConcat([s[i]], s[i + 1..], gone);
      assert Outside([s[i]], gone) == if s[i] in gone then [] else [s[i]];
    }

    /** t->next = t->next->next; the timer passed over keeps its own fields. */
    method DropNext(t: int, ghost i: nat, ghost gone: set<int>)
      requires Valid() && i + 1 < |elems| && t == elems[i] && 0 <= t < next.Length && 0 <= next[t] < next.Length
      modifies this`elems, next
      ensures Valid() && elems == old(elems[..i + 1] + elems[i + 2..])
    {
      AtPosition(i);
      AtPosition(i + 1);
      ghost var was := next[..];
      next[t] := next[next[t]];
      ghost var r := elems[..i + 1] + elems[i + 2..];
      forall j | 0 <= j < |r| ensures Follows(next[..], r, j) {
        assert Follows(was, elems, if j <= i then j else j + 1);
      }
      elems := r;
    }

    /** Puts the timer at the front, unless it is on the list already. */
    method AddTimer(timer: int, current: int, now: nat)
      requires Valid() && 0 <= timer < next.Length && current != PROCESS_NONE
      modifies this, next, owner
      ensures Valid() && elems == Added(old(elems), timer) && pollRequested
      ensures owner[..] == old(owner[..])[timer := current]
      ensures nextExpiration == NextExpiration(elems, start[..], interval[..], now, w)
    {
      pollRequested := true;
      if owner[timer] != PROCESS_NONE {
        var found := OnList(timer);
        if found {
          owner[timer] := current;
          UpdateTime(now);
          return;
        }
      }
      assert timer !in elems;
      PushFront(timer, current);
      UpdateTime(now);
    }

    method OnList(timer: int) returns (found: bool)
      requires Valid() && timer != NO_SLOT
      ensures found == (timer in elems)
    {
      var t := timerlist;
      ghost var i := 0;
      while t != NO_SLOT
        invariant 0 <= i <= |elems| && t == At(elems, i) && timer !in elems[..i]
        decreases |elems| - i
      {
        assert i < |elems|;
        AtPosition(i);
        if t == timer {
          return true;
        }
        t := next[t];
        i := i + 1;
      }
      EndPosition(i);
      assert elems[..i] == elems;
      found := false;
    }

    method PushFront(timer: int, current: int)
      requires Valid() && 0 <= timer < next.Length && timer !in elems && current != PROCESS_NONE
      modifies this`timerlist, this`elems, next, owner
      ensures Valid() && elems == [timer] + old(elems) && owner[..] == old(owner[..])[timer := current]
    {
      ghost var was := next[..];
      owner[timer] := current;
      next[timer] := timerlist;
      timerlist := timer;
      ghost var r := [timer] + elems;
      forall j | 0 <= j < |r| ensures Follows(next[..], r, j) {
        assert j > 0 ==> Follows(was, elems, j - 1);
      }
      elems := r;
    }

    /** Takes the timer off the list if it is there, and marks it expired in any case. */
    method Stop(et: int, now: nat)
      requires Valid() && 0 <= et < next.Length
      modifies this, next, owner
      ensures Valid() && elems == Without(old(elems), et) && owner[..] == old(owner[..])[et := PROCESS_NONE]
      ensures nextExpiration ==
        if et in old(elems) then NextExpiration(elems, start[..], interval[..], now, w) else old(nextExpiration)
      ensures pollRequested == old(pollRequested)
    {
      HeadPosition();
      OneReleased(owner[..], et);
      if et == timerlist {
        Detach(et, NO_SLOT, 0);
        UpdateTime(now);
      } else {
        var t, i := FindBefore(et);
        if t != NO_SLOT {
          Detach(et, t, i + 1);
          UpdateTime(now);
        } else {
          Forget(et);
        }
      }
    }

    lemma OneReleased(was: seq<int>, t: int)
      requires 0 <= t < |was|
      ensures Released(was, [t]) == was[t := PROCESS_NONE]
    {
    }

    /** etimer_expired. A timer that has expired is not on the list. */
    method Expired(et: int) returns (expired: bool)
      requires Valid() && 0 <= et < owner.Length
      ensures expired == (owner[et] == PROCESS_NONE) && (expired ==> et !in elems)
    {
      expired := owner[et] == PROCESS_NONE;
      assert et in elems ==> exists i :: 0 <= i < |elems| && elems[i] == et;
    }

    /** The element before `et`, which is not the first. */
    method FindBefore(et: int) returns (t: int, ghost i: nat)
      requires Valid() && 0 <= et && et != timerlist
      ensures t == NO_SLOT ==> et !in elems
      ensures t != NO_SLOT ==> i + 1 < |elems| && elems[i] == t && elems[i + 1] == et
    {
      HeadPosition();
      t, i := timerlist, 0;
      while t != NO_SLOT && next[t] != et
        invariant 0 <= i <= |elems| && t == At(elems, i) && et !in elems[..i]
        invariant i < |elems| ==> elems[i] != et && 0 <= elems[i] < next.Length
        decreases |elems| - i
      {
        assert i < |elems|;
        AtPosition(i);
        t := next[t];
        i := i + 1;
        if i < |elems| {
          AtPosition(i);
        }
      }
      if t == NO_SLOT {
        EndPosition(i);
        assert elems[..i] == elems;
      } else {
        AtPosition(i);
      }
    }

    method Forget(et: int)
      requires Valid() && 0 <= et < next.Length && et !in elems
      modifies next, owner
      ensures Valid() && owner[..] == Released(old(owner[..]), [et])
    {
      ghost var was := next[..];
      next[et] := NO_SLOT;
      owner[et] := PROCESS_NONE;
      forall j | 0 <= j < |elems| ensures Follows(next[..], elems, j) {
        assert Follows(was, elems, j);
      }
    }

    // ---- The calls that arm a timer ----

    method Set(et: int, ticks: nat, current: int, now: nat)
      requires Valid() && 0 <= et < next.Length && current != PROCESS_NONE && ticks < w && now < w
      modifies this, next, owner, start, interval
      ensures Valid() && elems == Added(old(elems), et) && owner[..] == old(owner[..])[et := current] && pollRequested
      ensures start[..] == old(start[..])[et := now] && interval[..] == old(interval[..])[et := ticks]
      ensures nextExpiration == NextExpiration(elems, start[..], interval[..], now, w)
    {
      start[et], interval[et] := now, ticks;
      AddTimer(et, current, now);
    }

    /** Starts over from the instant of the last expiry, so that a period does not drift;
        a timer that has not expired is left as it is. */
    method Reset(et: int, current: int, now: nat)
      requires Valid() && 0 <= et < next.Length && current != PROCESS_NONE && now < w
      modifies this, next, owner, start
      ensures Valid() && elems == Added(old(elems), et) && owner[..] == old(owner[..])[et := current] && pollRequested
      ensures start[..] == old(start[..])[et :=
        if TimerExpired(old(start[et]), interval[et], now, w) then (old(start[et]) + interval[et]) % w
        else old(start[et])]
      ensures nextExpiration == NextExpiration(elems, start[..], interval[..], now, w)
    {
      if TimerExpired(start[et], interval[et], now, w) {
        start[et] := (start[et] + interval[et]) % w;
      }
      AddTimer(et, current, now);
    }
  }

  // ---- How long a timer stays expired ----

  datatype Act =
    | Polls(now: nat)
    | Arms(t: int, ticks: nat, p: int, now: nat)
    | Resets(t: int, p: int, now: nat)
    | Stops(t: int, now: nat)
    | Exits(p: int)

  predicate Allowed(act: Act, timers: nat, w: nat) {
    match act
    case Polls(_) => true
    case Arms(t, ticks, p, now) => 0 <= t < timers && ticks < w && p != PROCESS_NONE && now < w
    case Resets(t, p, now) => 0 <= t < timers && p != PROCESS_NONE && now < w
    case Stops(t, _) => 0 <= t < timers
    case Exits(_) => true
  }

  /** The act arms timer `x`, on behalf of process `p`. */
  predicate ArmsIt(act: Act, x: int) {
    (act.Arms? || act.Resets?) && act.t == x
  }

  /** What an act does to the owners: a poll releases some, a stop releases one, arming names
      the process, and nothing else changes. */
  ghost predicate Leads(o: seq<int>, act: Act, o': seq<int>) {
    && |o'| == |o|
    && forall x :: 0 <= x < |o| ==>
         if ArmsIt(act, x) then o'[x] == act.p
         else if act.Stops? && act.t == x then o'[x] == PROCESS_NONE
         else o'[x] == o[x] || (act.Polls? && o'[x] == PROCESS_NONE)
  }

  /** One act on the timers. */
  method Perform(timers: EventTimers, act: Act)
    requires timers.Valid() && Allowed(act, timers.next.Length, timers.w)
    modifies timers, timers.next, timers.owner, timers.start, timers.interval, timers.queue, timers.queue.events
    ensures timers.Valid() && Leads(old(timers.owner[..]), act, timers.owner[..])
  {
    match act {
      case Polls(now) => timers.Poll(now);
      case Arms(t, ticks, p, now) => timers.Set(t, ticks, p, now);
      case Resets(t, p, now) => timers.Reset(t, p, now);
      case Stops(t, now) => timers.Stop(t, now);
      case Exits(p) => timers.Exited(p);
    }
  }

  ghost predicate LeadsAt(os: seq<seq<int>>, acts: seq<Act>, i: nat)
    requires i < |acts| && i + 1 < |os|
  {
    Leads(os[i], acts[i], os[i + 1])
  }

  ghost predicate Chain(os: seq<seq<int>>, acts: seq<Act>) {
    |os| == |acts| + 1 && forall i {:trigger LeadsAt(os, acts, i)} :: 0 <= i < |acts| ==> LeadsAt(os, acts, i)
  }

  /** Over every run, a timer that has expired, because its event was posted or because it
      was stopped, stays so until it is armed again. */
  lemma {:induction false} StaysExpired(os: seq<seq<int>>, acts: seq<Act>, x: int)
    requires Chain(os, acts) && 0 <= x < |os[0]| && os[0][x] == PROCESS_NONE
    requires forall act :: act in acts ==> !ArmsIt(act, x)
    ensures x < |os[|acts|]| && os[|acts|][x] == PROCESS_NONE
    decreases |acts|
  {
    if acts != [] {
      assert LeadsAt(os, acts, 0) && acts[0] in acts;
      forall i {:trigger LeadsAt(os[1..], acts[1..], i)} | 0 <= i < |acts[1..]| ensures LeadsAt(os[1..], acts[1..], i) {
        assert LeadsAt(os, acts, i + 1);
      }
      StaysExpired(os[1..], acts[1..], x);
    }
  }
}
