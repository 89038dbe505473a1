/** The list of event timers as a value: what a poll takes off it, what it leaves, and when
    the next timer will be due. */
module EtimerModel {
  import opened Basics
  import opened List
  import opened Modular
  import opened Seqs
  import opened Timer

  /** The members of `exp`, in list order. */
  function Due(s: seq<int>, exp: set<int>): (r: seq<int>)
    ensures |r| <= |s|
  {
    if s == [] then [] else if s[0] in exp then [s[0]] + Due(s[1..], exp) else Due(s[1..], exp)
  }

  /** The list without its first `k` members of `exp`. */
  function Leave(s: seq<int>, exp: set<int>, k: nat): seq<int> {
    if s == [] then []
    else if s[0] in exp && k > 0 then Leave(s[1..], exp, k - 1)
    else [s[0]] + Leave(s[1..], exp, k)
  }

  /** The list without any member of `gone`. */
  function Outside(s: seq<int>, gone: set<int>): seq<int> {
    if s == [] then [] else if s[0] in gone then Outside(s[1..], gone) else [s[0]] + Outside(s[1..], gone)
  }

  lemma DueHead(x: int, s: seq<int>, exp: set<int>)
    ensures Due([x] + s, exp) == if x in exp then [x] + Due(s, exp) else Due(s, exp)
  {
  }

  lemma {:induction false} DueConcat(a: seq<int>, b: seq<int>, exp: set<int>)
    ensures Due(a + b, exp) == Due(a, exp) + Due(b, exp)
    decreases |a|
  {
    if a == [] {
      assert a + b == b;
    } else {
      DueConcat(a[1..], b, exp);
      DueHead(a[0], a[1..], exp);
      DueHead(a[0], a[1..] + b, exp);
      assert [a[0]] + a[1..] == a;
      assert [a[0]] + (a[1..] + b) == a + b;
      assert Due(a + b, exp) == (if a[0] in exp then [a[0]] else []) + (Due(a[1..], exp) + Due(b, exp));
      assert Due(a, exp) == (if a[0] in exp then [a[0]] else []) + Due(a[1..], exp);
    }
  }

  lemma {:induction false} DueNone(s: seq<int>, exp: set<int>)
    ensures Due(s, exp) == [] <==> forall x :: x in s ==> x !in exp
    decreases |s|
  {
    if s != [] {
      DueNone(s[1..], exp);
      assert s[0] in s && forall x :: x in s[1..] ==> x in s;
      if s[0] in exp {
        assert Due(s, exp)[0] == s[0];
      } else {
        assert Due(s, exp) == Due(s[1..], exp);
        assert forall x :: x in s ==> x == s[0] || x in s[1..];
      }
    }
  }

  lemma {:induction false} DueMembers(s: seq<int>, exp: set<int>)
    requires Distinct(s)
    ensures Distinct(Due(s, exp)) && forall x :: x in Due(s, exp) <==> x in s && x in exp
    decreases |s|
  {
    if s != [] {
      DueMembers(s[1..], exp);
    }
  }

  lemma LeaveHead(x: int, s: seq<int>, exp: set<int>, k: nat)
    ensures Leave([x] + s, exp, k) == if x in exp && k > 0 then Leave(s, exp, k - 1) else [x] + Leave(s, exp, k)
  {
  }

  /** Taking the first due timer off the list leaves the rest of the work as it was. */
  lemma {:induction false} TakeFirst(a: seq<int>, x: int, b: seq<int>, exp: set<int>, k: nat)
    requires x in exp && forall j :: 0 <= j < |a| ==> a[j] !in exp
    ensures Due(a + ([x] + b), exp) == [x] + Due(a + b, exp)
    ensures Leave(a + ([x] + b), exp, k + 1) == Leave(a + b, exp, k)
    decreases |a|
  {
    if a == [] {
      assert a + ([x] + b) == [x] + b && a + b == b;
      DueHead(x, b, exp);
      LeaveHead(x, b, exp, k + 1);
    } else {
      var y, c := a[0], a[1..];
      TakeFirst(c, x, b, exp, k);
      assert a + ([x] + b) == [y] + (c + ([x] + b)) && a + b == [y] + (c + b);
      DueHead(y, c + ([x] + b), exp);
      DueHead(y, c + b, exp);
      LeaveHead(y, c + ([x] + b), exp, k + 1);
      LeaveHead(y, c + b, exp, k);
    }
  }

  lemma NoneDueAt(a: seq<int>, exp: set<int>)
    requires Due(a, exp) == []
    ensures forall j :: 0 <= j < |a| ==> a[j] !in exp
  {
  }

  lemma WithoutAt(s: seq<int>, i: nat)
    requires Distinct(s) && i < |s|
    ensures s == s[..i] + ([s[i]] + s[i + 1..]) && Without(s, s[i]) == s[..i] + s[i + 1..]
  {
    IndexOfAt(s, i);
  }

  /** The first due timer at position `i` of a list. */
  lemma FirstDue(s: seq<int>, exp: set<int>, i: nat)
    requires Distinct(s) && i < |s| && s[i] in exp && Due(s[..i], exp) == []
    ensures Due(s, exp) == [s[i]] + Due(Without(s, s[i]), exp)
    ensures forall k: nat :: Leave(s, exp, k + 1) == Leave(Without(s, s[i]), exp, k)
  {
    var a, x, b := s[..i], s[i], s[i + 1..];
    NoneDueAt(a, exp);
    WithoutAt(s, i);
    TakeFirst(a, x, b, exp, 0);
    TakeFirstAll(a, x, b, exp);
  }

  lemma TakeFirstAll(a: seq<int>, x: int, b: seq<int>, exp: set<int>)
    requires x in exp && forall j :: 0 <= j < |a| ==> a[j] !in exp
    ensures forall k: nat :: Leave(a + ([x] + b), exp, k + 1) == Leave(a + b, exp, k)
  {
    forall k: nat ensures Leave(a + ([x] + b), exp, k + 1) == Leave(a + b, exp, k) {
      TakeFirst(a, x, b, exp, k);
    }
  }

  lemma {:induction false} LeaveNothing(s: seq<int>, exp: set<int>, k: nat)
    requires k == 0 || Due(s, exp) == []
    ensures Leave(s, exp, k) == s
    decreases |s|
  {
    if s != [] {
      LeaveNothing(s[1..], exp, k);
    }
  }

  /** The order of what a poll leaves is the order it had, and what it takes is a prefix of
      what was due. */
  lemma {:induction false} LeaveIsOutside(s: seq<int>, exp: set<int>, k: nat)
    requires Distinct(s) && k <= |Due(s, exp)|
    ensures Leave(s, exp, k) == Outside(s, ToSet(Due(s, exp)[..k]))
    decreases |s|
  {
    if s == [] {
    } else if s[0] !in exp {
      LeaveIsOutside(s[1..], exp, k);
      DueMembers(s[1..], exp);
      assert Due(s, exp) == Due(s[1..], exp);
      assert s[0] !in Due(s[1..], exp)[..k];
    } else if k > 0 {
      LeaveIsOutside(s[1..], exp, k - 1);
      DueAfterTaken(s, exp, k);
    } else {
      LeaveNothing(s, exp, 0);
      OutsideNone(s, ToSet(Due(s, exp)[..0]));
    }
  }

  lemma DueAfterTaken(s: seq<int>, exp: set<int>, k: nat)
    requires Distinct(s) && s != [] && s[0] in exp && 0 < k <= |Due(s, exp)|
    ensures Outside(s, ToSet(Due(s, exp)[..k])) == Outside(s[1..], ToSet(Due(s[1..], exp)[..k - 1]))
  {
    var d := Due(s[1..], exp)[..k - 1];
    assert Due(s, exp)[..k] == [s[0]] + d;
    assert s[0] in ToSet(Due(s, exp)[..k]);
    forall x | x in s[1..] ensures x in ToSet(d) <==> x in ToSet(Due(s, exp)[..k]) {
      assert x != s[0];
    }
    OutsideCongruent(s[1..], ToSet(d), ToSet(Due(s, exp)[..k]));
  }

  lemma {:induction false} OutsideCongruent(s: seq<int>, a: set<int>, b: set<int>)
    requires forall x :: x in s ==> (x in a <==> x in b)
    ensures Outside(s, a) == Outside(s, b)
    decreases |s|
  {
    if s != [] {
      assert forall x :: x in s[1..] ==> x in s;
      var x := s[0];
      assert x in s;
      assert x in a <==> x in b;
      OutsideCongruent(s[1..], a, b);
      assert Outside(s, a) == (if s[0] in a then [] else [s[0]]) + Outside(s[1..], a);
      assert Outside(s, b) == (if s[0] in b then [] else [s[0]]) + Outside(s[1..], b);
    }
  }

  lemma {:induction false} OutsideNone(s: seq<int>, gone: set<int>)
    requires forall x :: x in s ==> x !in gone
    ensures Outside(s, gone) == s
    decreases |s|
  {
    if s != [] {
      assert forall x :: x in s[1..] ==> x in s;
      var x := s[0];
      assert x in s;
      assert x !in gone;
      OutsideNone(s[1..], gone);
      assert Outside(s, gone) == [s[0]] + s[1..];
    }
  }

  lemma {:induction false} OutsideMembers(s: seq<int>, gone: set<int>)
    requires Distinct(s)
    ensures Distinct(Outside(s, gone)) && forall x :: x in Outside(s, gone) <==> x in s && x !in gone
    decreases |s|
  {
    if s != [] {
      OutsideMembers(s[1..], gone);
    }
  }

  lemma {:induction false} OutsideConcat(a: seq<int>, b: seq<int>, gone: set<int>)
    ensures Outside(a + b, gone) == Outside(a, gone) + Outside(b, gone)
    decreases |a|
  {
    if a == [] {
      assert a + b == b;
    } else {
      assert (a + b)[1..] == a[1..] + b;
      OutsideConcat(a[1..], b, gone);
    }
  }

  // ---- Runs ----

  function Added(s: seq<int>, x: int): seq<int> {
    if x in s then s else [x] + s
  }

  datatype Step = AddStep(x: int) | StopStep(x: int) | ExitStep(gone: set<int>) | PollStep(exp: set<int>, room: nat)

  /** The list, and how often each timer was armed, posted and taken off unexpired. */
  datatype Account = Account(list: seq<int>, armed: multiset<int>, posted: multiset<int>, cancelled: multiset<int>)

  function Apply(c: Account, step: Step): Account {
    match step
    case AddStep(x) =>
      c.(list := Added(c.list, x), armed := if x in c.list then c.armed else c.armed + multiset{x})
    case StopStep(x) =>
      c.(list := Without(c.list, x), cancelled := if x in c.list then c.cancelled + multiset{x} else c.cancelled)
    case ExitStep(gone) =>
      c.(list := Outside(c.list, gone), cancelled := c.cancelled + multiset(Due(c.list, gone)))
    case PollStep(exp, room) =>
      var d := Due(c.list, exp);
      c.(list := Leave(c.list, exp, room), posted := c.posted + multiset(d[..Min(room, |d|)]))
  }

  function Run(c: Account, steps: seq<Step>): Account
    decreases |steps|
  {
    if steps == [] then c else Run(Apply(c, steps[0]), steps[1..])
  }

  ghost predicate Balanced(c: Account) {
    Distinct(c.list) && c.armed == c.posted + c.cancelled + multiset(c.list)
  }

  lemma {:induction false} OutsideSplits(s: seq<int>, gone: set<int>)
    ensures multiset(s) == multiset(Due(s, gone)) + multiset(Outside(s, gone))
    decreases |s|
  {
    if s != [] {
      assert s == [s[0]] + s[1..];
      OutsideSplits(s[1..], gone);
    }
  }

  /** The first `k` of the due timers, or all of them. */
  function Taken(s: seq<int>, exp: set<int>, k: nat): seq<int> {
    Due(s, exp)[..Min(k, |Due(s, exp)|)]
  }

  lemma TakenHead(x: int, s: seq<int>, exp: set<int>, k: nat)
    ensures Taken([x] + s, exp, k) ==
      if x in exp && k > 0 then [x] + Taken(s, exp, k - 1) else if x in exp then [] else Taken(s, exp, k)
  {
  }

  lemma {:induction false} LeaveSplits(s: seq<int>, exp: set<int>, k: nat)
    ensures multiset(s) == multiset(Taken(s, exp, k)) + multiset(Leave(s, exp, k))
    decreases |s|
  {
    if s != [] {
      var x, t := s[0], s[1..];
      assert s == [x] + t;
      TakenHead(x, t, exp, k);
      LeaveHead(x, t, exp, k);
      if x in exp && k > 0 {
        LeaveSplits(t, exp, k - 1);
      } else if x in exp {
        LeaveNothing(t, exp, 0);
      } else {
        LeaveSplits(t, exp, k);
      }
    }
  }

  lemma {:induction false} LeaveDistinct(s: seq<int>, exp: set<int>, k: nat)
    requires Distinct(s)
    ensures Distinct(Leave(s, exp, k)) && forall x :: x in Leave(s, exp, k) ==> x in s
    decreases |s|
  {
    if s != [] {
      assert s == [s[0]] + s[1..] && s[0] !in s[1..];
      LeaveDistinct(s[1..], exp, if s[0] in exp && k > 0 then k - 1 else k);
    }
  }

  lemma WithoutSplits(s: seq<int>, x: int)
    requires x in s
    ensures multiset(s) == multiset{x} + multiset(Without(s, x))
  {
    var k := IndexOf(s, x);
    assert s == s[..k] + [x] + s[k + 1..];
  }

  lemma ApplyBalances(c: Account, step: Step)
    requires Balanced(c)
    ensures Balanced(Apply(c, step))
  {
    match step {
      case AddStep(x) => AddBalances(c, x);
      case StopStep(x) => StopBalances(c, x);
      case ExitStep(gone) =>
        OutsideMembers(c.list, gone);
        OutsideSplits(c.list, gone);
      case PollStep(exp, room) =>
        LeaveDistinct(c.list, exp, room);
        LeaveSplits(c.list, exp, room);
    }
  }

  lemma AddBalances(c: Account, x: int)
    requires Balanced(c)
    ensures Balanced(Apply(c, AddStep(x)))
  {
    assert multiset([x] + c.list) == multiset{x} + multiset(c.list);
  }

  lemma StopBalances(c: Account, x: int)
    requires Balanced(c)
    ensures Balanced(Apply(c, StopStep(x)))
  {
    WithoutMembers(c.list, x);
    if x in c.list {
      WithoutSplits(c.list, x);
    }
  }

  /** Over any run, every arming of a timer ends in exactly one of three ways: it is still
      pending, it was cancelled by a stop or an exit, or it caused one event. */
  lemma {:induction false} ArmingsConserved(steps: seq<Step>, x: int)
    ensures var c := Run(Account([], multiset{}, multiset{}, multiset{}), steps);
      c.armed[x] == c.posted[x] + c.cancelled[x] + if x in c.list then 1 else 0
  {
    var c0 := Account([], multiset{}, multiset{}, multiset{});
    RunBalances(c0, steps);
    CountInDistinct(Run(c0, steps).list, x);
  }

  lemma {:induction false} RunBalances(c: Account, steps: seq<Step>)
    requires Balanced(c)
    ensures Balanced(Run(c, steps))
    decreases |steps|
  {
    if steps != [] {
      ApplyBalances(c, steps[0]);
      RunBalances(Apply(c, steps[0]), steps[1..]);
    }
  }

  lemma {:induction false} CountInDistinct(s: seq<int>, x: int)
    requires Distinct(s)
    ensures multiset(s)[x] == if x in s then 1 else 0
    decreases |s|
  {
    if s != [] {
      assert s == [s[0]] + s[1..];
      CountInDistinct(s[1..], x);
    }
  }

  // ---- The next expiration ----

  ghost predicate InRange(s: seq<int>, n: nat) {
    forall i :: 0 <= i < |s| ==> 0 <= s[i] < n
  }

  /** How far away each timer's expiry time is, seen from `now`. */
  function Distances(start: seq<nat>, interval: seq<nat>, now: nat, w: nat): (dist: seq<nat>)
    requires |start| == |interval| && w > 0
    ensures |dist| == |start|
  {
    seq(|start|, x requires 0 <= x < |start| => TimerRemaining(start[x], interval[x], now, w))
  }

  function MinDist(s: seq<int>, dist: seq<nat>): nat
    requires s != [] && InRange(s, |dist|)
  {
    var n := |s| - 1;
    if n == 0 then dist[s[0]] else Min(dist[s[n]], MinDist(s[..n], dist))
  }

  lemma {:induction false} MinDistExact(s: seq<int>, dist: seq<nat>)
    requires s != [] && InRange(s, |dist|)
    ensures exists i :: 0 <= i < |s| && MinDist(s, dist) == dist[s[i]]
    ensures forall i :: 0 <= i < |s| ==> MinDist(s, dist) <= dist[s[i]]
    decreases |s|
  {
    var n := |s| - 1;
    if n > 0 {
      MinDistExact(s[..n], dist);
      var i :| 0 <= i < n && MinDist(s[..n], dist) == dist[s[..n][i]];
      assert s[..n][i] == s[i];
      forall j | 0 <= j < n ensures MinDist(s, dist) <= dist[s[j]] {
        assert s[..n][j] == s[j];
      }
      assert MinDist(s, dist) == dist[s[n]] || MinDist(s, dist) == dist[s[i]];
    } else {
      assert MinDist(s, dist) == dist[s[0]];
    }
  }

  function NextExpiration(s: seq<int>, start: seq<nat>, interval: seq<nat>, now: nat, w: nat): nat
    requires |start| == |interval| && w > 0 && InRange(s, |start|)
  {
    if s == [] then 0 else (now + MinDist(s, Distances(start, interval, now, w))) % w
  }

  ghost predicate Shows(start: seq<nat>, trueStart: seq<nat>, w: nat)
    requires w > 0
  {
    |start| == |trueStart| && forall x :: 0 <= x < |start| ==> start[x] == trueStart[x] % w
  }

  /** When no timer has expired yet, the first one will do so at the computed distance and
      not before, as long as the clock has not almost turned since any of them was set. */
  lemma WakesInTime(s: seq<int>, trueStart: seq<nat>, start: seq<nat>, interval: seq<nat>, t: nat, d: nat, w: nat)
    requires s != [] && w > 1 && |start| == |interval| && InRange(s, |start|) && Shows(start, trueStart, w)
    requires forall x :: 0 <= x < |interval| ==> interval[x] < w
    requires forall x :: x in s ==> trueStart[x] <= t < trueStart[x] + interval[x] && t + d - trueStart[x] < w - 1
    ensures (exists i :: 0 <= i < |s| && TimerExpired(start[s[i]], interval[s[i]], (t + d) % w, w))
      <==> d >= MinDist(s, Distances(start, interval, t % w, w))
  {
    var dist := Distances(start, interval, t % w, w);
    MinDistExact(s, dist);
    forall i | 0 <= i < |s|
      ensures TimerExpired(start[s[i]], interval[s[i]], (t + d) % w, w) <==> dist[s[i]] <= d
    {
      var x := s[i];
      assert x in s;
      var st := trueStart[x];
      RemainingExact(st, t - st, interval[x], w);
      ExpiredExact(st, t + d - st, interval[x], w);
      ModSmall(t + d - st, w);
    }
  }
}
