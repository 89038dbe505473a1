/** When the iteration over a neighbour table is the order in which its items joined it. */
module NbrHistory {
  import opened NbrModel
  import opened Seqs

  /** The tables with a record of when each listed address was last put on the shared list,
      and when each item last joined its table. Times are numbers of calls. */
  datatype Timed<T> = Timed(v: Neighbors<T>, clock: nat, listed: map<Addr, nat>, joined: map<(nat, Addr), nat>)

  function ApplyTimed<T>(s: Timed<T>, c: Call<T>, zero: T): Timed<T> {
    var w := Apply(s.v, c, zero);
    Timed(w, s.clock + 1,
      if c.a !in s.v.order && c.a in w.order then s.listed[c.a := s.clock] else s.listed,
      if (c.t, c.a) !in s.v.entries && (c.t, c.a) in w.entries then s.joined[(c.t, c.a) := s.clock] else s.joined)
  }

  function RunTimed<T>(s: Timed<T>, calls: seq<Call<T>>, zero: T): Timed<T>
    decreases |calls|
  {
    if calls == [] then s else RunTimed(ApplyTimed(s, calls[0], zero), calls[1..], zero)
  }

  /** Addresses in the order they were put on the shared list. */
  ghost predicate Rising(order: seq<Addr>, listed: map<Addr, nat>, clock: nat) {
    && (forall a :: a in order ==> a in listed && listed[a] < clock)
    && (forall i, j :: 0 <= i < j < |order| ==> listed[order[i]] < listed[order[j]])
  }

  ghost predicate Recorded<T>(s: Timed<T>, t: nat, a: Addr)
    requires (t, a) in s.v.entries
  {
    (t, a) in s.joined && s.joined[(t, a)] < s.clock
  }

  ghost predicate Inv<T>(s: Timed<T>) {
    && WellFormed(s.v)
    && Rising(s.v.order, s.listed, s.clock)
    && (forall t, a {:trigger Recorded(s, t, a)} :: (t, a) in s.v.entries ==> Recorded(s, t, a))
    && (forall t, a, b {:trigger s.joined[(t, a)], s.joined[(t, b)]} ::
          (t, a) in s.v.entries && (t, b) in s.v.entries && (t, a) in s.joined && (t, b) in s.joined && a != b ==>
          s.joined[(t, a)] != s.joined[(t, b)])
  }

  lemma RisingRemove(order: seq<Addr>, listed: map<Addr, nat>, clock: nat, gone: Addr)
    requires Rising(order, listed, clock) && Distinct(order) && gone in order
    ensures Rising(Remove(order, gone), listed, clock)
  {
    RemoveMembers(order, gone);
    var k, r := IndexOf(order, gone), Remove(order, gone);
    assert forall i :: 0 <= i < |r| ==> r[i] == order[if i < k then i else i + 1];
    forall i, j | 0 <= i < j < |r| ensures listed[r[i]] < listed[r[j]] {
      var i', j' := if i < k then i else i + 1, if j < k then j else j + 1;
      assert r[i] == order[i'] && r[j] == order[j'];
    }
  }

  lemma RisingLater(order: seq<Addr>, listed: map<Addr, nat>, clock: nat)
    requires Rising(order, listed, clock)
    ensures Rising(order, listed, clock + 1)
  {
  }

  lemma RisingAppend(order: seq<Addr>, listed: map<Addr, nat>, clock: nat, a: Addr)
    requires Rising(order, listed, clock) && a !in order
    ensures Rising(order + [a], listed[a := clock], clock + 1)
  {
    var q, l := order + [a], listed[a := clock];
    forall b | b in q ensures b in l && l[b] < clock + 1 {
      assert b == a || b in order;
    }
    forall i, j | 0 <= i < j < |q| ensures l[q[i]] < l[q[j]] {
      assert q[i] in order;
      assert j < |order| ==> q[j] in order;
    }
  }

  /** What a call does to the shared list and its record. */
  lemma OrderKeeps<T>(s: Timed<T>, c: Call<T>, zero: T)
    requires Inv(s) && Legal(s.v, c)
    ensures var u := ApplyTimed(s, c, zero); WellFormed(u.v) && Rising(u.v.order, u.listed, u.clock)
  {
    ApplyKeeps(s.v, c, zero);
    RisingLater(s.v.order, s.listed, s.clock);
    if c.AddCall? && c.a !in s.v.order {
      var b := Victim(s.v, |s.v.order|);
      if |s.v.order| < s.v.capacity {
        RisingAppend(s.v.order, s.listed, s.clock, c.a);
      } else if b != -1 {
        var gone := s.v.order[b];
        RisingRemove(s.v.order, s.listed, s.clock, gone);
        RemoveMembers(s.v.order, gone);
        RisingAppend(Remove(s.v.order, gone), s.listed, s.clock, c.a);
      }
    }
  }

  /** A call adds at most the one item that it names. */
  lemma EntriesFrom<T>(v: Neighbors<T>, c: Call<T>, zero: T, t: nat, a: Addr)
    requires Legal(v, c) && (t, a) in Apply(v, c, zero).entries
    ensures (t, a) in v.entries || (t, a) == (c.t, c.a)
  {
  }

  lemma ApplyTimedKeeps<T>(s: Timed<T>, c: Call<T>, zero: T)
    requires Inv(s) && Legal(s.v, c)
    ensures Inv(ApplyTimed(s, c, zero))
  {
    var u := ApplyTimed(s, c, zero);
    OrderKeeps(s, c, zero);
    forall t, a {:trigger Recorded(u, t, a)} | (t, a) in u.v.entries ensures Recorded(u, t, a) {
      EntriesFrom(s.v, c, zero, t, a);
      assert (t, a) in s.v.entries ==> Recorded(s, t, a);
    }
    forall t, a, b {:trigger u.joined[(t, a)], u.joined[(t, b)]}
      | (t, a) in u.v.entries && (t, b) in u.v.entries && (t, a) in u.joined && (t, b) in u.joined && a != b
      ensures u.joined[(t, a)] != u.joined[(t, b)]
    {
      EntriesFrom(s.v, c, zero, t, a);
      EntriesFrom(s.v, c, zero, t, b);
      assert (t, a) in s.v.entries ==> Recorded(s, t, a);
      assert (t, b) in s.v.entries ==> Recorded(s, t, b);
    }
  }

  lemma {:induction false} RunTimedKeeps<T>(s: Timed<T>, calls: seq<Call<T>>, zero: T)
    requires Inv(s) && LegalRun(s.v, calls, zero)
    ensures Inv(RunTimed(s, calls, zero)) && RunTimed(s, calls, zero).v == Run(s.v, calls, zero)
    decreases |calls|
  {
    if calls != [] {
      ApplyTimedKeeps(s, calls[0], zero);
      RunTimedKeeps(ApplyTimed(s, calls[0], zero), calls[1..], zero);
    }
  }

  /** The members of the table, the earliest to join first. */
  ghost predicate IsJoinOrder<T>(s: Timed<T>, t: nat, q: seq<Addr>)
    requires Inv(s)
  {
    && (forall a :: a in q <==> a in s.v.order && (t, a) in s.v.entries)
    && JoinedRise(s, t, q)
  }

  function Joined<T>(s: Timed<T>, t: nat, a: Addr): nat {
    if (t, a) in s.joined then s.joined[(t, a)] else 0
  }

  function Listed<T>(s: Timed<T>, a: Addr): nat {
    if a in s.listed then s.listed[a] else 0
  }

  /** `x` joined the table before `y`, although `y` had been on the shared list before `x`. */
  ghost predicate Overtaken<T>(s: Timed<T>, t: nat, x: Addr, y: Addr) {
    && (t, x) in s.v.entries && (t, y) in s.v.entries
    && Joined(s, t, x) < Joined(s, t, y) && Listed(s, y) < Listed(s, x)
  }

  ghost predicate ListedRise<T>(s: Timed<T>, m: seq<Addr>) {
    forall i, j :: 0 <= i < j < |m| ==> Listed(s, m[i]) < Listed(s, m[j])
  }

  ghost predicate JoinedRise<T>(s: Timed<T>, t: nat, m: seq<Addr>) {
    forall i, j :: 0 <= i < j < |m| ==> Joined(s, t, m[i]) < Joined(s, t, m[j])
  }

  lemma ConsRise<T>(s: Timed<T>, x: Addr, m: seq<Addr>)
    requires ListedRise(s, m) && forall a :: a in m ==> Listed(s, x) < Listed(s, a)
    ensures ListedRise(s, [x] + m)
  {
    var q := [x] + m;
    forall i, j | 0 <= i < j < |q| ensures Listed(s, q[i]) < Listed(s, q[j]) {
      assert q[j] == m[j - 1] && m[j - 1] in m;
    }
  }

  lemma {:induction false} MembersRise<T>(s: Timed<T>, t: nat, q: seq<Addr>)
    requires Rising(q, s.listed, s.clock) && Distinct(q)
    ensures ListedRise(s, Members(s.v, t, q))
    decreases |q|
  {
    if q != [] {
      assert forall a :: a in q[1..] ==> a in q;
      MembersRise(s, t, q[1..]);
      var m := Members(s.v, t, q[1..]);
      MembersExact(s.v, t, q[1..]);
      forall a | a in m ensures Listed(s, q[0]) < Listed(s, a) {
        FirstListed(s, q, a);
      }
      ConsRise(s, q[0], m);
      assert [] + m == m;
    }
  }

  lemma FirstListed<T>(s: Timed<T>, q: seq<Addr>, a: Addr)
    requires q != [] && Rising(q, s.listed, s.clock) && a in q[1..]
    ensures Listed(s, q[0]) < Listed(s, a)
  {
    var k :| 1 <= k < |q| && q[k] == a;
    assert q[0] in q && q[k] in q;
  }

  /** The members, in the order of the shared list, no two of them having joined at once. */
  ghost predicate Iterates<T>(s: Timed<T>, t: nat, m: seq<Addr>) {
    && Distinct(m) && ListedRise(s, m)
    && (forall a :: a in m <==> (t, a) in s.v.entries)
    && (forall a, b :: a in m && b in m && a != b ==> Joined(s, t, a) != Joined(s, t, b))
  }

  lemma NobodyOvertaken<T>(s: Timed<T>, t: nat, m: seq<Addr>)
    requires Iterates(s, t, m) && forall x, y :: !Overtaken(s, t, x, y)
    ensures JoinedRise(s, t, m)
  {
    forall i, j | 0 <= i < j < |m| ensures Joined(s, t, m[i]) < Joined(s, t, m[j]) {
      assert m[i] in m && m[j] in m && !Overtaken(s, t, m[j], m[i]);
    }
  }

  lemma InOrderNotOvertaken<T>(s: Timed<T>, t: nat, m: seq<Addr>, x: Addr, y: Addr)
    requires Iterates(s, t, m) && JoinedRise(s, t, m)
    ensures !Overtaken(s, t, x, y)
  {
    if x in m && y in m {
      var i, j := IndexOf(m, x), IndexOf(m, y);
      assert m[i] == x && m[j] == y;
    }
  }

  /** After any run: head and next go through the table in the order in which its items
      joined it exactly if no member was overtaken on the shared list. */
  lemma IterationInJoinOrderExactly<T>(s: Timed<T>, t: nat)
    requires Inv(s)
    ensures IsJoinOrder(s, t, Visit(s.v, t, 0)) <==> forall x, y :: !Overtaken(s, t, x, y)
  {
    var m := Visit(s.v, t, 0);
    IterationIterates(s, t);
    if forall x, y :: !Overtaken(s, t, x, y) {
      NobodyOvertaken(s, t, m);
    }
    if JoinedRise(s, t, m) {
      forall x, y ensures !Overtaken(s, t, x, y) {
        InOrderNotOvertaken(s, t, m, x, y);
      }
    }
  }

  lemma IterationIterates<T>(s: Timed<T>, t: nat)
    requires Inv(s)
    ensures Iterates(s, t, Visit(s.v, t, 0))
  {
    assert s.v.order[0..] == s.v.order;
    VisitIsMembers(s.v, t, 0);
    MembersExact(s.v, t, s.v.order);
    MembersRise(s, t, s.v.order);
    var m := Visit(s.v, t, 0);
    forall a, b | a in m && b in m && a != b ensures Joined(s, t, a) != Joined(s, t, b) {
      assert Recorded(s, t, a) && Recorded(s, t, b);
    }
  }

  /** The same from the start, over runs with evictions and removals. */
  lemma RunInJoinOrderExactly<T>(capacity: nat, calls: seq<Call<T>>, zero: T, t: nat)
    requires LegalRun(Neighbors(capacity, [], map[], {}), calls, zero)
    ensures var s := RunTimed(Timed(Neighbors(capacity, [], map[], {}), 0, map[], map[]), calls, zero);
      && Inv(s) && s.v == Run(Neighbors(capacity, [], map[], {}), calls, zero)
      && (IsJoinOrder(s, t, Visit(s.v, t, 0)) <==> forall x, y :: !Overtaken(s, t, x, y))
  {
    var s0: Timed<T> := Timed(Neighbors(capacity, [], map[], {}), 0, map[], map[]);
    RunTimedKeeps(s0, calls, zero);
    IterationInJoinOrderExactly(RunTimed(s0, calls, zero), t);
  }
}
