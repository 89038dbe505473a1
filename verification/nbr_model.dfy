/** What the neighbour tables mean: one finite map from address to item for each table, over
    one shared list of neighbours that can run full. */
module NbrModel {
  import opened Bitmaps
  import opened Seqs

  type Addr = nat

  /** The address that a NULL address stands for. */
  const LINKADDR_NULL: Addr := 0

  datatype Neighbors<T> = Neighbors(capacity: nat, order: seq<Addr>, entries: map<(nat, Addr), T>,
                                    locks: set<(nat, Addr)>)

  ghost predicate WellFormed<T>(v: Neighbors<T>) {
    && Distinct(v.order)
    && |v.order| <= v.capacity
    && (forall t, a :: (t, a) in v.entries ==> t < MAX_NUM_TABLES && a in v.order)
    && (forall t, a :: (t, a) in v.locks ==> t < MAX_NUM_TABLES && a in v.order)
  }

  /** One table, as its users see it. */
  ghost function Table<T>(v: Neighbors<T>, t: nat): map<Addr, T> {
    map a | a in v.order && (t, a) in v.entries :: v.entries[(t, a)]
  }

  /** How many of the first `k` tables use `a`. */
  function Users<T>(v: Neighbors<T>, a: Addr, k: nat): (n: nat)
    ensures n <= k
  {
    if k == 0 then 0 else Users(v, a, k - 1) + if (k - 1, a) in v.entries then 1 else 0
  }

  predicate Locked<T>(v: Neighbors<T>, a: Addr) {
    exists t | 0 <= t < MAX_NUM_TABLES :: (t, a) in v.locks
  }

  /** The number of tables that use the i-th neighbour. */
  function UsersAt<T>(v: Neighbors<T>, i: nat): nat
    requires i < |v.order|
  {
    Users(v, v.order[i], MAX_NUM_TABLES)
  }

  predicate LockedAt<T>(v: Neighbors<T>, i: nat)
    requires i < |v.order|
  {
    Locked(v, v.order[i])
  }

  /** `b` is the first among the unlocked neighbours with the fewest users, counting only
      the first `n` neighbours; -1 says that these are all locked. */
  ghost predicate IsVictim<T>(v: Neighbors<T>, n: nat, b: int)
    requires n <= |v.order|
  {
    if b == -1 then forall j :: 0 <= j < n ==> LockedAt(v, j)
    else
      && 0 <= b < n
      && !LockedAt(v, b)
      && forall j :: 0 <= j < n && !LockedAt(v, j) ==>
        UsersAt(v, b) <= UsersAt(v, j) && (j < b ==> UsersAt(v, b) < UsersAt(v, j))
  }

  function Victim<T>(v: Neighbors<T>, n: nat): (b: int)
    requires n <= |v.order|
    ensures IsVictim(v, n, b)
  {
    if n == 0 then -1
    else
      var b := Victim(v, n - 1);
      if LockedAt(v, n - 1) then b
      else if b == -1 || UsersAt(v, n - 1) < UsersAt(v, b) then n - 1
      else b
  }

  lemma VictimUnique<T>(v: Neighbors<T>, n: nat, b: int, c: int)
    requires n <= |v.order| && IsVictim(v, n, b) && IsVictim(v, n, c)
    ensures b == c
  {
  }

  function Evict<T>(v: Neighbors<T>, a: Addr): Neighbors<T>
    requires a in v.order
  {
    v.(order := Remove(v.order, a), entries := map k | k in v.entries && k.1 != a :: v.entries[k])
  }

  function Enlist<T>(v: Neighbors<T>, a: Addr): Neighbors<T> {
    v.(order := v.order + [a])
  }

  function Put<T>(v: Neighbors<T>, t: nat, a: Addr, x: T): Neighbors<T> {
    v.(entries := v.entries[(t, a) := x])
  }

  function Drop<T>(v: Neighbors<T>, t: nat, a: Addr): Neighbors<T> {
    v.(entries := v.entries - {(t, a)}, locks := v.locks - {(t, a)})
  }

  function SetLock<T>(v: Neighbors<T>, t: nat, a: Addr, on: bool): Neighbors<T> {
    v.(locks := if on then v.locks + {(t, a)} else v.locks - {(t, a)})
  }

  /** The shared list with `a` on it, or nothing when every neighbour is locked. */
  function Allocate<T>(v: Neighbors<T>, a: Addr): (bool, Neighbors<T>) {
    if a in v.order then (true, v)
    else if |v.order| < v.capacity then (true, Enlist(v, a))
    else
      var b := Victim(v, |v.order|);
      if b == -1 then (false, v) else (true, Enlist(Evict(v, v.order[b]), a))
  }

  function Add<T>(v: Neighbors<T>, t: nat, a: Addr, zero: T): (bool, Neighbors<T>) {
    var (ok, w) := Allocate(v, a);
    (ok, if ok then Put(w, t, a, zero) else v)
  }

  datatype Call<T> =
    | AddCall(t: nat, a: Addr)
    | RemoveCall(t: nat, a: Addr)
    | LockCall(t: nat, a: Addr, on: bool)
    | StoreCall(t: nat, a: Addr, x: T)

  /** Calls about an item name a neighbour that is on the list: items come from add, get,
      head and next, and slots never leave the list for good. */
  predicate Legal<T>(v: Neighbors<T>, c: Call<T>) {
    c.t < MAX_NUM_TABLES && (c.AddCall? || c.a in v.order) && (c.StoreCall? ==> (c.t, c.a) in v.entries)
  }

  function Apply<T>(v: Neighbors<T>, c: Call<T>, zero: T): Neighbors<T> {
    match c
    case AddCall(t, a) => Add(v, t, a, zero).1
    case RemoveCall(t, a) => Drop(v, t, a)
    case LockCall(t, a, on) => SetLock(v, t, a, on)
    case StoreCall(t, a, x) => Put(v, t, a, x)
  }

  lemma EvictKeeps<T>(v: Neighbors<T>, a: Addr)
    requires WellFormed(v) && a in v.order && !Locked(v, a)
    ensures WellFormed(Evict(v, a)) && a !in Evict(v, a).order && |Evict(v, a).order| == |v.order| - 1
    ensures forall b :: b in Evict(v, a).order <==> b in v.order && b != a
  {
  }

  lemma AllocateKeeps<T>(v: Neighbors<T>, a: Addr)
    requires WellFormed(v)
    ensures Allocate(v, a).0 ==> WellFormed(Allocate(v, a).1) && a in Allocate(v, a).1.order
  {
    if a !in v.order && |v.order| >= v.capacity {
      var b := Victim(v, |v.order|);
      if b != -1 {
        EvictKeeps(v, v.order[b]);
      }
    }
  }

  lemma ApplyKeeps<T>(v: Neighbors<T>, c: Call<T>, zero: T)
    requires WellFormed(v) && Legal(v, c)
    ensures WellFormed(Apply(v, c, zero)) && Apply(v, c, zero).capacity == v.capacity
  {
    if c.AddCall? {
      AllocateKeeps(v, c.a);
    }
  }

  lemma TableEvict<T>(v: Neighbors<T>, a: Addr, u: nat)
    requires WellFormed(v) && a in v.order && !Locked(v, a)
    ensures Table(Evict(v, a), u) == Table(v, u) - {a}
  {
    EvictKeeps(v, a);
  }

  lemma TablePut<T>(v: Neighbors<T>, t: nat, a: Addr, x: T, u: nat)
    requires a in v.order
    ensures Table(Put(v, t, a, x), u) == if u == t then Table(v, u)[a := x] else Table(v, u)
  {
  }

  lemma TableEnlist<T>(v: Neighbors<T>, a: Addr, u: nat)
    requires WellFormed(v) && a !in v.order
    ensures Table(Enlist(v, a), u) == Table(v, u)
  {
  }

  lemma AddSucceeds<T>(v: Neighbors<T>, a: Addr)
    requires WellFormed(v)
    ensures Allocate(v, a).0 <==>
      a in v.order || |v.order| < v.capacity || exists j :: 0 <= j < |v.order| && !LockedAt(v, j)
  {
  }

  /** Adding to a table, stated on the finite maps. An address that is already a neighbour
      costs nobody anything; a new one costs every table at most the one victim; and the
      added item is zero whatever its slot held before. No other table gains an item. */
  lemma AddOnTables<T>(v: Neighbors<T>, t: nat, a: Addr, zero: T, u: nat)
    requires WellFormed(v) && t < MAX_NUM_TABLES
    ensures var (ok, w) := Add(v, t, a, zero);
      && (ok <==> a in v.order || |v.order| < v.capacity || exists j :: 0 <= j < |v.order| && !LockedAt(v, j))
      && (!ok ==> w == v)
      && (ok && (a in v.order || |v.order| < v.capacity) ==>
        Table(w, u) == if u == t then Table(v, u)[a := zero] else Table(v, u))
      && (ok && a !in v.order && |v.order| == v.capacity ==>
        var gone := v.order[Victim(v, |v.order|)];
        Table(w, u) == if u == t then (Table(v, u) - {gone})[a := zero] else Table(v, u) - {gone})
  {
    AddSucceeds(v, a);
    var (ok, w) := Allocate(v, a);
    if a in v.order {
      TablePut(v, t, a, zero, u);
    } else if |v.order| < v.capacity {
      TableEnlist(v, a, u);
      TablePut(w, t, a, zero, u);
    } else if ok {
      var gone := v.order[Victim(v, |v.order|)];
      assert !LockedAt(v, Victim(v, |v.order|));
      EvictKeeps(v, gone);
      TableEvict(v, gone, u);
      TableEnlist(Evict(v, gone), a, u);
      TablePut(w, t, a, zero, u);
    }
  }

  /** The other calls on the finite maps: a removal takes the item and this table's lock, a
      lock or its release changes no item, and the neighbour stays listed. */
  lemma OthersOnTables<T>(v: Neighbors<T>, t: nat, a: Addr, on: bool, u: nat)
    ensures var w := Drop(v, t, a);
      && w.order == v.order && Table(w, u) == (if u == t then Table(v, u) - {a} else Table(v, u))
      && (forall s, b :: (s, b) in w.locks <==> (s, b) in v.locks && (s, b) != (t, a))
    ensures var w := SetLock(v, t, a, on);
      && w.order == v.order && Table(w, u) == Table(v, u)
      && (forall s, b :: (s, b) in w.locks <==> if (s, b) == (t, a) then on else (s, b) in v.locks)
  {
  }

  function Run<T>(v: Neighbors<T>, calls: seq<Call<T>>, zero: T): Neighbors<T>
    decreases |calls|
  {
    if calls == [] then v else Run(Apply(v, calls[0], zero), calls[1..], zero)
  }

  ghost predicate LegalRun<T>(v: Neighbors<T>, calls: seq<Call<T>>, zero: T)
    decreases |calls|
  {
    calls != [] ==> Legal(v, calls[0]) && LegalRun(Apply(v, calls[0], zero), calls[1..], zero)
  }

  lemma {:induction false} RunKeeps<T>(v: Neighbors<T>, calls: seq<Call<T>>, zero: T)
    requires WellFormed(v) && LegalRun(v, calls, zero)
    ensures WellFormed(Run(v, calls, zero)) && Run(v, calls, zero).capacity == v.capacity
    decreases |calls|
  {
    if calls != [] {
      ApplyKeeps(v, calls[0], zero);
      RunKeeps(Apply(v, calls[0], zero), calls[1..], zero);
    }
  }

  /** The calls that may take away table `u`'s item for `a`, or change it. */
  predicate Touches<T>(c: Call<T>, u: nat, a: Addr) {
    c.a == a && c.t == u && !c.LockCall?
  }

  /** The calls that end table `t`'s lock on `a`. */
  predicate Releases<T>(c: Call<T>, t: nat, a: Addr) {
    c.a == a && c.t == t && (c.RemoveCall? || (c.LockCall? && !c.on))
  }

  /** A neighbour that some table has locked stays, with every table's item for it, however
      many neighbours compete for room, until that table removes or unlocks it. */
  lemma {:induction false} LockProtects<T>(v: Neighbors<T>, calls: seq<Call<T>>, zero: T, t: nat, u: nat, a: Addr)
    requires WellFormed(v) && LegalRun(v, calls, zero)
    requires (t, a) in v.locks && (u, a) in v.entries
    requires forall c :: c in calls ==> !Releases(c, t, a) && !Touches(c, u, a)
    ensures var w := Run(v, calls, zero);
      (t, a) in w.locks && a in w.order && (u, a) in w.entries && w.entries[(u, a)] == v.entries[(u, a)]
    decreases |calls|
  {
    if calls != [] {
      var w := Apply(v, calls[0], zero);
      ApplyKeeps(v, calls[0], zero);
      LockProtectsOnce(v, calls[0], zero, t, u, a);
      LockProtects(w, calls[1..], zero, t, u, a);
    }
  }

  lemma LockProtectsOnce<T>(v: Neighbors<T>, c: Call<T>, zero: T, t: nat, u: nat, a: Addr)
    requires WellFormed(v) && Legal(v, c)
    requires (t, a) in v.locks && (u, a) in v.entries && !Releases(c, t, a) && !Touches(c, u, a)
    ensures var w := Apply(v, c, zero);
      (t, a) in w.locks && (u, a) in w.entries && w.entries[(u, a)] == v.entries[(u, a)]
  {
  }

  // ---- Iteration ----

  /** The first neighbour at or after position `i` that table `t` uses. */
  function FirstUse<T>(v: Neighbors<T>, t: nat, i: nat): (j: nat)
    requires i <= |v.order|
    ensures i <= j <= |v.order| && (j < |v.order| ==> (t, v.order[j]) in v.entries)
    ensures forall k :: i <= k < j ==> (t, v.order[k]) !in v.entries
    decreases |v.order| - i
  {
    if i == |v.order| || (t, v.order[i]) in v.entries then i else FirstUse(v, t, i + 1)
  }

  /** What a loop from head through next visits, from position `i` on. */
  function Visit<T>(v: Neighbors<T>, t: nat, i: nat): seq<Addr>
    requires i <= |v.order|
    decreases |v.order| - i
  {
    var j := FirstUse(v, t, i);
    if j == |v.order| then [] else [v.order[j]] + Visit(v, t, j + 1)
  }

  /** The members of the table, in the order of the shared list. */
  function Members<T>(v: Neighbors<T>, t: nat, s: seq<Addr>): seq<Addr> {
    if s == [] then [] else (if (t, s[0]) in v.entries then [s[0]] else []) + Members(v, t, s[1..])
  }

  lemma {:induction false} MembersExact<T>(v: Neighbors<T>, t: nat, s: seq<Addr>)
    requires Distinct(s)
    ensures Distinct(Members(v, t, s))
    ensures forall a :: a in Members(v, t, s) <==> a in s && (t, a) in v.entries
    decreases |s|
  {
    if s != [] {
      MembersExact(v, t, s[1..]);
    }
  }

  lemma {:induction false} VisitIsMembers<T>(v: Neighbors<T>, t: nat, i: nat)
    requires i <= |v.order|
    ensures Visit(v, t, i) == Members(v, t, v.order[i..])
    decreases |v.order| - i
  {
    if i < |v.order| {
      assert v.order[i..][1..] == v.order[i + 1..];
      VisitIsMembers(v, t, i + 1);
    }
  }

  /** Head and next visit every item of the table exactly once, and nothing else. */
  lemma VisitsTableOnce<T>(v: Neighbors<T>, t: nat)
    requires WellFormed(v)
    ensures Distinct(Visit(v, t, 0))
    ensures forall a :: a in Visit(v, t, 0) <==> a in Table(v, t)
  {
    assert v.order[0..] == v.order;
    VisitIsMembers(v, t, 0);
    MembersExact(v, t, v.order);
  }

  lemma {:induction false} MembersConcat<T>(v: Neighbors<T>, t: nat, a: seq<Addr>, b: seq<Addr>)
    ensures Members(v, t, a + b) == Members(v, t, a) + Members(v, t, b)
    decreases |a|
  {
    if a == [] {
      assert a + b == b;
    } else {
      assert (a + b)[1..] == a[1..] + b;
      MembersConcat(v, t, a[1..], b);
    }
  }

  lemma {:induction false} MembersCongruent<T>(v: Neighbors<T>, w: Neighbors<T>, t: nat, s: seq<Addr>)
    requires forall a :: a in s ==> ((t, a) in v.entries <==> (t, a) in w.entries)
    ensures Members(v, t, s) == Members(w, t, s)
    decreases |s|
  {
    if s != [] {
      MembersCongruent(v, w, t, s[1..]);
    }
  }

  /** An item of a neighbour at position `k` goes where the neighbour is. */
  lemma JoinsInPlace<T>(v: Neighbors<T>, t: nat, k: nat, zero: T)
    requires WellFormed(v) && k < |v.order| && (t, v.order[k]) !in v.entries
    ensures var a, p, q := v.order[k], v.order[..k], v.order[k + 1..];
      && Members(v, t, v.order) == Members(v, t, p) + Members(v, t, q)
      && Members(v, t, v.order[k..]) == Members(v, t, q)
      && Members(Put(v, t, a, zero), t, v.order) == Members(v, t, p) + ([a] + Members(v, t, q))
  {
    var a, p, q := v.order[k], v.order[..k], v.order[k + 1..];
    var w := Put(v, t, a, zero);
    assert v.order == p + ([a] + q) && v.order[k..] == [a] + q && ([a] + q)[1..] == q;
    MembersConcat(v, t, p, [a] + q);
    MembersConcat(w, t, p, [a] + q);
    MembersCongruent(v, w, t, p);
    MembersCongruent(v, w, t, q);
  }

  lemma LastOrNot<T>(x: seq<T>, a: T, y: seq<T>)
    requires a !in y
    ensures x + ([a] + y) == x + y + [a] <==> y == []
  {
    if y != [] {
      assert (x + ([a] + y))[|x|] == a && (x + y + [a])[|x|] == y[0];
    }
  }

  /** The neighbours that stay when room is made for `a`. */
  function Survivors<T>(v: Neighbors<T>, a: Addr): seq<Addr> {
    var b := Victim(v, |v.order|);
    if a !in v.order && |v.order| >= v.capacity && b != -1 then Remove(v.order, v.order[b]) else v.order
  }

  /** Iteration follows the shared list, not the order in which items joined the table: an
      add of a new item leaves it last exactly when the neighbour is new to the list or has
      no other member of this table behind it there. */
  lemma AddedLast<T>(v: Neighbors<T>, t: nat, a: Addr, zero: T)
    requires WellFormed(v) && t < MAX_NUM_TABLES && (t, a) !in v.entries
    requires Add(v, t, a, zero).0
    ensures var w := Add(v, t, a, zero).1;
      Members(w, t, w.order) == Members(v, t, Survivors(v, a)) + [a]
      <==> a !in v.order || Members(v, t, v.order[IndexOf(v.order, a)..]) == []
  {
    var w := Add(v, t, a, zero).1;
    if a !in v.order {
      var s := Survivors(v, a);
      var b := Victim(v, |v.order|);
      if |v.order| >= v.capacity {
        assert !LockedAt(v, b);
        EvictKeeps(v, v.order[b]);
      }
      MembersConcat(w, t, s, [a]);
      MembersCongruent(v, w, t, s);
    } else {
      var k := IndexOf(v.order, a);
      var q := v.order[k + 1..];
      JoinsInPlace(v, t, k, zero);
      MembersExact(v, t, q);
      LastOrNot(Members(v, t, v.order[..k]), a, Members(v, t, q));
    }
  }

  /** Two tables that learn the same two neighbours in opposite orders list them alike. */
  lemma InsertionOrderLost()
    ensures var v := Neighbors(4, [], map[], {});
      var w := Run(v, [AddCall(0, 1), AddCall(0, 2), AddCall(1, 2), AddCall(1, 1)], 0);
      Members(w, 1, w.order) == [1, 2]
  {
  }
}
