/** The neighbour tables as they lie in memory: the list of slots, the set of tables in each
    slot's bitmaps and the item arrays; and when such a memory stands for given tables. */
module NbrSlots {
  import opened Bitmaps
  import opened List
  import opened NbrModel
  import opened Seqs

  datatype Slots<T> = Slots(order: seq<int>, addr: seq<Addr>, used: seq<set<nat>>, locked: seq<set<nat>>,
                            data: seq<seq<T>>)

  ghost predicate Shaped<T>(s: Slots<T>, n: nat) {
    && |s.addr| == |s.used| == |s.locked| == n
    && |s.data| == MAX_NUM_TABLES
    && (forall t :: 0 <= t < MAX_NUM_TABLES ==> |s.data[t]| == n)
    && Distinct(s.order)
    && (forall i :: 0 <= i < |s.order| ==> 0 <= s.order[i] < n)
  }

  /** The i-th slot on the list holds what table `t` has for the i-th neighbour. */
  ghost predicate Mirrors<T>(s: Slots<T>, v: Neighbors<T>, i: nat, t: nat)
    requires Shaped(s, v.capacity) && |s.order| == |v.order| && i < |v.order| && t < MAX_NUM_TABLES
  {
    var k, a := s.order[i], v.order[i];
    && (t in s.used[k] <==> (t, a) in v.entries)
    && ((t, a) in v.entries ==> s.data[t][k] == v.entries[(t, a)])
    && (t in s.locked[k] <==> (t, a) in v.locks)
  }

  ghost predicate Clean<T>(s: Slots<T>, k: nat)
    requires k < |s.used| && k < |s.locked|
  {
    s.used[k] == {} && s.locked[k] == {}
  }

  ghost predicate Agree<T>(s: Slots<T>, v: Neighbors<T>) {
    && WellFormed(v)
    && Shaped(s, v.capacity)
    && |s.order| == |v.order|
    && (forall i :: 0 <= i < |v.order| ==> s.addr[s.order[i]] == v.order[i])
    && (forall i: nat, t: nat {:trigger Mirrors(s, v, i, t)} :: i < |v.order| && t < MAX_NUM_TABLES ==>
      Mirrors(s, v, i, t))
    && (forall k: nat {:trigger Clean(s, k)} :: k < v.capacity && k !in s.order ==> Clean(s, k))
  }

  lemma PutAgrees<T>(s: Slots<T>, v: Neighbors<T>, i: nat, t: nat, x: T)
    requires Agree(s, v) && i < |v.order| && t < MAX_NUM_TABLES
    ensures var k := s.order[i];
      Agree(s.(used := s.used[k := s.used[k] + {t}], data := s.data[t := s.data[t][k := x]]), Put(v, t, v.order[i], x))
  {
    var k := s.order[i];
    var s' := s.(used := s.used[k := s.used[k] + {t}], data := s.data[t := s.data[t][k := x]]);
    var v' := Put(v, t, v.order[i], x);
    forall j: nat, u: nat {:trigger Mirrors(s', v', j, u)} | j < |v.order| && u < MAX_NUM_TABLES
      ensures Mirrors(s', v', j, u)
    {
      assert Mirrors(s, v, j, u);
    }
    forall c: nat {:trigger Clean(s', c)} | c < v.capacity && c !in s.order ensures Clean(s', c) {
      assert Clean(s, c);
    }
  }

  lemma StoreAgrees<T>(s: Slots<T>, v: Neighbors<T>, i: nat, t: nat, x: T)
    requires Agree(s, v) && i < |v.order| && t < MAX_NUM_TABLES && (t, v.order[i]) in v.entries
    ensures var k := s.order[i];
      Agree(s.(data := s.data[t := s.data[t][k := x]]), Put(v, t, v.order[i], x))
  {
    var k := s.order[i];
    var s', v' := s.(data := s.data[t := s.data[t][k := x]]), Put(v, t, v.order[i], x);
    forall j: nat, u: nat {:trigger Mirrors(s', v', j, u)} | j < |v.order| && u < MAX_NUM_TABLES
      ensures Mirrors(s', v', j, u)
    {
      assert Mirrors(s, v, j, u);
    }
    forall c: nat {:trigger Clean(s', c)} | c < v.capacity && c !in s.order ensures Clean(s', c) {
      assert Clean(s, c);
    }
  }

  lemma DropAgrees<T>(s: Slots<T>, v: Neighbors<T>, i: nat, t: nat)
    requires Agree(s, v) && i < |v.order| && t < MAX_NUM_TABLES
    ensures var k := s.order[i];
      Agree(s.(used := s.used[k := s.used[k] - {t}], locked := s.locked[k := s.locked[k] - {t}]),
            Drop(v, t, v.order[i]))
  {
    var k := s.order[i];
    var s' := s.(used := s.used[k := s.used[k] - {t}], locked := s.locked[k := s.locked[k] - {t}]);
    var v' := Drop(v, t, v.order[i]);
    forall j: nat, u: nat {:trigger Mirrors(s', v', j, u)} | j < |v.order| && u < MAX_NUM_TABLES
      ensures Mirrors(s', v', j, u)
    {
      assert Mirrors(s, v, j, u);
    }
    forall c: nat {:trigger Clean(s', c)} | c < v.capacity && c !in s.order ensures Clean(s', c) {
      assert Clean(s, c);
    }
  }

  lemma LockAgrees<T>(s: Slots<T>, v: Neighbors<T>, i: nat, t: nat, on: bool)
    requires Agree(s, v) && i < |v.order| && t < MAX_NUM_TABLES
    ensures var k := s.order[i];
      var b := if on then s.locked[k] + {t} else s.locked[k] - {t};
      Agree(s.(locked := s.locked[k := b]), SetLock(v, t, v.order[i], on))
  {
    var k := s.order[i];
    var b := if on then s.locked[k] + {t} else s.locked[k] - {t};
    var s', v' := s.(locked := s.locked[k := b]), SetLock(v, t, v.order[i], on);
    forall j: nat, u: nat {:trigger Mirrors(s', v', j, u)} | j < |v.order| && u < MAX_NUM_TABLES
      ensures Mirrors(s', v', j, u)
    {
      assert Mirrors(s, v, j, u);
    }
    forall c: nat {:trigger Clean(s', c)} | c < v.capacity && c !in s.order ensures Clean(s', c) {
      assert Clean(s, c);
    }
  }

  lemma EnlistAgrees<T>(s: Slots<T>, v: Neighbors<T>, k: nat, a: Addr)
    requires Agree(s, v) && |v.order| < v.capacity && k < v.capacity && k !in s.order && a !in v.order
    ensures Agree(s.(order := s.order + [k], addr := s.addr[k := a]), Enlist(v, a))
  {
    var s', v' := s.(order := s.order + [k], addr := s.addr[k := a]), Enlist(v, a);
    assert Clean(s, k);
    forall j: nat, u: nat {:trigger Mirrors(s', v', j, u)} | j < |v'.order| && u < MAX_NUM_TABLES
      ensures Mirrors(s', v', j, u)
    {
      if j < |v.order| {
        assert Mirrors(s, v, j, u);
      }
    }
    forall c: nat {:trigger Clean(s', c)} | c < v.capacity && c !in s'.order ensures Clean(s', c) {
      assert Clean(s, c);
    }
  }

  /** What eviction does to the two lists, position by position. */
  lemma EvictOrder<T>(s: Slots<T>, v: Neighbors<T>, i: nat)
    requires Agree(s, v) && i < |v.order|
    ensures var r, q := Without(s.order, s.order[i]), Remove(v.order, v.order[i]);
      && |r| == |q| == |v.order| - 1 && Distinct(r)
      && (forall x :: x in r <==> x in s.order && x != s.order[i])
      && (forall j :: 0 <= j < |r| ==> r[j] == s.order[if j < i then j else j + 1])
      && (forall j :: 0 <= j < |q| ==> q[j] == v.order[if j < i then j else j + 1])
  {
    RemoveMembers(s.order, s.order[i]);
    IndexOfAt(s.order, i);
    IndexOfAt(v.order, i);
  }

  /** An unlocked neighbour leaves a clean slot behind. */
  lemma EvictAgrees<T>(s: Slots<T>, v: Neighbors<T>, i: nat)
    requires Agree(s, v) && i < |v.order| && s.locked[s.order[i]] == {}
    ensures var k := s.order[i];
      Agree(s.(order := Without(s.order, k), used := s.used[k := {}]), Evict(v, v.order[i]))
  {
    var k, a := s.order[i], v.order[i];
    var s', v' := s.(order := Without(s.order, k), used := s.used[k := {}]), Evict(v, a);
    LockedBits(s, v, i);
    assert !Locked(v, a);
    EvictKeeps(v, a);
    EvictOrder(s, v, i);
    assert Shaped(s', v.capacity);
    forall j: nat, u: nat {:trigger Mirrors(s', v', j, u)} | j < |v'.order| && u < MAX_NUM_TABLES
      ensures Mirrors(s', v', j, u)
    {
      assert Mirrors(s, v, if j < i then j else j + 1, u);
    }
    forall c: nat {:trigger Clean(s', c)} | c < v.capacity && c !in s'.order ensures Clean(s', c) {
      assert c != k ==> Clean(s, c);
    }
  }

  lemma LockedBits<T>(s: Slots<T>, v: Neighbors<T>, i: nat)
    requires Agree(s, v) && i < |v.order|
    ensures forall t: nat | t < MAX_NUM_TABLES :: t in s.locked[s.order[i]] <==> (t, v.order[i]) in v.locks
  {
    forall t: nat | t < MAX_NUM_TABLES ensures t in s.locked[s.order[i]] <==> (t, v.order[i]) in v.locks {
      assert Mirrors(s, v, i, t);
    }
  }

  lemma {:induction false} UsedBits<T>(s: Slots<T>, v: Neighbors<T>, i: nat, k: nat)
    requires Agree(s, v) && i < |v.order| && k <= MAX_NUM_TABLES
    ensures CountIn(s.used[s.order[i]], k) == Users(v, v.order[i], k)
    decreases k
  {
    if k > 0 {
      UsedBits(s, v, i, k - 1);
      assert Mirrors(s, v, i, k - 1);
    }
  }

  function Range(n: nat): (r: set<int>)
    ensures |r| == n && forall k :: k in r <==> 0 <= k < n
  {
    if n == 0 then {} else Range(n - 1) + {n - 1}
  }

  /** A duplicate-free list of slots is full exactly when every slot is on it. */
  lemma FullList(order: seq<int>, n: nat)
    requires Distinct(order) && forall i :: 0 <= i < |order| ==> 0 <= order[i] < n
    ensures |order| <= n
    ensures |order| == n <==> forall k :: 0 <= k < n ==> k in order
  {
    CountDistinct(order);
    assert ToSet(order) <= Range(n);
    SubsetSize(ToSet(order), Range(n));
    assert Range(n) <= ToSet(order) <==> forall k :: 0 <= k < n ==> k in order by {
      assert forall k :: k in Range(n) <==> 0 <= k < n;
      assert forall k :: k in ToSet(order) <==> k in order;
      if Range(n) <= ToSet(order) {
        forall k | 0 <= k < n ensures k in order {
          assert k in Range(n);
        }
      }
    }
  }

  lemma SubsetSize(a: set<int>, b: set<int>)
    requires a <= b
    ensures |a| <= |b| && (|a| == |b| <==> b <= a)
  {
    assert b == a + (b - a);
    assert b - a == {} <==> b <= a;
  }

  lemma {:induction false} CountDistinct(s: seq<int>)
    requires Distinct(s)
    ensures |ToSet(s)| == |s|
    decreases |s|
  {
    if s != [] {
      var n := |s| - 1;
      CountDistinct(s[..n]);
      assert ToSet(s) == ToSet(s[..n]) + {s[n]};
    }
  }
}
