/** The neighbour tables in place: a slot pool, a list of keys threaded through it, two bitmaps
    and one item array per table. Slot numbers stand for key and item pointers, -1 for NULL. */
module NbrTable {
  import opened Bitmaps
  import opened List
  import opened NbrModel
  import opened NbrSlots
  import opened Seqs
  import M = Memb

  /** A link-layer address argument, which may be NULL. */
  datatype Lladdr = NoAddr | Given(addr: Addr) {
    function Resolve(): Addr {
      if NoAddr? then LINKADDR_NULL else addr
    }
  }

  function GetBit(b: Bitmap, table: int): bool
    requires -1 <= table < MAX_NUM_TABLES
  {
    table != -1 && Bit(b, table)
  }

  /** The callbacks that an eviction of the neighbour `gone` makes, table by table. */
  function Notified<T>(v: Neighbors<T>, callbacks: seq<bool>, gone: Addr, slot: int, k: nat): seq<(nat, int)>
    requires |callbacks| == MAX_NUM_TABLES && k <= MAX_NUM_TABLES
  {
    if k == 0 then []
    else
      Notified(v, callbacks, gone, slot, k - 1)
      + if callbacks[k - 1] && (k - 1, gone) in v.entries then [(k - 1, slot)] else []
  }

  /** Exactly the tables that have a callback and an item for the neighbour are told, each
      once and in table order, and all are told its slot. */
  lemma {:induction false} NotifiedExactly<T>(v: Neighbors<T>, callbacks: seq<bool>, gone: Addr, slot: int, k: nat)
    requires |callbacks| == MAX_NUM_TABLES && k <= MAX_NUM_TABLES
    ensures var n := Notified(v, callbacks, gone, slot, k);
      && (forall t: nat, s: int :: (t, s) in n <==> t < k && s == slot && callbacks[t] && (t, gone) in v.entries)
      && (forall i, j :: 0 <= i < j < |n| ==> n[i].0 < n[j].0)
    decreases k
  {
    if k > 0 {
      NotifiedExactly(v, callbacks, gone, slot, k - 1);
      var m, n := Notified(v, callbacks, gone, slot, k - 1), Notified(v, callbacks, gone, slot, k);
      forall i, j | 0 <= i < j < |n| ensures n[i].0 < n[j].0 {
        var (t, s) := n[i];
        assert i < |m| && n[i] == m[i] && (t, s) in m;
        assert if j < |m| then n[j] == m[j] else n[j] == (k - 1, slot);
      }
    }
  }

  /** The bitmap with one table's bit set or cleared. */
  method Changed(b: Bitmap, table: nat, on: bool) returns (r: Bitmap)
    requires table < MAX_NUM_TABLES
    ensures Tables(r) == if on then Tables(b) + {table} else Tables(b) - {table}
  {
    if on {
      r := b | Mask(table);
      SetBit(b, table);
    } else {
      r := b & !Mask(table);
      ClearBit(b, table);
    }
  }

  function TableSets(bits: seq<Bitmap>): (s: seq<set<nat>>)
    ensures |s| == |bits| && forall k :: 0 <= k < |s| ==> s[k] == Tables(bits[k])
  {
    seq(|bits|, k requires 0 <= k < |bits| => Tables(bits[k]))
  }

  /** Room for one more: what an allocation leaves before the new neighbour is listed. */
  function MadeRoom<T>(v: Neighbors<T>): (bool, Neighbors<T>) {
    if |v.order| < v.capacity then (true, v)
    else
      var b := Victim(v, |v.order|);
      if b == -1 then (false, v) else (true, Evict(v, v.order[b]))
  }

  function EvictCalls<T>(v: Neighbors<T>, callbacks: seq<bool>, slots: seq<int>): seq<(nat, int)>
    requires |callbacks| == MAX_NUM_TABLES && |slots| == |v.order|
  {
    var b := Victim(v, |v.order|);
    if b == -1 then [] else Notified(v, callbacks, v.order[b], slots[b], MAX_NUM_TABLES)
  }

  /** The callbacks that making room calls. */
  function RoomCalls<T>(v: Neighbors<T>, callbacks: seq<bool>, slots: seq<int>): seq<(nat, int)>
    requires |callbacks| == MAX_NUM_TABLES && |slots| == |v.order|
  {
    if |v.order| < v.capacity then [] else EvictCalls(v, callbacks, slots)
  }

  ghost predicate Distinct4(a: object, b: object, c: object, d: object) {
    a != b && a != c && a != d && b != c && b != d && c != d
  }

  class NbrTables<T> {
    const keys: SlotList
    const memory: M.Memb
    const lladdr: array<Addr>
    const usedMap: array<Bitmap>
    const lockedMap: array<Bitmap>
    /** Item memory: one row per table, one item per neighbour. */
    var data: seq<seq<T>>
    const zero: T
    const callbacks: seq<bool>
    var calls: seq<(nat, int)>
    ghost var view: Neighbors<T>

    /** All tables registered, with or without a callback, and no neighbour yet. */
    constructor (neighbors: nat, zero: T, callbacks: seq<bool>)
      requires |callbacks| == MAX_NUM_TABLES
      ensures Valid() && view == Neighbors(neighbors, [], map[], {}) && calls == []
      ensures fresh(keys) && fresh(keys.next) && fresh(memory.used) && fresh(lladdr) && fresh(usedMap)
        && fresh(lockedMap)
      ensures this.zero == zero && this.callbacks == callbacks
    {
      keys := new SlotList(neighbors);
      memory := new M.Memb(neighbors, 0, 1);
      lladdr := new Addr[neighbors](_ => LINKADDR_NULL);
      usedMap := new Bitmap[neighbors](_ => 0);
      lockedMap := new Bitmap[neighbors](_ => 0);
      data := seq(MAX_NUM_TABLES, _ => seq(neighbors, _ => zero));
      this.zero, this.callbacks, calls := zero, callbacks, [];
      view := Neighbors(neighbors, [], map[], {});
      new;
      NoBits(0);
    }

    ghost function Repr(): set<object> {
      {this, keys, keys.next, memory, memory.used, lladdr, usedMap, lockedMap}
    }

    ghost function Snapshot(): Slots<T>
      reads Repr()
    {
      Slots(keys.elems, lladdr[..],
        TableSets(usedMap[..]), TableSets(lockedMap[..]), data)
    }

    ghost predicate Apart() {
      && usedMap != lockedMap
      && Distinct4(keys.next, memory.used, lladdr, usedMap)
      && Distinct4(keys.next, memory.used, lladdr, lockedMap)
      && memory.Valid()
      && |callbacks| == MAX_NUM_TABLES
      && lladdr.Length == usedMap.Length == lockedMap.Length == keys.next.Length == memory.used.Length
    }

    /** Everything except which slots the pool has handed out. */
    ghost predicate Consistent()
      reads Repr()
    {
      && Apart()
      && keys.Valid()
      && view.capacity == lladdr.Length
      && Agree(Snapshot(), view)
    }

    ghost predicate Pooled(on: seq<int>)
      reads memory.used
    {
      forall k :: 0 <= k < memory.used.Length ==> (memory.used[k] <==> k in on)
    }

    ghost predicate Valid()
      reads Repr()
    {
      Consistent() && Pooled(keys.elems)
    }

    /** The slot of a neighbour, or -1. */
    ghost function SlotOf(a: Addr): int
      requires Consistent()
      reads Repr()
    {
      if a in view.order then keys.elems[IndexOf(view.order, a)] else NO_SLOT
    }

    lemma SlotsAndAddresses()
      requires Consistent()
      ensures |keys.elems| == |view.order| && Distinct(keys.elems) && Distinct(view.order)
      ensures forall i :: 0 <= i < |view.order| ==>
        0 <= keys.elems[i] < lladdr.Length && lladdr[keys.elems[i]] == view.order[i]
    {
    }

    method IndexFromLladdr(l: Lladdr) returns (index: int)
      requires Consistent()
      ensures index == SlotOf(l.Resolve())
    {
      SlotsAndAddresses();
      var a := l.Resolve();
      var key := keys.Head();
      ghost var i := 0;
      while key != NO_SLOT
        invariant 0 <= i <= |keys.elems| && key == At(keys.elems, i) && a !in view.order[..i]
        decreases |keys.elems| - i
      {
        assert i < |keys.elems|;
        if a == lladdr[key] {
          IndexOfAt(view.order, i);
          return key;
        }
        key := keys.ItemNext(key);
        i := i + 1;
      }
      assert view.order[..i] == view.order;
      index := NO_SLOT;
    }

    lemma BitsMirror(i: nat, table: int)
      requires Consistent() && i < |view.order| && 0 <= table < MAX_NUM_TABLES
      ensures |keys.elems| == |view.order| && 0 <= keys.elems[i] < usedMap.Length
      ensures Bit(usedMap[keys.elems[i]], table) <==> (table, view.order[i]) in view.entries
      ensures (table, view.order[i]) in view.entries ==>
        |data| == MAX_NUM_TABLES && keys.elems[i] < |data[table]|
        && data[table][keys.elems[i]] == view.entries[(table, view.order[i])]
    {
      assert Mirrors(Snapshot(), view, i, table);
    }

    /** The position in the view of a slot that is on the list. */
    lemma PositionOf(k: int) returns (i: nat)
      requires Consistent() && k in keys.elems
      ensures i < |view.order| == |keys.elems| && keys.elems[i] == k && 0 <= k < lladdr.Length
        && lladdr[k] == view.order[i]
      ensures IndexOf(keys.elems, k) == i && IndexOf(view.order, view.order[i]) == i
    {
      SlotsAndAddresses();
      i := IndexOf(keys.elems, k);
      IndexOfAt(view.order, i);
    }

    /** Finds a table's item for an address, and with it that item's contents. */
    method GetFromLladdr(table: int, l: Lladdr) returns (item: int)
      requires Consistent() && -1 <= table < MAX_NUM_TABLES
      ensures item != NO_SLOT <==> table != -1 && (table, l.Resolve()) in view.entries
      ensures item != NO_SLOT ==>
        && item == SlotOf(l.Resolve())
        && |data| == MAX_NUM_TABLES && 0 <= item < |data[table]|
        && data[table][item] == view.entries[(table, l.Resolve())]
        && item in keys.elems && item < lladdr.Length && lladdr[item] == l.Resolve()
    {
      item := IndexFromLladdr(l);
      if table == -1 || item == -1 {
        return NO_SLOT;
      }
      SlotsAndAddresses();
      BitsMirror(IndexOf(view.order, l.Resolve()), table);
      if !GetBit(usedMap[item], table) {
        item := NO_SLOT;
      }
    }

    method GetLladdr(item: int) returns (l: Lladdr)
      requires Consistent() && (item == NO_SLOT || item in keys.elems)
      ensures l == if item == NO_SLOT then NoAddr else Given(view.order[IndexOf(keys.elems, item)])
    {
      if item == NO_SLOT {
        return NoAddr;
      }
      var i := PositionOf(item);
      l := Given(lladdr[item]);
    }

    /** The slot that iteration reaches from position `i`. */
    ghost function Reached(table: nat, i: nat): int
      requires Consistent() && i <= |view.order|
      reads Repr()
    {
      At(keys.elems, FirstUse(view, table, i))
    }

    /** Follows the list from position `i` to a neighbour that the table uses. */
    method Skip(table: nat, start: int, ghost i: nat) returns (item: int)
      requires Consistent() && table < MAX_NUM_TABLES && i <= |view.order| && start == At(keys.elems, i)
      ensures item == Reached(table, i)
    {
      SlotsAndAddresses();
      item := start;
      ghost var j := i;
      while item != NO_SLOT
        invariant i <= j <= |keys.elems| && item == At(keys.elems, j)
        invariant FirstUse(view, table, j) == FirstUse(view, table, i)
        decreases |keys.elems| - j
      {
        assert j < |keys.elems|;
        BitsMirror(j, table);
        if GetBit(usedMap[item], table) {
          return;
        }
        item := keys.ItemNext(item);
        j := j + 1;
      }
      assert j == |keys.elems|;
    }

    method Next(table: int, item: int) returns (next: int)
      requires Consistent() && -1 <= table < MAX_NUM_TABLES && (item == NO_SLOT || item in keys.elems)
      ensures next == if table == -1 || item == NO_SLOT then NO_SLOT else Reached(table, IndexOf(keys.elems, item) + 1)
    {
      SlotsAndAddresses();
      if table == -1 || item == NO_SLOT {
        return NO_SLOT;
      }
      ghost var i := PositionOf(item);
      next := keys.ItemNext(item);
      next := Skip(table, next, i + 1);
    }

    method Head(table: int) returns (item: int)
      requires Consistent() && -1 <= table < MAX_NUM_TABLES
      ensures item == if table == -1 then NO_SLOT else Reached(table, 0)
    {
      SlotsAndAddresses();
      if table == -1 {
        return NO_SLOT;
      }
      item := keys.Head();
      if item == NO_SLOT {
        return NO_SLOT;
      }
      BitsMirror(0, table);
      IndexOfAt(keys.elems, 0);
      if !GetBit(usedMap[item], table) {
        item := Next(table, item);
      }
    }

    // ---- Changing one table ----

    method Remove(table: int, item: int) returns (done: bool)
      requires Valid() && -1 <= table < MAX_NUM_TABLES && (item == NO_SLOT || item in keys.elems)
      modifies this`view, usedMap, lockedMap
      ensures Valid() && done == (table != -1 && item != NO_SLOT)
      ensures view == if done then Drop(old(view), table, lladdr[item]) else old(view)
    {
      done := table != -1 && item != NO_SLOT;
      if done {
        ghost var i := PositionOf(item);
        ghost var s := Snapshot();
        DropAgrees(s, view, i, table);
        var used := Changed(usedMap[item], table, false);
        var locked := Changed(lockedMap[item], table, false);
        usedMap[item], lockedMap[item] := used, locked;
        view := Drop(view, table, lladdr[item]);
        assert Snapshot() == s.(used := s.used[item := s.used[item] - {table}],
                                locked := s.locked[item := s.locked[item] - {table}]);
      }
    }

    method Lock(table: int, item: int) returns (done: bool)
      requires Valid() && -1 <= table < MAX_NUM_TABLES && (item == NO_SLOT || item in keys.elems)
      modifies this`view, lockedMap
      ensures Valid() && done == (table != -1 && item != NO_SLOT)
      ensures view == if done then SetLock(old(view), table, lladdr[item], true) else old(view)
    {
      done := table != -1 && item != NO_SLOT;
      if done {
        SetLocked(table, item, true);
      }
    }

    method Unlock(table: int, item: int) returns (done: bool)
      requires Valid() && -1 <= table < MAX_NUM_TABLES && (item == NO_SLOT || item in keys.elems)
      modifies this`view, lockedMap
      ensures Valid() && done == (table != -1 && item != NO_SLOT)
      ensures view == if done then SetLock(old(view), table, lladdr[item], false) else old(view)
    {
      done := table != -1 && item != NO_SLOT;
      if done {
        SetLocked(table, item, false);
      }
    }

    method SetLocked(table: nat, item: int, on: bool)
      requires Valid() && table < MAX_NUM_TABLES && item in keys.elems
      modifies this`view, lockedMap
      ensures Valid() && 0 <= item < lladdr.Length && view == SetLock(old(view), table, lladdr[item], on)
    {
      ghost var i := PositionOf(item);
      ghost var s := Snapshot();
      LockAgrees(s, view, i, table, on);
      var bits := Changed(lockedMap[item], table, on);
      lockedMap[item] := bits;
      view := SetLock(view, table, lladdr[item], on);
      assert Snapshot().locked == s.locked[item := Tables(bits)];
    }

    /** A caller reads through an item pointer that it got from its table. */
    method Load(table: nat, item: int) returns (x: T)
      requires Consistent() && table < MAX_NUM_TABLES && item in keys.elems
      requires 0 <= item < lladdr.Length && (table, lladdr[item]) in view.entries
      ensures x == view.entries[(table, lladdr[item])]
    {
      ghost var i := PositionOf(item);
      BitsMirror(i, table);
      x := data[table][item];
    }

    /** A caller writes through an item pointer that it got from its table. */
    method Store(table: nat, item: int, x: T)
      requires Valid() && table < MAX_NUM_TABLES && item in keys.elems
      requires 0 <= item < lladdr.Length && (table, lladdr[item]) in view.entries
      modifies this`view, this`data
      ensures Valid() && view == Put(old(view), table, lladdr[item], x)
    {
      ghost var i := PositionOf(item);
      ghost var s := Snapshot();
      StoreAgrees(s, view, i, table, x);
      data := data[table := data[table][item := x]];
      view := Put(view, table, lladdr[item], x);
      assert Snapshot() == s.(data := s.data[table := s.data[table][item := x]]);
    }

    // ---- Making room ----

    method CountUsers(bits: Bitmap) returns (count: nat)
      ensures count == CountIn(Tables(bits), MAX_NUM_TABLES)
    {
      count := 0;
      var used := bits;
      while used != 0
        invariant count + PopCount(used) == PopCount(bits)
        decreases used
      {
        if used & 1 == 1 {
          count := count + 1;
        }
        used := used >> 1;
      }
      PopCounts(bits);
    }

    /** What the eviction loop looks at, neighbour by neighbour. */
    lemma Inspect(i: nat)
      requires Consistent() && i < |view.order|
      ensures |keys.elems| == |view.order| && 0 <= keys.elems[i] < lladdr.Length
      ensures lockedMap[keys.elems[i]] == 0 <==> !LockedAt(view, i)
      ensures CountIn(Tables(usedMap[keys.elems[i]]), MAX_NUM_TABLES) == UsersAt(view, i)
    {
      var s := Snapshot();
      var k := keys.elems[i];
      assert s.locked[k] == Tables(lockedMap[k]) && s.used[k] == Tables(usedMap[k]);
      LockedBits(s, view, i);
      NoBits(lockedMap[k]);
      UsedBits(s, view, i, MAX_NUM_TABLES);
      assert Tables(lockedMap[k]) == {} <==> !LockedAt(view, i);
    }

    /** The search has found the victim among the first `i` neighbours. */
    ghost predicate Best(key: int, leastUsed: nat, i: nat)
      reads this, keys
    {
      && i <= |view.order| && key == At(keys.elems, Victim(view, i)) && (key == NO_SLOT <==> Victim(view, i) == -1)
      && (key != NO_SLOT ==> leastUsed == UsersAt(view, Victim(view, i)))
    }

    /** One round of the search: neighbour `i` against the best of those before it. */
    method Consider(k: int, key: int, leastUsed: nat, ghost i: nat) returns (key': int, leastUsed': nat)
      requires Consistent() && i < |view.order| == |keys.elems| && k == keys.elems[i] && 0 <= k < lladdr.Length
      requires Best(key, leastUsed, i)
      ensures Best(key', leastUsed', i + 1)
    {
      key', leastUsed' := key, leastUsed;
      Inspect(i);
      if lockedMap[k] == 0 {
        var count := CountUsers(usedMap[k]);
        if key == NO_SLOT || count < leastUsed {
          key', leastUsed' := k, count;
        }
      }
    }

    /** Nobody beats a neighbour that no table uses, except one before it. */
    lemma UnusedWins(n: nat)
      requires Consistent() && n <= |view.order|
      requires Victim(view, n) != -1 && UsersAt(view, Victim(view, n)) == 0
      ensures Victim(view, |view.order|) == Victim(view, n)
    {
    }

    method LeastUsedKey() returns (key: int)
      requires Consistent()
      ensures key == At(keys.elems, Victim(view, |view.order|))
        && (key == NO_SLOT <==> Victim(view, |view.order|) == -1)
    {
      SlotsAndAddresses();
      key := NO_SLOT;
      var leastUsed := 0;
      var k := keys.Head();
      ghost var i := 0;
      while k != NO_SLOT
        invariant 0 <= i <= |keys.elems| && k == At(keys.elems, i)
        invariant Best(key, leastUsed, i)
        decreases |keys.elems| - i
      {
        assert i < |keys.elems|;
        key, leastUsed := Consider(k, key, leastUsed, i);
        i := i + 1;
        if key != NO_SLOT && leastUsed == 0 {
          UnusedWins(i);
          return;
        }
        k := keys.ItemNext(k);
      }
      assert i == |view.order|;
    }

    /** Tells the tables that use the neighbour, then takes it off the list. */
    method RemoveKey(key: int)
      requires Consistent() && key in keys.elems && 0 <= key < lockedMap.Length && lockedMap[key] == 0
      modifies this`view, this`calls, keys, keys.next, usedMap
      ensures Consistent() && keys.elems == Without(old(keys.elems), key)
      ensures view == Evict(old(view), lladdr[key])
      ensures calls == old(calls) + Notified(old(view), callbacks, lladdr[key], key, MAX_NUM_TABLES)
    {
      ghost var i := PositionOf(key);
      NotifyTables(key);
      ghost var s := Snapshot();
      NoBits(lockedMap[key]);
      EvictAgrees(s, view, i);
      usedMap[key] := 0;
      keys.Remove(key);
      view := Evict(view, lladdr[key]);
      NoBits(usedMap[key]);
      assert Snapshot() == s.(order := Without(s.order, key), used := s.used[key := {}]);
    }

    method NotifyTables(key: int)
      requires Consistent() && key in keys.elems
      modifies this`calls
      ensures Consistent()
      ensures calls == old(calls) + Notified(view, callbacks, view.order[IndexOf(keys.elems, key)], key, MAX_NUM_TABLES)
    {
      ghost var i := PositionOf(key);
      var t := 0;
      while t < MAX_NUM_TABLES
        invariant 0 <= t <= MAX_NUM_TABLES && Consistent()
        invariant calls == old(calls) + Notified(view, callbacks, view.order[i], key, t)
      {
        BitsMirror(i, t);
        if callbacks[t] && GetBit(usedMap[key], t) {
          calls := calls + [(t, key)];
        }
        t := t + 1;
      }
    }

    /** Evicts the least used unlocked neighbour, if there is one. */
    method EvictLeastUsed() returns (key: int)
      requires Valid()
      modifies this`view, this`calls, keys, keys.next, usedMap
      ensures Consistent()
      ensures key == NO_SLOT <==> Victim(old(view), |old(view).order|) == -1
      ensures key == NO_SLOT ==> view == old(view) && calls == old(calls) && keys.elems == old(keys.elems)
      ensures key != NO_SLOT ==>
        && key == old(keys.elems)[Victim(old(view), |old(view).order|)]
        && view == Evict(old(view), old(view).order[Victim(old(view), |old(view).order|)])
        && keys.elems == Without(old(keys.elems), key)
      ensures calls == old(calls) + EvictCalls(old(view), callbacks, old(keys.elems))
    {
      SlotsAndAddresses();
      key := LeastUsedKey();
      if key != NO_SLOT {
        ghost var b := Victim(view, |view.order|);
        assert key == keys.elems[b] && lladdr[key] == view.order[b];
        Inspect(b);
        RemoveKey(key);
      }
    }

    /** A free slot, or the slot of the evicted neighbour, or -1. */
    method Allocate() returns (key: int)
      requires Valid()
      modifies this`view, this`calls, keys, keys.next, usedMap, memory.used
      ensures Consistent() && calls == old(calls) + RoomCalls(old(view), callbacks, old(keys.elems))
      ensures (key != NO_SLOT, view) == MadeRoom(old(view))
      ensures key == NO_SLOT ==> Pooled(keys.elems)
      ensures key != NO_SLOT ==> 0 <= key < lladdr.Length && key !in keys.elems && Pooled(keys.elems + [key])
    {
      SlotsAndAddresses();
      FullList(keys.elems, lladdr.Length);
      ghost var before := keys.elems;
      var ok, k := memory.Alloc();
      if ok {
        return k;
      }
      key := EvictLeastUsed();
      if key != NO_SLOT {
        RoomAgain(before, key);
      }
    }

    lemma RoomAgain(before: seq<int>, key: int)
      requires Pooled(before) && key in before && Distinct(before) && keys.elems == Without(before, key)
      ensures key !in keys.elems && Pooled(keys.elems + [key])
    {
    }

    method EnlistKey(key: int, a: Addr)
      requires Consistent() && 0 <= key < lladdr.Length && key !in keys.elems && Pooled(keys.elems + [key])
      requires a !in view.order && |view.order| < view.capacity
      modifies this`view, keys, keys.next, lladdr
      ensures Valid() && view == Enlist(old(view), a) && key in keys.elems && lladdr[key] == a
    {
      ghost var s := Snapshot();
      EnlistAgrees(s, view, key, a);
      keys.Add(key);
      lladdr[key] := a;
      view := Enlist(view, a);
      assert Snapshot() == s.(order := s.order + [key], addr := s.addr[key := a]);
    }

    /** Clears the item and marks it used. */
    method InitItem(table: nat, item: int)
      requires Valid() && table < MAX_NUM_TABLES && item in keys.elems
      modifies this`view, this`data, usedMap
      ensures Valid() && 0 <= item < lladdr.Length && view == Put(old(view), table, lladdr[item], zero)
    {
      ghost var i := PositionOf(item);
      ghost var s := Snapshot();
      PutAgrees(s, view, i, table, zero);
      data := data[table := data[table][item := zero]];
      var used := Changed(usedMap[item], table, true);
      usedMap[item] := used;
      view := Put(view, table, lladdr[item], zero);
      assert Snapshot() == s.(used := s.used[item := s.used[item] + {table}],
                              data := s.data[table := s.data[table][item := zero]]);
    }

    /** The neighbour's slot, after listing the neighbour if it is new. */
    method FindOrEnlist(l: Lladdr) returns (item: int)
      requires Valid()
      modifies this`view, this`calls, keys, keys.next, lladdr, usedMap, memory.used
      ensures Valid() && (item != NO_SLOT, view) == NbrModel.Allocate(old(view), l.Resolve())
      ensures item != NO_SLOT ==> item in keys.elems && 0 <= item < lladdr.Length && lladdr[item] == l.Resolve()
      ensures calls == old(calls) + ListingCalls(old(view), l.Resolve(), callbacks, old(keys.elems))
    {
      var a := l.Resolve();
      SlotsAndAddresses();
      item := IndexFromLladdr(l);
      if item == -1 {
        item := Allocate();
        if item != NO_SLOT {
          RoomFor(old(view), a);
          EnlistKey(item, a);
        }
      }
    }

    method AddLladdr(table: int, l: Lladdr) returns (item: int)
      requires Valid() && -1 <= table < MAX_NUM_TABLES
      modifies this, keys, keys.next, lladdr, usedMap, memory.used
      ensures Valid()
      ensures table == -1 ==> item == NO_SLOT && view == old(view) && calls == old(calls)
      ensures table != -1 ==> (item != NO_SLOT, view) == NbrModel.Add(old(view), table, l.Resolve(), zero)
      ensures item != NO_SLOT ==> item in keys.elems && 0 <= item < lladdr.Length && lladdr[item] == l.Resolve()
      ensures table != -1 ==> calls == old(calls) + ListingCalls(old(view), l.Resolve(), callbacks, old(keys.elems))
    {
      if table == -1 {
        return NO_SLOT;
      }
      SlotsAndAddresses();
      item := FindOrEnlist(l);
      if item != NO_SLOT {
        InitItem(table, item);
      }
    }
  }

  function ListingCalls<T>(v: Neighbors<T>, a: Addr, callbacks: seq<bool>, slots: seq<int>): seq<(nat, int)>
    requires |callbacks| == MAX_NUM_TABLES && |slots| == |v.order|
  {
    if a in v.order then [] else RoomCalls(v, callbacks, slots)
  }

  /** Listing a neighbour calls back exactly if it is new, the list is full and somebody can
      go; and then the tables that have an item for the victim. */
  lemma ListingExactly<T>(v: Neighbors<T>, a: Addr, callbacks: seq<bool>, slots: seq<int>, t: nat, s: int)
    requires |callbacks| == MAX_NUM_TABLES && |slots| == |v.order|
    ensures var b := Victim(v, |v.order|);
      (t, s) in ListingCalls(v, a, callbacks, slots) <==>
        && a !in v.order && |v.order| >= v.capacity && b != -1
        && t < MAX_NUM_TABLES && s == slots[b] && callbacks[t] && (t, v.order[b]) in v.entries
  {
    var b := Victim(v, |v.order|);
    if b != -1 { NotifiedExactly(v, callbacks, v.order[b], slots[b], MAX_NUM_TABLES); }
  }

  lemma RoomFor<T>(v: Neighbors<T>, a: Addr)
    requires WellFormed(v) && a !in v.order && MadeRoom(v).0
    ensures a !in MadeRoom(v).1.order && |MadeRoom(v).1.order| < v.capacity
  {
  }
}
