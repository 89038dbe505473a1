/** Singly linked lists threaded through their elements. */
module List {
  import opened Seqs

  const NO_SLOT: int := -1

  /** What is left when `x` is taken out, if it is there at all. */
  function Without(s: seq<int>, x: int): (r: seq<int>) {
    if x in s then Remove(s, x) else s
  }

  /** The element that `next` must name at position `i`. */
  function At(s: seq<int>, i: int): int {
    if 0 <= i < |s| then s[i] else NO_SLOT
  }

  ghost predicate Linked(head: int, next: seq<int>, s: seq<int>) {
    && Distinct(s)
    && head == At(s, 0)
    && (forall i :: 0 <= i < |s| ==> Follows(next, s, i))
  }

  ghost predicate Follows(next: seq<int>, s: seq<int>, i: int)
    requires 0 <= i < |s|
  {
    0 <= s[i] < |next| && next[s[i]] == At(s, i + 1)
  }

  lemma RemoveLinked(head: int, next: seq<int>, s: seq<int>, k: nat, head': int, next': seq<int>)
    requires Linked(head, next, s) && k < |s| && |next'| == |next|
    requires head' == if k == 0 then At(s, 1) else head
    requires forall x :: 0 <= x < |next| ==>
      next'[x] == if x == s[k] then NO_SLOT else if k > 0 && x == s[k - 1] then At(s, k + 1) else next[x]
    ensures Linked(head', next', Without(s, s[k]))
  {
    IndexOfAt(s, k);
    var r := Remove(s, s[k]);
    assert forall i :: 0 <= i < |r| ==> r[i] == if i < k then s[i] else s[i + 1];
    forall i | 0 <= i < |r| ensures Follows(next', r, i) {
      assert Follows(next, s, if i < k then i else i + 1);
    }
    RemoveMembers(s, s[k]);
  }

  lemma AppendLinked(head: int, next: seq<int>, s: seq<int>, x: int, head': int, next': seq<int>)
    requires Linked(head, next, s) && x !in s && 0 <= x < |next| == |next'|
    requires head' == if s == [] then x else head
    requires forall y :: 0 <= y < |next| ==>
      next'[y] == if y == x then NO_SLOT else if s != [] && y == s[|s| - 1] then x else next[y]
    ensures Linked(head', next', s + [x])
  {
    forall i | 0 <= i < |s + [x]| ensures Follows(next', s + [x], i) {
      if i < |s| {
        assert Follows(next, s, i);
      }
    }
  }

  lemma WithoutMembers(s: seq<int>, x: int)
    requires Distinct(s)
    ensures Distinct(Without(s, x)) && x !in Without(s, x)
    ensures forall y :: y in Without(s, x) <==> y in s && y != x
  {
  }

  /** A list whose elements are the slots of one array. */
  class SlotList {
    var head: int
    const next: array<int>
    ghost var elems: seq<int>

    ghost predicate Valid()
      reads this, next
    {
      Linked(head, next[..], elems)
    }

    constructor (slots: nat)
      ensures Valid() && elems == [] && fresh(next) && next.Length == slots
    {
      head := NO_SLOT;
      next := new int[slots](_ => NO_SLOT);
      elems := [];
    }

    method Head() returns (x: int)
      requires Valid()
      ensures x == At(elems, 0)
    {
      x := head;
    }

    method ItemNext(x: int) returns (y: int)
      requires Valid() && (x == NO_SLOT || x in elems)
      ensures x == NO_SLOT ==> y == NO_SLOT
      ensures x != NO_SLOT ==> forall i :: 0 <= i < |elems| && elems[i] == x ==> y == At(elems, i + 1)
    {
      if x == NO_SLOT {
        return NO_SLOT;
      }
      assert Follows(next[..], elems, IndexOf(elems, x));
      y := next[x];
    }

    method Tail() returns (x: int)
      requires Valid()
      ensures x == At(elems, |elems| - 1)
    {
      assert |elems| > 0 ==> Follows(next[..], elems, 0);
      if head == NO_SLOT {
        return NO_SLOT;
      }
      x := head;
      ghost var i := 0;
      assert Follows(next[..], elems, 0);
      while next[x] != NO_SLOT
        invariant 0 <= i < |elems| && x == elems[i] && Follows(next[..], elems, i)
        decreases |elems| - i
      {
        assert i + 1 < |elems|;
        x := next[x];
        i := i + 1;
      }
      assert i + 1 < |elems| ==> Follows(next[..], elems, i + 1);
    }

    method Remove(item: int)
      requires Valid()
      modifies this, next
      ensures Valid() && elems == Without(old(elems), item)
    {
      var r, l := NO_SLOT, head;
      ghost var i := 0;
      while l != NO_SLOT
        invariant Valid() && elems == old(elems) && 0 <= i <= |elems|
        invariant l == At(elems, i) && r == At(elems, i - 1) && item !in elems[..i]
        decreases |elems| - i
      {
        assert i < |elems|;
        assert Follows(next[..], elems, i);
        if l == item {
          ghost var was := next[..];
          ghost var first := head;
          assert i > 0 ==> Follows(next[..], elems, i - 1);
          if r == NO_SLOT {
            head := next[l];
          } else {
            next[r] := next[l];
          }
          next[l] := NO_SLOT;
          RemoveLinked(first, was, elems, i, head, next[..]);
          elems := Without(elems, item);
          return;
        }
        r, l := l, next[l];
        i := i + 1;
        assert i < |elems| ==> Follows(next[..], elems, i);
      }
      assert i < |elems| ==> Follows(next[..], elems, i);
      assert elems[..i] == elems;
    }

    /** Appends, after taking the element out if it was already on the list. */
    method Add(item: int)
      requires Valid() && 0 <= item < next.Length
      modifies this, next
      ensures Valid() && elems == Without(old(elems), item) + [item]
    {
      WithoutMembers(elems, item);
      Remove(item);
      ghost var was := next[..];
      SetNull(item);
      var l := Tail();
      ghost var first := head;
      assert |elems| > 0 ==> Follows(next[..], elems, |elems| - 1);
      if l == NO_SLOT {
        head := item;
      } else {
        next[l] := item;
      }
      AppendLinked(first, was, elems, item, head, next[..]);
      elems := elems + [item];
    }

    method SetNull(item: int)
      requires Valid() && 0 <= item < next.Length && item !in elems
      modifies next
      ensures Valid() && next[..] == old(next[..])[item := NO_SLOT]
    {
      next[item] := NO_SLOT;
      forall i | 0 <= i < |elems| ensures Follows(next[..], elems, i) {
        assert Follows(old(next[..]), elems, i);
      }
    }
  }
}
