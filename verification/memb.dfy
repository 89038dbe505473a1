/** Fixed-size block allocation from one static array. */
module Memb {

  /** The first free block at or after `i`, or the number of blocks. */
  function FirstFree(used: seq<bool>, i: nat): (k: nat)
    requires i <= |used|
    ensures i <= k <= |used| && (k < |used| ==> !used[k])
    ensures forall j :: i <= j < k ==> used[j]
    decreases |used| - i
  {
    if i == |used| || !used[i] then i else FirstFree(used, i + 1)
  }

  class Memb {
    const used: array<bool>
    const mem: nat
    const size: nat

    ghost predicate Valid() {
      size > 0
    }

    constructor (num: nat, mem: nat, size: nat)
      requires size > 0
      ensures Valid() && fresh(used) && used.Length == num && used[..] == seq(num, _ => false)
    {
      used := new bool[num](_ => false);
      this.mem, this.size := mem, size;
    }

    /** Where block `i` starts. */
    function Address(i: nat): nat {
      mem + i * size
    }

    /** Hands out the first free block, or fails when none is free. */
    method Alloc() returns (ok: bool, i: nat)
      requires Valid()
      modifies used
      ensures i == FirstFree(old(used[..]), 0)
      ensures ok == (i < used.Length)
      ensures used[..] == if ok then old(used[..])[i := true] else old(used[..])
    {
      i := 0;
      while i < used.Length
        invariant 0 <= i <= used.Length && FirstFree(used[..], i) == FirstFree(used[..], 0)
        invariant used[..] == old(used[..])
      {
        if !used[i] {
          used[i] := true;
          return true, i;
        }
        i := i + 1;
      }
      ok := false;
    }

    /** Frees the block that starts at `ptr`; a pointer that is no block, or is free
        already, is refused and changes nothing. */
    method Free(ptr: nat) returns (r: int)
      requires Valid()
      modifies used
      ensures r == 0 || r == -1
      ensures r == 0 <==> exists i :: 0 <= i < used.Length && ptr == Address(i) && old(used[i])
      ensures r == -1 ==> used[..] == old(used[..])
      ensures r == 0 ==> exists i :: 0 <= i < used.Length && ptr == Address(i) && used[..] == old(used[..])[i := false]
    {
      var ptr2 := mem;
      var i := 0;
      while i < used.Length
        invariant 0 <= i <= used.Length && ptr2 == Address(i) && used[..] == old(used[..])
        invariant forall j :: 0 <= j < i ==> ptr != Address(j)
      {
        if ptr2 == ptr {
          OneBlock(ptr, i);
          if !used[i] {
            return -1;
          }
          used[i] := false;
          return 0;
        }
        ptr2 := ptr2 + size;
        i := i + 1;
      }
      r := -1;
    }

    /** Blocks do not share an address. */
    lemma OneBlock(ptr: nat, i: nat)
      requires Valid() && ptr == Address(i)
      ensures forall j: nat :: ptr == Address(j) ==> j == i
    {
    }

    function CountFree(s: seq<bool>): (n: nat)
      ensures n <= |s|
      ensures n == 0 <==> forall i :: 0 <= i < |s| ==> s[i]
    {
      if s == [] then 0 else CountFree(s[..|s| - 1]) + if s[|s| - 1] then 0 else 1
    }

    method NumFree() returns (n: nat)
      ensures n == CountFree(used[..])
    {
      n := 0;
      var i := 0;
      while i < used.Length
        invariant 0 <= i <= used.Length && n == CountFree(used[..i])
      {
        assert used[..i + 1][..i] == used[..i];
        if !used[i] {
          n := n + 1;
        }
        i := i + 1;
      }
      assert used[..used.Length] == used[..];
    }

    /** Allocating takes exactly one block from the free ones. */
    lemma {:induction false} AllocTakesOne(s: seq<bool>, i: nat)
      requires i < |s| && !s[i]
      ensures CountFree(s[i := true]) == CountFree(s) - 1
      decreases |s|
    {
      var n := |s| - 1;
      if i == n {
        assert s[i := true][..n] == s[..n];
      } else {
        assert s[i := true][..n] == s[..n][i := true];
        AllocTakesOne(s[..n], i);
      }
    }
  }
}
