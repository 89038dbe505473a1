/** What freeing and defragmenting are for: neighbouring free chunks become one, and memory
    that was given back can be handed out again. */
module HeapSpace {
  import opened HeapModel
  import opened Seqs

  // ---- Lists that lose members ----

  /** `t` is `s` without some members other than `x`, as far as the place of `x` goes. */
  ghost predicate Thinned(s: seq<nat>, t: seq<nat>, x: nat) {
    && Distinct(s) && Distinct(t) && x in s && x in t
    && (forall y :: y in t ==> y in s)
    && IndexOf(t, x) <= IndexOf(s, x) && |t| - IndexOf(t, x) <= |s| - IndexOf(s, x)
    && (forall y :: y in t[..IndexOf(t, x)] ==> y in s[..IndexOf(s, x)])
  }

  lemma ThinnedRemove(s: seq<nat>, n: nat, x: nat)
    requires Distinct(s) && n in s && x in s && x != n
    ensures Thinned(s, Remove(s, n), x)
  {
    RemoveMembers(s, n);
    var i, k, t := IndexOf(s, n), IndexOf(s, x), Remove(s, n);
    var k' := if k < i then k else k - 1;
    assert t[k'] == x;
    IndexOfAt(t, k');
    forall y | y in t[..k'] ensures y in s[..k] {
      var j :| 0 <= j < k' && t[j] == y;
      assert y == s[if j < i then j else j + 1];
    }
  }

  lemma ThinnedSelf(s: seq<nat>, x: nat)
    requires Distinct(s) && x in s
    ensures Thinned(s, s, x)
  {
  }

  // ---- One chunk coalesced ----

  /** A chunk stays where it is on the list or moves to the front, or it has been absorbed
      by `o`, which is larger then. */
  lemma CoalesceThins(h: Heap, o: nat, x: nat)
    requires h.Valid() && o in h.free && x in h.free
    ensures var g := h.Coalesce(o);
      && g.Valid() && Thinned(h.free, g.free, o)
      && (x in g.free ==> Thinned(h.free, g.free, x) && g.size[x] >= h.size[x])
      && (x !in g.free ==> g.size[o] >= h.size[x])
    decreases |h.free|
  {
    h.CoalesceValid(o);
    ThinnedSelf(h.free, o);
    ThinnedSelf(h.free, x);
    if h.CanMerge(o) {
      var n := h.End(o);
      h.NonNull(o);
      h.MergeValid(o);
      RemoveMembers(h.free, n);
      ThinnedRemove(h.free, n, o);
      if x == n {
        h.Merge(o, n).CoalesceValid(o);
        CoalesceThins(h.Merge(o, n), o, o);
      } else {
        ThinnedRemove(h.free, n, x);
        CoalesceThins(h.Merge(o, n), o, x);
      }
    }
  }

  /** Chunks that cannot absorb anything stay so, and `o` becomes one of them. */
  lemma CoalesceSettles(h: Heap, o: nat, x: nat)
    requires h.Valid() && o in h.free && x in h.free && x in h.Coalesce(o).free && (x == o || !h.CanMerge(x))
    ensures x in h.Coalesce(o).size && !h.Coalesce(o).CanMerge(x)
    decreases |h.free|
  {
    h.CoalesceValid(o);
    if x != o && h.CanMerge(o) {
      var n := h.End(o);
      h.NonNull(o);
      h.MergeValid(o);
      RemoveMembers(h.free, n);
      CoalesceThins(h.Merge(o, n), o, o);
      CoalesceSettles(h.Merge(o, n), o, x);
    }
  }

  // ---- The whole walk ----

  /** The first `k` members of the free list cannot absorb anything. */
  ghost predicate SettledTo(h: Heap, k: nat)
    requires h.Valid()
  {
    forall c :: c in h.free && IndexOf(h.free, c) < k ==> !h.CanMerge(c)
  }

  /** The walk stands on member number `k` of the list, or past its end. */
  predicate StandsOn(h: Heap, cur: nat, k: nat)
    requires h.Valid()
  {
    k <= |h.free| && (if k < |h.free| then cur == h.free[k] else cur == NULL)
  }

  lemma NextStands(h: Heap, cur: nat)
    requires h.Valid() && cur in h.free
    ensures StandsOn(h, After(h.free, cur, NULL), IndexOf(h.free, cur) + 1)
  {
  }

  lemma StepSettles(h: Heap, cur: nat, k: nat)
    requires h.Valid() && StandsOn(h, cur, k) && k < |h.free| && SettledTo(h, k)
    ensures h.Coalesce(cur).Valid() && cur in h.Coalesce(cur).free
    ensures SettledTo(h.Coalesce(cur), IndexOf(h.Coalesce(cur).free, cur) + 1)
    ensures IndexOf(h.Coalesce(cur).free, cur) <= k
    ensures |h.Coalesce(cur).free| - IndexOf(h.Coalesce(cur).free, cur) <= |h.free| - k
  {
    var g := h.Coalesce(cur);
    IndexOfAt(h.free, k);
    CoalesceThins(h, cur, cur);
    forall c | c in g.free && IndexOf(g.free, c) < IndexOf(g.free, cur) + 1 ensures !g.CanMerge(c) {
      if c != cur {
        assert IndexOf(g.free, c) < IndexOf(g.free, cur);
        assert c in g.free[..IndexOf(g.free, cur)];
        var j :| 0 <= j < k && h.free[j] == c;
        IndexOfAt(h.free, j);
      }
      CoalesceSettles(h, cur, c);
    }
  }

  lemma {:induction false} WalkSettles(h: Heap, cur: nat, budget: nat, k: nat)
    requires h.Valid() && StandsOn(h, cur, k) && SettledTo(h, k) && budget >= |h.free| - k
    ensures h.DefragFrom(cur, budget).Separated(h.base)
    decreases budget
  {
    if k < |h.free| {
      h.DefragStep(cur, budget);
      StepSettles(h, cur, k);
      var g := h.Coalesce(cur);
      NextStands(g, cur);
      WalkSettles(g, After(g.free, cur, NULL), budget - 1, IndexOf(g.free, cur) + 1);
    }
  }

  /** Main result on defrag_chunks: if it may visit as many chunks as the list has, no free
      chunk is followed by another one afterwards. */
  lemma DefragSeparates(h: Heap, max: nat)
    requires h.Valid() && |h.free| <= max
    ensures h.Defrag(max).Separated(h.base)
  {
    WalkSettles(h, h.Head(), max, 0);
  }

  // ---- What fits stays fitting ----

  /** One of the first `max` members of the list is large enough. */
  ghost predicate FitsWithin(h: Heap, need: nat, max: nat)
    requires h.Valid()
  {
    exists c :: c in h.free && IndexOf(h.free, c) < max && h.size[c] >= need
  }

  lemma StepFits(h: Heap, cur: nat, need: nat, max: nat)
    requires h.Valid() && cur in h.free && IndexOf(h.free, cur) < max && FitsWithin(h, need, max)
    ensures h.Coalesce(cur).Valid() && cur in h.Coalesce(cur).free && FitsWithin(h.Coalesce(cur), need, max)
    ensures IndexOf(h.Coalesce(cur).free, cur) <= IndexOf(h.free, cur)
  {
    var c :| c in h.free && IndexOf(h.free, c) < max && h.size[c] >= need;
    CoalesceThins(h, cur, c);
    var g := h.Coalesce(cur);
    assert Thinned(h.free, g.free, cur);
    if c in g.free {
      assert Thinned(h.free, g.free, c);
      assert IndexOf(g.free, c) < max && g.size[c] >= need;
    } else {
      assert IndexOf(g.free, cur) < max && g.size[cur] >= need;
    }
  }

  lemma {:induction false} WalkFits(h: Heap, cur: nat, budget: nat, k: nat, need: nat, max: nat)
    requires h.Valid() && StandsOn(h, cur, k) && k + budget <= max && FitsWithin(h, need, max)
    ensures FitsWithin(h.DefragFrom(cur, budget), need, max)
    decreases budget
  {
    if k < |h.free| && budget > 0 {
      IndexOfAt(h.free, k);
      h.DefragStep(cur, budget);
      StepFits(h, cur, need, max);
      var g := h.Coalesce(cur);
      NextStands(g, cur);
      WalkFits(g, After(g.free, cur, NULL), budget - 1, IndexOf(g.free, cur) + 1, need, max);
    }
  }

  /** An allocation that a chunk among those examined could hold does not fail because of
      the defragmentation before the search. */
  lemma DefragFits(h: Heap, n: nat, max: nat)
    requires h.Valid() && FitsWithin(h, Align(n), max)
    ensures !h.Refuses(n, max)
  {
    WalkFits(h, h.Head(), max, 0, Align(n), max);
    var d := h.Defrag(max);
    var c :| c in d.free && IndexOf(d.free, c) < max && d.size[c] >= Align(n);
    assert d.Scanned(max)[IndexOf(d.free, c)] == c;
  }

  /** Main result on heapmem_free: right after a block is freed, an allocation of no more
      than it held succeeds. */
  lemma FreedIsReusable(h: Heap, o: nat, n: nat, max: nat)
    requires h.Valid() && h.Live(o) && Align(n) <= h.size[o] && max >= 1
    ensures h.FreeChunk(o).Valid() && h.FreeChunk(o).Alloc(n, max).1 != NULL
  {
    h.FreeChunkValid(o);
    h.NonNull(o);
    var f := h.FreeChunk(o);
    f.AllocValid(n, max);
    if h.End(o) != h.top {
      assert f.free[0] == o;
      IndexOfAt(f.free, 0);
      DefragFits(f, n, max);
    }
  }
}
