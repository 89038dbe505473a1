/** The heap of os/lib/heapmem.c on values: chunks laid end to end from `base` to
    `top`, the sizes in their headers, and the free list in list order. Addresses
    are numbers, 0 is NULL, and the layout is the 32-bit one. */
module HeapModel {
  import opened Seqs

  const NULL: nat := 0
  /** sizeof(chunk_t): two pointers, a size and a padded flag byte. */
  const HDR: nat := 16
  /** HEAPMEM_ALIGNMENT: sizeof(int). */
  const ALIGNMENT: nat := 4

  function Align(n: nat): (r: nat)
    ensures n <= r < n + ALIGNMENT && r % ALIGNMENT == 0
  {
    assert n + 3 == 4 * ((n + 3) / 4) + (n + 3) % 4;
    (n + (ALIGNMENT - 1)) / ALIGNMENT * ALIGNMENT
  }

  lemma AlignFixed(n: nat)
    requires n % ALIGNMENT == 0
    ensures Align(n) == n
  {
  }

  /** What the header at `o` must satisfy: aligned, inside the arena, and ending at the
      next chunk or at the top. */
  ghost predicate ChunkOk(base: nat, top: nat, size: map<nat, nat>, o: nat)
    requires o in size
  {
    && base <= o && o % ALIGNMENT == 0 && size[o] % ALIGNMENT == 0
    && o + HDR + size[o] <= top
    && (o + HDR + size[o] == top || o + HDR + size[o] in size)
  }

  ghost predicate Apart(size: map<nat, nat>, o: nat, p: nat)
    requires o in size && p in size
  {
    o < p ==> o + HDR + size[o] <= p
  }

  /** The chunks tile [base, top) exactly: the first one starts at `base`, each one ends
      where another starts or at `top`, and no two of them overlap. */
  ghost predicate Tiled(base: nat, top: nat, size: map<nat, nat>) {
    && (top == base || base in size)
    && (forall o {:trigger ChunkOk(base, top, size, o)} :: o in size ==> ChunkOk(base, top, size, o))
    && (forall o, p {:trigger Apart(size, o, p)} :: o in size && p in size ==> Apart(size, o, p))
  }

  ghost predicate FreeOk(size: map<nat, nat>, free: seq<nat>) {
    && Distinct(free)
    && (forall o :: o in free ==> o in size)
  }

  datatype Heap = Heap(base: nat, limit: nat, top: nat, size: map<nat, nat>, free: seq<nat>) {

    /** NEXT_CHUNK. */
    function End(o: nat): nat
      requires o in size
    {
      o + HDR + size[o]
    }

    ghost predicate Valid() {
      && 0 < base <= top <= limit && base % ALIGNMENT == 0
      && Tiled(base, top, size)
      && FreeOk(size, free)
    }

    predicate Live(o: nat) {
      o in size && o !in free
    }

    /** Live chunk addresses with the number of bytes each one holds. */
    function Blocks(): map<nat, nat> {
      map o | o in size && o !in free :: size[o]
    }

    /** free_chunk: the last chunk goes back to the wilderness, any other one to the
        head of the free list. */
    function FreeChunk(o: nat): Heap
      requires o in size
    {
      if End(o) == top then this.(top := o, size := size - {o}) else this.(free := [o] + free)
    }

    /** allocate_chunk. */
    function TakeChunk(o: nat): Heap
      requires o in free
    {
      this.(free := Remove(free, o))
    }

    /** split_chunk. */
    function Split(o: nat, offset: nat): Heap
      requires o in size
    {
      var off := Align(offset);
      if off + HDR < size[o] then
        var n := o + HDR + off;
        this.(size := size[n := size[o] - HDR - off][o := off]).FreeChunk(n)
      else
        this
    }

    /** One turn of the loop in coalesce_chunks: `n` is absorbed by `o`. */
    function Merge(o: nat, n: nat): Heap
      requires o in size && n in size && n in free
    {
      this.(size := (size - {n})[o := size[o] + HDR + size[n]], free := Remove(free, n))
    }

    predicate CanMerge(o: nat)
      requires o in size
    {
      End(o) < top && End(o) in size && End(o) in free
    }

    /** coalesce_chunks. */
    function Coalesce(o: nat): Heap
      requires o in size
      decreases |free|
    {
      if CanMerge(o) then Merge(o, End(o)).Coalesce(o) else this
    }

    lemma FreeChunkValid(o: nat)
      requires Valid() && Live(o)
      ensures FreeChunk(o).Valid()
      ensures FreeChunk(o).Blocks() == Blocks() - {o}
      ensures if End(o) == top then FreeChunk(o).top == o && FreeChunk(o).free == free
              else FreeChunk(o).top == top && o in FreeChunk(o).free && FreeChunk(o).Head() == o
    {
      if End(o) == top {
        TiledDropLast(base, top, size, o);
      }
    }

    lemma TakeChunkValid(o: nat)
      requires Valid() && o in free
      ensures TakeChunk(o).Valid()
      ensures TakeChunk(o).Blocks() == Blocks()[o := size[o]]
    {
    }

    /** Cutting a live chunk in two, before the second half is given back. */
    function Cut(o: nat, off: nat): Heap
      requires o in size && off + HDR < size[o]
    {
      this.(size := size[o + HDR + off := size[o] - HDR - off][o := off])
    }

    lemma CutValid(o: nat, off: nat)
      requires Valid() && Live(o) && off + HDR < size[o] && off % ALIGNMENT == 0
      ensures Cut(o, off).Valid() && o + HDR + off !in size
      ensures Cut(o, off).Blocks() == Blocks()[o := off][o + HDR + off := size[o] - HDR - off]
    {
      TiledCut(base, top, size, o, off);
    }

    /** Splitting a live chunk keeps the tiling; the chunk keeps at least the bytes
        asked for and at most HDR bytes more, and no other block changes. */
    lemma SplitValid(o: nat, offset: nat)
      requires Valid() && Live(o) && Align(offset) <= size[o]
      ensures Split(o, offset).Valid()
      ensures Split(o, offset).Live(o)
      ensures var s := Split(o, offset).size[o];
              offset <= s <= Align(offset) + HDR && s <= size[o]
              && Split(o, offset).Blocks() == Blocks()[o := s]
    {
      var off := Align(offset);
      if off + HDR < size[o] {
        CutValid(o, off);
        Cut(o, off).FreeChunkValid(o + HDR + off);
        assert Split(o, offset) == Cut(o, off).FreeChunk(o + HDR + off);
      }
    }

    /** What is cut off is free again: it goes back to the wilderness with the last chunk,
        and otherwise it is a chunk on the free list. */
    lemma SplitGivesBack(o: nat, need: nat)
      requires Valid() && Live(o) && need % ALIGNMENT == 0 && need + HDR < size[o]
      ensures var h, n := Split(o, need), o + HDR + need;
        && o in h.size && h.size[o] == need
        && if End(o) == top then h.top == n else n in h.free && n in h.size && h.size[n] == size[o] - HDR - need
    {
      AlignFixed(need);
      CutValid(o, need);
      Cut(o, need).FreeChunkValid(o + HDR + need);
      assert Split(o, need) == Cut(o, need).FreeChunk(o + HDR + need);
    }

    /** Where the run of free chunks that begins at `a` ends. */
    function RunEnd(a: nat): (e: nat)
      requires Valid()
      ensures e >= a
      decreases top - a
    {
      if a < top && a in size && a in free then NonNull(a); RunEnd(End(a)) else a
    }

    lemma MergeValid(o: nat)
      requires Valid() && o in size && CanMerge(o)
      ensures var h := Merge(o, End(o));
              && h.Valid() && (h.Live(o) <==> Live(o)) && h.top == top
              && h.size[o] > size[o] && h.End(o) == End(End(o))
              && h.Blocks() == if Live(o) then Blocks()[o := h.size[o]] else Blocks()
    {
      RemoveMembers(free, End(o));
      TiledMerge(base, top, size, o);
    }

    /** Coalescing keeps the tiling and every live block's place, only ever makes `o`
        larger, and stops exactly when the chunk after `o` is not free. */
    lemma CoalesceValid(o: nat)
      requires Valid() && o in size
      ensures var h := Coalesce(o);
              && h.Valid() && o in h.size && !h.CanMerge(o)
              && h.base == base && h.limit == limit && h.top == top
              && (o in h.free <==> o in free) && |h.free| <= |free|
              && h.size[o] >= size[o]
              && h.Blocks() == (if Live(o) then Blocks()[o := h.size[o]] else Blocks())
      decreases |free|
    {
      if CanMerge(o) {
        MergeValid(o);
        RemoveMembers(free, End(o));
        Merge(o, End(o)).CoalesceValid(o);
      }
    }

    /** Absorbing the first chunk of a run leaves the rest of the run as it was. */
    lemma RunAfterMerge(o: nat, a: nat)
      requires Valid() && o in size && CanMerge(o) && a >= End(End(o))
      ensures Merge(o, End(o)).Valid() && Merge(o, End(o)).RunEnd(a) == RunEnd(a)
      decreases top - a
    {
      MergeValid(o);
      RemoveMembers(free, End(o));
      NonNull(o);
      NonNull(End(o));
      if a < top && a in size && a in free {
        NonNull(a);
        RunAfterMerge(o, End(a));
      }
    }

    /** A coalesced chunk owns exactly the run of free chunks that followed it. */
    lemma CoalesceRun(o: nat)
      requires Valid() && o in size
      ensures o in Coalesce(o).size && Coalesce(o).End(o) == RunEnd(End(o))
      decreases |free|
    {
      NonNull(o);
      if CanMerge(o) {
        var n := End(o);
        NonNull(n);
        MergeValid(o);
        RemoveMembers(free, n);
        RunAfterMerge(o, End(n));
        Merge(o, n).CoalesceRun(o);
      }
    }

    /** Coalescing leaves the chunks before `o` alone. */
    lemma CoalesceKeeps(o: nat)
      requires Valid() && o in size
      ensures forall c :: c in size && c < o ==> c in Coalesce(o).size && Coalesce(o).size[c] == size[c]
      decreases |free|
    {
      if CanMerge(o) {
        MergeValid(o);
        Merge(o, End(o)).CoalesceKeeps(o);
      }
    }

    /** One turn of the loop in heapmem_stats: a free chunk is coalesced. */
    function Settle(o: nat): (h: Heap)
      requires Valid() && o in size
      ensures h.Valid() && o in h.size && h.base == base && h.limit == limit && h.top == top
      ensures h.Blocks() == Blocks() && (h.Live(o) <==> Live(o)) && (h.Live(o) ==> h == this)
      ensures o < h.End(o) && (h.End(o) == top || h.End(o) in h.size)
      ensures h.Live(o) || !h.CanMerge(o)
      ensures forall c :: c in size && c < o ==> c in h.size && h.size[c] == size[c]
    {
      CoalesceValid(o);
      CoalesceKeeps(o);
      var h := if Live(o) then this else Coalesce(o);
      assert ChunkOk(h.base, h.top, h.size, o);
      h
    }

    /** defrag_chunks from list position `cur` on, with `budget` chunks left to visit. */
    function DefragFrom(cur: nat, budget: nat): (h: Heap)
      requires Valid() && (cur == NULL || cur in free)
      ensures h.Valid() && h.base == base && h.limit == limit && h.top == top
      ensures h.Blocks() == Blocks()
      decreases budget
    {
      if cur == NULL || budget == 0 then this else
        CoalesceValid(cur);
        var h := Coalesce(cur);
        h.DefragFrom(After(h.free, cur, NULL), budget - 1)
    }

    lemma DefragStep(cur: nat, budget: nat)
      requires Valid() && cur in free && budget > 0
      ensures cur != NULL && Coalesce(cur).Valid() && cur in Coalesce(cur).free
      ensures var n := After(Coalesce(cur).free, cur, NULL);
        && (n == NULL || n in Coalesce(cur).free)
        && DefragFrom(cur, budget) == Coalesce(cur).DefragFrom(n, budget - 1)
    {
      NonNull(cur);
      CoalesceValid(cur);
    }

    function Head(): nat {
      if free == [] then NULL else free[0]
    }

    function Defrag(budget: nat): (h: Heap)
      requires Valid()
      ensures h.Valid() && h.base == base && h.limit == limit && h.top == top
      ensures h.Blocks() == Blocks()
    {
      DefragFrom(Head(), budget)
    }

    /** `b` is the chunk among `s` that the documentation of the search asks for: the
        smallest one that holds `need` bytes, the first of them in list order. */
    ghost predicate IsBestFit(need: nat, s: seq<nat>, b: nat)
      requires forall c :: c in s ==> c in size
    {
      if b == NULL then
        forall j :: 0 <= j < |s| ==> size[s[j]] < need
      else
        exists k :: 0 <= k < |s| && s[k] == b && need <= size[b]
          && (forall j :: 0 <= j < |s| && need <= size[s[j]] ==> size[b] <= size[s[j]])
          && (forall j :: 0 <= j < k && need <= size[s[j]] ==> size[b] < size[s[j]])
    }

    function BestFit(need: nat, s: seq<nat>): (b: nat)
      requires forall c :: c in s ==> c in size && c != NULL
      ensures b != NULL ==> b in s
      ensures IsBestFit(need, s, b)
    {
      if s == [] then NULL else
        var t, c := s[..|s| - 1], s[|s| - 1];
        assert s == t + [c] && forall x :: x in t ==> x in s;
        var b := BestFit(need, t);
        BestFitStep(need, s, |s| - 1, b);
        assert s[..|s|] == s;
        if need <= size[c] && (b == NULL || size[c] < size[b]) then c else b
    }

    /** Looking at one more chunk. */
    lemma BestFitStep(need: nat, s: seq<nat>, k: nat, b: nat)
      requires forall c :: c in s ==> c in size && c != NULL
      requires k < |s| && IsBestFit(need, s[..k], b) && (b != NULL ==> b in s)
      ensures var c := s[k];
        IsBestFit(need, s[..k + 1], if need <= size[c] && (b == NULL || size[c] < size[b]) then c else b)
    {
      var t, u, c := s[..k], s[..k + 1], s[k];
      assert u == t + [c];
      if need <= size[c] && (b == NULL || size[c] < size[b]) {
        assert u[k] == c;
        if b != NULL {
          var j :| 0 <= j < |t| && t[j] == b && need <= size[b]
            && (forall i :: 0 <= i < |t| && need <= size[t[i]] ==> size[b] <= size[t[i]])
            && (forall i :: 0 <= i < j && need <= size[t[i]] ==> size[b] < size[t[i]]);
        }
      } else if b != NULL {
        var j :| 0 <= j < |t| && t[j] == b && need <= size[b]
          && (forall i :: 0 <= i < |t| && need <= size[t[i]] ==> size[b] <= size[t[i]])
          && (forall i :: 0 <= i < j && need <= size[t[i]] ==> size[b] < size[t[i]]);
        assert u[j] == b;
      }
    }

    /** Nothing after a chunk of exactly the wanted size can be a better fit. */
    lemma PerfectFit(need: nat, s: seq<nat>, k: nat, b: nat)
      requires forall c :: c in s ==> c in size && c != NULL
      requires k <= |s| && b in s && IsBestFit(need, s[..k], b) && size[b] == need
      ensures IsBestFit(need, s, b)
    {
    }

    lemma BestFitUnique(need: nat, s: seq<nat>, b: nat, b': nat)
      requires forall c :: c in s ==> c in size && c != NULL
      requires IsBestFit(need, s, b) && IsBestFit(need, s, b')
      ensures b == b'
    {
    }

    /** The part of the free list a search may look at. */
    function Scanned(max: nat): seq<nat> {
      if |free| <= max then free else free[..max]
    }

    lemma NonNull(o: nat)
      requires Valid() && o in size
      ensures o != NULL && base <= o && End(o) <= top
    {
      assert ChunkOk(base, top, size, o);
    }

    /** get_free_chunk after its defragmentation: the best fit is taken and trimmed. */
    function TakeBest(need: nat, max: nat): (Heap, nat)
      requires Valid()
    {
      forall c | c in Scanned(max) ensures c in size && c != NULL { NonNull(c); }
      var b := BestFit(need, Scanned(max));
      if b == NULL then (this, NULL) else (TakeChunk(b).Split(b, need), b)
    }

    /** extend_space followed by writing the new header's size. */
    function Extend(need: nat): (Heap, nat) {
      if top + HDR + need > limit then (this, NULL)
      else (this.(top := top + HDR + need, size := size[top := need]), top)
    }

    /** heapmem_alloc; the second component is the chunk, NULL on failure. */
    function Alloc(n: nat, max: nat): (Heap, nat)
      requires Valid()
    {
      var (h, b) := Defrag(max).TakeBest(Align(n), max);
      if b != NULL then (h, b) else h.Extend(Align(n))
    }

    ghost predicate Fits(need: nat, max: nat) {
      exists k :: 0 <= k < |Scanned(max)| && Scanned(max)[k] in size && need <= size[Scanned(max)[k]]
    }

    lemma TakeBestValid(need: nat, max: nat)
      requires Valid() && need % ALIGNMENT == 0
      ensures var (h, b) := TakeBest(need, max);
        && h.Valid() && h.base == base && h.limit == limit
        && (b == NULL <==> !Fits(need, max))
        && (b == NULL ==> h == this)
        && (forall c :: c in Scanned(max) ==> c in size) && IsBestFit(need, Scanned(max), b)
        && (b != NULL ==> (b in free && h.Live(b) && need <= h.size[b] <= need + HDR && h.top <= top
          && h.Blocks() == Blocks()[b := h.size[b]]))
    {
      forall c | c in Scanned(max) ensures c in size && c != NULL { NonNull(c); }
      var b := BestFit(need, Scanned(max));
      assert b == NULL <==> !Fits(need, max);
      if b != NULL {
        TakeAndSplit(b, need);
      }
    }

    lemma TakeAndSplit(b: nat, need: nat)
      requires Valid() && b in free && need <= size[b] && need % ALIGNMENT == 0
      ensures var h := TakeChunk(b).Split(b, need);
        && h.Valid() && h.base == base && h.limit == limit
        && h.Live(b) && need <= h.size[b] <= need + HDR && h.Blocks() == Blocks()[b := h.size[b]]
        && h.top <= top
    {
      NonNull(b);
      AlignFixed(need);
      TakeChunkValid(b);
      RemoveMembers(free, b);
      TakeChunk(b).SplitValid(b, need);
    }

    lemma ExtendValid(need: nat)
      requires Valid() && need % ALIGNMENT == 0 && top % ALIGNMENT == 0
      ensures var (h, b) := Extend(need);
        && h.Valid() && h.base == base && h.limit == limit
        && (b == NULL <==> top + HDR + need > limit)
        && (b == NULL ==> h == this)
        && (b != NULL ==> (b == top && b !in size && h.Live(b) && h.size[b] == need
          && h.Blocks() == Blocks()[b := need]))
    {
      assert top !in size by { assert top in size ==> ChunkOk(base, top, size, top); }
      if top + HDR + need <= limit {
        TiledExtend(base, top, size, need);
      }
    }

    lemma TopAligned()
      requires Valid()
      ensures top % ALIGNMENT == 0
      decreases top - base
    {
      if top != base {
        LastChunk();
      }
    }

    /** A non-empty heap has a last chunk. */
    lemma LastChunk()
      requires Valid() && top != base
      ensures top % ALIGNMENT == 0
      ensures exists o :: o in size && End(o) == top
    {
      var o := base;
      while End(o) != top
        invariant o in size && ChunkOk(base, top, size, o)
        decreases top - o
      {
        o := End(o);
        assert ChunkOk(base, top, size, o);
      }
      AlignedSum(o, size[o]);
    }

    /** heapmem_alloc hands out a block of at least the requested size, never more than
        HDR bytes over the rounded size, at an address where no block was live; every
        other block stays where and as large as it was. The used heap grows only when none
        of the first `max` free chunks of the defragmented list is large enough; it fails
        exactly when the wilderness is too small as well, and then no block has changed. */
    lemma AllocValid(n: nat, max: nat)
      requires Valid()
      ensures var (h, b) := Alloc(n, max); var d := Defrag(max);
        && h.Valid() && h.base == base && h.limit == limit
        && (b == NULL <==> !d.Fits(Align(n), max) && d.top + HDR + Align(n) > limit)
        && (b == NULL ==> h == d && h.Blocks() == Blocks())
        && (b != NULL ==> (b !in Blocks() && h.Live(b) && Align(n) <= h.size[b] <= Align(n) + HDR
          && h.Blocks() == Blocks()[b := h.size[b]]))
        && (d.Fits(Align(n), max) ==> b != NULL && d.IsBestFit(Align(n), d.Scanned(max), b) && h.top <= d.top)
        && (b != NULL && !d.Fits(Align(n), max) ==> b == d.top && h.top == d.top + HDR + Align(n))
    {
      var d := Defrag(max);
      d.TakeBestValid(Align(n), max);
      d.TopAligned();
      d.ExtendValid(Align(n));
      assert forall o :: o in d.Blocks() <==> o in Blocks();
    }

    /** heapmem_alloc as the owner of the live block at `p` sees it. */
    lemma AllocBeside(n: nat, max: nat, p: nat)
      requires Valid() && Live(p) && n % ALIGNMENT == 0
      ensures var h, q := Alloc(n, max).0, Alloc(n, max).1;
        && h.Valid() && h.Live(p) && h.size[p] == size[p] && h.base == base && h.limit == limit
        && (q != NULL ==> h.Live(q) && q != p && q !in Blocks() && n <= h.size[q])
    {
      AllocValid(n, max);
      AlignFixed(n);
      assert p in Blocks() && Blocks()[p] == size[p];
      assert p in Alloc(n, max).0.Blocks();
    }

    /** The tail of heapmem_realloc: a new block, the copy, and the old block freed. */
    function Move(p: nat, n: nat, max: nat): (Heap, nat)
      requires Valid() && Live(p)
    {
      AllocValid(n, max);
      var (h, q) := Alloc(n, max);
      if q == NULL then (h, NULL)
      else
        assert p in h.Blocks() by { assert p in Blocks(); }
        (h.FreeChunk(p), q)
    }

    /** heapmem_realloc on a live block with a non-zero size. */
    function Resize(p: nat, n: nat, max: nat): (Heap, nat)
      requires Valid() && Live(p)
    {
      var need := Align(n);
      if need <= size[p] then (Split(p, need), p)
      else if End(p) == top then
        if top + (need - size[p]) <= limit then
          (this.(top := top + (need - size[p]), size := size[p := need]), p)
        else Move(p, need, max)
      else
        CoalesceValid(p);
        assert p in Coalesce(p).Blocks();
        var h := Coalesce(p);
        if h.size[p] >= need then (h.Split(p, need), p) else h.Move(p, need, max)
    }

    /** GET_PTR. */
    static function Ptr(chunk: nat): nat {
      if chunk == NULL then NULL else chunk + HDR
    }

    /** heapmem_alloc, answering with the caller's pointer. */
    function AllocPtr(n: nat, max: nat): (Heap, nat)
      requires Valid()
    {
      (Alloc(n, max).0, Ptr(Alloc(n, max).1))
    }

    /** heapmem_realloc: a NULL pointer allocates, a zero size frees. */
    function Realloc(ptr: nat, n: nat, max: nat): (Heap, nat)
      requires Valid() && (ptr == NULL || (ptr >= HDR && Live(ptr - HDR)))
    {
      if ptr == NULL then AllocPtr(n, max)
      else if n == 0 then (FreeChunk(ptr - HDR), NULL)
      else (Resize(ptr - HDR, n, max).0, Ptr(Resize(ptr - HDR, n, max).1))
    }

    /** The block can stay where it is: it is large enough, or the wilderness behind the
        last chunk or the run of free chunks behind any other one makes it so. */
    predicate InPlace(p: nat, n: nat)
      requires Valid() && p in size
    {
      || Align(n) <= size[p]
      || p + HDR + Align(n) <= if End(p) == top then limit else RunEnd(End(p))
    }

    /** No chunk that the allocator would look at is large enough, nor is the wilderness. */
    ghost predicate Refuses(n: nat, max: nat)
      requires Valid()
    {
      var d := Defrag(max);
      !d.Fits(Align(n), max) && d.top + HDR + Align(n) > limit
    }

    /** The heap `h` has everything back that the block at `p` owned beyond `n` bytes, if a
        header fits in front of it. */
    predicate GivenBack(p: nat, n: nat, h: Heap)
      requires p in size
    {
      var a := p + HDR + Align(n);
      size[p] > Align(n) + HDR ==>
        if End(p) == top then h.top == a
        else a in h.free && a in h.size && h.size[a] == size[p] - HDR - Align(n)
    }

    /** Block `q` holds `n` bytes, rounded up, and at most a header more. */
    predicate Holds(q: nat, n: nat) {
      Live(q) && Align(n) <= size[q] <= Align(n) + HDR
    }

    /** What heapmem_realloc answers for a block, told from the heap before: where the new
        block is, when there is none, how large it is and what it gives back. */
    ghost predicate ResizeAnswer(p: nat, n: nat, max: nat, h: Heap, q: nat)
      requires Valid() && p in size
    {
      var g := if End(p) == top then this else Coalesce(p);
      && g.Valid()
      && (q == p <==> InPlace(p, n))
      && (q == NULL <==> !InPlace(p, n) && g.Refuses(n, max))
      && (q != NULL ==> h.Holds(q, n)) && GivenBack(p, n, h)
    }

    ghost predicate AllocAnswer(n: nat, max: nat, h: Heap, q: nat)
      requires Valid()
    {
      (q == NULL <==> Refuses(n, max)) && (q != NULL ==> h.Holds(q, n))
    }

    /** The chunk before a caller's pointer. */
    static function Chunk(ptr: nat): nat {
      if ptr < HDR then NULL else ptr - HDR
    }

    /** The same for every call. */
    ghost predicate ReallocAnswer(ptr: nat, n: nat, max: nat, h: Heap, r: nat)
      requires Valid() && (ptr == NULL || (ptr >= HDR && Live(ptr - HDR)))
    {
      && (r == NULL || r > HDR)
      && if ptr == NULL then AllocAnswer(n, max, h, Chunk(r))
         else if n == 0 then r == NULL && h.Blocks() == Blocks() - {ptr - HDR}
         else ResizeAnswer(ptr - HDR, n, max, h, Chunk(r))
    }

    lemma MoveAnswer(p: nat, n: nat, max: nat)
      requires Valid() && Live(p)
      ensures var (h, q) := Move(p, n, max);
        && q != p && (q == NULL <==> Refuses(n, max)) && (q != NULL ==> h.Holds(q, n))
    {
      NonNull(p);
      AllocValid(n, max);
      var (h, q) := Alloc(n, max);
      assert p in Blocks();
      if q != NULL {
        assert p in h.Blocks() && q in h.Blocks();
        h.FreeChunkValid(p);
        assert q in h.FreeChunk(p).Blocks();
      }
    }

    lemma ShrinkAnswer(p: nat, n: nat, max: nat)
      requires Valid() && Live(p) && Align(n) <= size[p]
      ensures var (h, q) := Resize(p, n, max); q == p && h.Holds(p, n) && GivenBack(p, n, h)
    {
      NonNull(p);
      AlignFixed(Align(n));
      SplitValid(p, Align(n));
      if size[p] > Align(n) + HDR { SplitGivesBack(p, Align(n)); }
    }

    lemma GrowAnswer(p: nat, n: nat, max: nat)
      requires Valid() && Live(p) && Align(n) > size[p]
      ensures var (h, q) := Resize(p, n, max); ResizeAnswer(p, n, max, h, q)
    {
      NonNull(p);
      AlignFixed(Align(n));
      if End(p) == top {
        MoveAnswer(p, Align(n), max);
      } else {
        CoalesceValid(p);
        CoalesceRun(p);
        assert p in Coalesce(p).Blocks();
        var h := Coalesce(p);
        if h.size[p] >= Align(n) { h.SplitValid(p, Align(n)); } else { h.MoveAnswer(p, Align(n), max); }
      }
    }

    /** heapmem_realloc of a block, exactly. */
    lemma ResizeExactly(p: nat, n: nat, max: nat)
      requires Valid() && Live(p)
      ensures var (h, q) := Resize(p, n, max); ResizeAnswer(p, n, max, h, q)
    {
      NonNull(p);
      CoalesceValid(p);
      if Align(n) <= size[p] { ShrinkAnswer(p, n, max); } else { GrowAnswer(p, n, max); }
    }

    /** heapmem_alloc, exactly. */
    lemma AllocExactly(n: nat, max: nat)
      requires Valid()
      ensures AllocAnswer(n, max, Alloc(n, max).0, Alloc(n, max).1)
    {
      AllocValid(n, max);
    }

    lemma PtrChunk(q: nat)
      ensures Chunk(Ptr(q)) == q && (Ptr(q) == NULL || Ptr(q) > HDR)
    {
    }

    lemma ReallocExactly(ptr: nat, n: nat, max: nat)
      requires Valid() && (ptr == NULL || (ptr >= HDR && Live(ptr - HDR)))
      ensures ReallocAnswer(ptr, n, max, Realloc(ptr, n, max).0, Realloc(ptr, n, max).1)
    {
      var r := Realloc(ptr, n, max);
      if ptr == NULL {
        AllocExactly(n, max);
        PtrChunk(Alloc(n, max).1);
        assert r == (Alloc(n, max).0, Ptr(Alloc(n, max).1));
      } else if n == 0 {
        FreeChunkValid(ptr - HDR);
        assert r == (FreeChunk(ptr - HDR), NULL);
      } else {
        ResizeExactly(ptr - HDR, n, max);
        PtrChunk(Resize(ptr - HDR, n, max).1);
        assert r == (Resize(ptr - HDR, n, max).0, Ptr(Resize(ptr - HDR, n, max).1));
      }
    }

    lemma MoveValid(p: nat, n: nat, max: nat)
      requires Valid() && Live(p) && n % ALIGNMENT == 0
      ensures var (h, q) := Move(p, n, max);
        && h.Valid() && h.base == base && h.limit == limit
        && (q == NULL ==> h.Blocks() == Blocks())
        && (q != NULL ==> (q !in Blocks() && h.Live(q) && n <= h.size[q]
          && h.Blocks() == Blocks()[q := h.size[q]] - {p}))
    {
      AllocValid(n, max);
      var (h, q) := Alloc(n, max);
      assert p in Blocks();
      if q != NULL {
        assert p in h.Blocks();
        h.FreeChunkValid(p);
        assert q in h.FreeChunk(p).Blocks();
      }
    }

    /** What heapmem_realloc promises: the same address, a fresh one, or NULL. Only the
        block asked about moves or changes size, and on failure it is still live and no
        smaller than before. */
    ghost predicate Resized(p: nat, n: nat, h: Heap, q: nat)
      requires p in size
    {
      && h.Valid() && h.base == base && h.limit == limit
      && (q == NULL ==>
        h.Live(p) && h.size[p] >= size[p] && h.Blocks() == Blocks()[p := h.size[p]])
      && (q != NULL ==>
        h.Live(q) && n <= h.size[q] && (q == p || q !in Blocks()) && h.Blocks() == (Blocks() - {p})[q := h.size[q]])
    }

    lemma ResizeValid(p: nat, n: nat, max: nat)
      requires Valid() && Live(p)
      ensures var (h, q) := Resize(p, n, max); Resized(p, n, h, q)
    {
      var need := Align(n);
      NonNull(p);
      if need <= size[p] {
        SplitValid(p, need);
      } else if End(p) == top {
        if top + (need - size[p]) <= limit {
          TiledGrow(base, top, size, p, need);
        } else {
          MoveResized(p, need, max);
        }
      } else {
        CoalesceValid(p);
        Coalesce(p).ResizeCoalesced(p, need, max);
        var h := Coalesce(p);
        var (g, q) := if h.size[p] >= need then (h.Split(p, need), p) else h.Move(p, need, max);
        ResizedAfterCoalesce(p, need, h, g, q);
      }
    }

    /** After a failed resize the block has grown exactly if a free chunk followed it. */
    lemma FailedResizeGrows(p: nat, n: nat, max: nat)
      requires Valid() && Live(p) && Resize(p, n, max).1 == NULL
      ensures var h := Resize(p, n, max).0;
        && p in h.size && p in Coalesce(p).size
        && h.size[p] == (if End(p) == top then size[p] else Coalesce(p).size[p])
        && (h.size[p] > size[p] <==> CanMerge(p))
    {
      var need := Align(n);
      NonNull(p);
      assert p in Blocks();
      if End(p) == top {
        MoveValid(p, need, max);
        assert p in Move(p, need, max).0.Blocks();
      } else {
        CoalesceValid(p);
        CoalesceGrows(p);
        var c := Coalesce(p);
        assert p in c.Blocks();
        c.MoveValid(p, need, max);
        assert p in c.Move(p, need, max).0.Blocks();
      }
    }

    lemma CoalesceGrows(o: nat)
      requires Valid() && o in size
      ensures o in Coalesce(o).size && (Coalesce(o).size[o] > size[o] <==> CanMerge(o))
    {
      CoalesceValid(o);
      if CanMerge(o) {
        MergeValid(o);
        Merge(o, End(o)).CoalesceValid(o);
      }
    }

    lemma MoveResized(p: nat, n: nat, max: nat)
      requires Valid() && Live(p) && n % ALIGNMENT == 0
      ensures var (h, q) := Move(p, n, max); Resized(p, n, h, q)
    {
      MoveValid(p, n, max);
      var (h, q) := Move(p, n, max);
      assert p in Blocks();
      if q == NULL { assert p in h.Blocks(); }
    }

    lemma ResizeCoalesced(p: nat, need: nat, max: nat)
      requires Valid() && Live(p) && need % ALIGNMENT == 0
      ensures var (h, q) := if size[p] >= need then (Split(p, need), p) else Move(p, need, max);
        Resized(p, need, h, q)
    {
      NonNull(p);
      if size[p] >= need { SplitValid(p, need); } else { MoveResized(p, need, max); }
    }

    lemma ResizedAfterCoalesce(p: nat, n: nat, c: Heap, h: Heap, q: nat)
      requires Valid() && Live(p) && p in c.size && c.size[p] >= size[p]
      requires c.base == base && c.limit == limit && c.Blocks() == Blocks()[p := c.size[p]]
      requires c.Resized(p, n, h, q)
      ensures Resized(p, n, h, q)
    {
    }

    /** Bytes inside live chunks that start in [lo, hi). */
    function LiveBytes(lo: nat, hi: nat): nat
      decreases hi - lo
    {
      if lo >= hi then 0
      else (if Live(lo) then size[lo] else 0) + LiveBytes(lo + 1, hi)
    }

    lemma LiveBytesSplit(lo: nat, mid: nat, hi: nat)
      requires lo <= mid <= hi
      ensures LiveBytes(lo, hi) == LiveBytes(lo, mid) + LiveBytes(mid, hi)
      decreases mid - lo
    {
      if lo < mid { LiveBytesSplit(lo + 1, mid, hi); }
    }

    lemma LiveBytesNone(lo: nat, hi: nat)
      requires forall o :: lo <= o < hi ==> !Live(o)
      ensures LiveBytes(lo, hi) == 0
      decreases hi - lo
    {
    }

    lemma LiveBytesSame(h: Heap, lo: nat, hi: nat)
      requires h.Blocks() == Blocks()
      ensures h.LiveBytes(lo, hi) == LiveBytes(lo, hi)
      decreases hi - lo
    {
      if lo < hi {
        assert Live(lo) <==> lo in Blocks();
        assert h.Live(lo) <==> lo in h.Blocks();
        LiveBytesSame(h, lo + 1, hi);
      }
    }

    /** Nothing is live between a chunk's start and its end but the chunk itself. */
    lemma LiveBytesChunk(o: nat)
      requires Valid() && o in size
      ensures LiveBytes(o, top) == (if Live(o) then size[o] else 0) + LiveBytes(End(o), top)
    {
      NonNull(o);
      forall p | o < p < End(o) ensures !Live(p) {
        assert p in size ==> Apart(size, o, p);
      }
      LiveBytesNone(o + 1, End(o));
      LiveBytesSplit(o, End(o), top);
    }

    function ChunksFrom(lo: nat): set<nat> {
      set c | c in size && lo <= c
    }

    /** No free chunk that starts at or after `lo` is followed by another free chunk. */
    ghost predicate Separated(lo: nat) {
      forall o {:trigger CanMerge(o)} :: o in size && lo <= o && o in free ==> !CanMerge(o)
    }

    /** A call of heapmem_realloc leaves every block but the one it names as it was. */
    lemma ReallocValid(ptr: nat, n: nat, max: nat)
      requires Valid() && (ptr == NULL || (ptr >= HDR && Live(ptr - HDR)))
      ensures var g := Realloc(ptr, n, max).0;
        && g.Valid() && g.base == base && g.limit == limit
        && forall p :: p in Blocks() && p + HDR != ptr ==> p in g.Blocks() && g.Blocks()[p] == Blocks()[p]
    {
      if ptr == NULL {
        AllocValid(n, max);
      } else if n == 0 {
        FreeChunkValid(ptr - HDR);
      } else {
        ResizeKeepsOthers(ptr - HDR, n, max);
      }
    }

    lemma ResizeKeepsOthers(o: nat, n: nat, max: nat)
      requires Valid() && Live(o)
      ensures var g := Resize(o, n, max).0;
        && g.Valid() && g.base == base && g.limit == limit
        && forall p :: p in Blocks() && p != o ==> p in g.Blocks() && g.Blocks()[p] == Blocks()[p]
    {
      ResizeValid(o, n, max);
      var g, q := Resize(o, n, max).0, Resize(o, n, max).1;
      assert Resized(o, n, g, q);
    }
  }

  /** The counters of heapmem_stats, as the walk over the chunks adds them up. */
  datatype Stats = Stats(inUse: nat, overhead: nat, available: nat)

  /** The loop of heapmem_stats from chunk address `o` on: it coalesces as it goes. */
  function Sweep(h: Heap, o: nat): (r: (Heap, Stats))
    requires h.Valid() && (o == h.top || o in h.size)
    ensures r.0.Valid() && r.0.base == h.base && r.0.limit == h.limit && r.0.top == h.top
    ensures r.0.Blocks() == h.Blocks()
    ensures r.1.inUse + r.1.overhead + r.1.available == h.top - o
    decreases h.top - o
  {
    if o == h.top then (h, Stats(0, 0, 0))
    else
      h.NonNull(o);
      var g := h.Settle(o);
      g.NonNull(o);
      var r := Sweep(g, g.End(o));
      (r.0, if g.Live(o)
            then Stats(r.1.inUse + g.size[o], r.1.overhead + HDR, r.1.available)
            else Stats(r.1.inUse, r.1.overhead + HDR, r.1.available + g.size[o]))
  }

  /** The walk counts as allocated exactly the bytes inside live chunks. */
  lemma {:induction false} SweepCountsLive(h: Heap, o: nat)
    requires h.Valid() && (o == h.top || o in h.size)
    ensures Sweep(h, o).1.inUse == h.LiveBytes(o, h.top)
    decreases h.top - o
  {
    if o != h.top {
      h.NonNull(o);
      var g := h.Settle(o);
      g.NonNull(o);
      SweepCountsLive(g, g.End(o));
      g.LiveBytesChunk(o);
      h.LiveBytesSame(g, o, h.top);
    }
  }

  lemma {:induction false} SweepKeepsEarlier(h: Heap, o: nat)
    requires h.Valid() && (o == h.top || o in h.size)
    ensures forall c :: c in h.size && c < o ==> c in Sweep(h, o).0.size && Sweep(h, o).0.size[c] == h.size[c]
    decreases h.top - o
  {
    if o != h.top {
      h.NonNull(o);
      var g := h.Settle(o);
      g.NonNull(o);
      SweepKeepsEarlier(g, g.End(o));
    }
  }

  /** After the walk no two neighbouring chunks are both free. */
  lemma {:induction false} SweepSeparates(h: Heap, o: nat)
    requires h.Valid() && (o == h.top || o in h.size)
    ensures Sweep(h, o).0.Separated(o)
    decreases h.top - o
  {
    var s := Sweep(h, o).0;
    if o == h.top {
      forall c | c in s.size ensures c < o { assert ChunkOk(s.base, s.top, s.size, c); }
    } else {
      h.NonNull(o);
      var g := h.Settle(o);
      g.NonNull(o);
      SweepKeepsEarlier(g, g.End(o));
      SweepSeparates(g, g.End(o));
      forall c {:trigger s.CanMerge(c)} | c in s.size && o <= c && c in s.free ensures !s.CanMerge(c) {
        if c < g.End(o) {
          assert Apart(s.size, o, c);
          FreeAndSettled(g, s, o);
        }
      }
    }
  }

  /** Where the live blocks are the same, a chunk that cannot grow here cannot there. */
  lemma FreeAndSettled(g: Heap, s: Heap, o: nat)
    requires g.Valid() && s.Valid() && g.Blocks() == s.Blocks() && g.top == s.top
    requires o in g.size && o in s.free && o in s.size && s.size[o] == g.size[o]
    requires g.Live(o) || !g.CanMerge(o)
    ensures !s.CanMerge(o)
  {
    assert o in g.Blocks() <==> o in s.Blocks();
    assert ChunkOk(g.base, g.top, g.size, o);
    var n := g.End(o);
    assert n in g.Blocks() <==> n in s.Blocks();
  }

  /** The overhead counter is one header for each chunk that is left. */
  lemma {:induction false} SweepCountsChunks(h: Heap, o: nat)
    requires h.Valid() && (o == h.top || o in h.size)
    ensures Sweep(h, o).1.overhead == HDR * |Sweep(h, o).0.ChunksFrom(o)|
    decreases h.top - o
  {
    var s := Sweep(h, o).0;
    if o == h.top {
      forall c | c in s.size ensures c < o { assert ChunkOk(s.base, s.top, s.size, c); }
      assert s.ChunksFrom(o) == {};
    } else {
      h.NonNull(o);
      var g := h.Settle(o);
      g.NonNull(o);
      SweepKeepsEarlier(g, g.End(o));
      SweepCountsChunks(g, g.End(o));
      var all, rest := s.ChunksFrom(o), s.ChunksFrom(g.End(o));
      forall c | c in all && c != o ensures c in rest { assert Apart(s.size, o, c); }
      assert all == {o} + rest && o !in rest;
      assert s == Sweep(g, g.End(o)).0;
      assert |all| == 1 + |rest|;
    }
  }

  lemma TiledDropLast(base: nat, top: nat, size: map<nat, nat>, o: nat)
    requires Tiled(base, top, size) && o in size && o + HDR + size[o] == top
    ensures Tiled(base, o, size - {o}) && base <= o
  {
    assert ChunkOk(base, top, size, o);
    forall p {:trigger ChunkOk(base, o, size - {o}, p)} | p in size && p != o ensures ChunkOk(base, o, size - {o}, p) {
      assert ChunkOk(base, top, size, p) && Apart(size, o, p) && Apart(size, p, o);
    }
    forall p, q | p in size - {o} && q in size - {o} ensures Apart(size - {o}, p, q) {
      assert Apart(size, p, q);
    }
  }

  lemma TiledCut(base: nat, top: nat, size: map<nat, nat>, o: nat, off: nat)
    requires Tiled(base, top, size) && o in size && off + HDR < size[o] && off % ALIGNMENT == 0
    ensures o + HDR + off !in size
    ensures Tiled(base, top, size[o + HDR + off := size[o] - HDR - off][o := off])
  {
    var n := o + HDR + off;
    var s := size[n := size[o] - HDR - off][o := off];
    assert ChunkOk(base, top, size, o);
    assert n !in size by { assert n in size ==> Apart(size, o, n); }
    forall p {:trigger ChunkOk(base, top, s, p)} | p in s ensures ChunkOk(base, top, s, p) {
      if p != o && p != n { assert ChunkOk(base, top, size, p); }
    }
    forall p, q {:trigger Apart(s, p, q)} | p in s && q in s ensures Apart(s, p, q) {
      CutApart(size, o, n, s, p, q);
    }
  }

  lemma CutApart(size: map<nat, nat>, o: nat, n: nat, s: map<nat, nat>, p: nat, q: nat)
    requires o in size && o + HDR <= n && n + HDR < o + HDR + size[o] && n !in size
    requires forall x, y {:trigger Apart(size, x, y)} :: x in size && y in size ==> Apart(size, x, y)
    requires s == size[n := o + size[o] - n][o := n - o - HDR]
    requires p in s && q in s
    ensures Apart(s, p, q)
  {
    if p == n {
      if q != o && q != n { assert Apart(size, o, q); assert Apart(size, q, o); }
    } else if q == n {
      if p != o { assert Apart(size, p, o); assert Apart(size, o, p); }
    } else {
      assert Apart(size, p, q);
    }
  }

  lemma TiledMerge(base: nat, top: nat, size: map<nat, nat>, o: nat)
    requires Tiled(base, top, size) && o in size && o + HDR + size[o] in size
    ensures var n := o + HDR + size[o];
            Tiled(base, top, (size - {n})[o := size[o] + HDR + size[n]])
  {
    var n := o + HDR + size[o];
    var s := (size - {n})[o := size[o] + HDR + size[n]];
    assert ChunkOk(base, top, size, o);
    assert ChunkOk(base, top, size, n);
    forall p {:trigger ChunkOk(base, top, s, p)} | p in s ensures ChunkOk(base, top, s, p) {
      assert ChunkOk(base, top, size, p);
      if p != o { assert Apart(size, p, o); assert Apart(size, o, p); }
    }
    forall p, q {:trigger Apart(s, p, q)} | p in s && q in s ensures Apart(s, p, q) {
      assert Apart(size, p, q);
      if p == o && p < q { assert Apart(size, n, q); assert Apart(size, q, n); }
    }
  }

  lemma TiledExtend(base: nat, top: nat, size: map<nat, nat>, need: nat)
    requires Tiled(base, top, size) && top !in size && base <= top
    requires top % ALIGNMENT == 0 && need % ALIGNMENT == 0
    ensures Tiled(base, top + HDR + need, size[top := need])
  {
    var s := size[top := need];
    forall p {:trigger ChunkOk(base, top + HDR + need, s, p)} | p in s
      ensures ChunkOk(base, top + HDR + need, s, p)
    {
      if p != top { assert ChunkOk(base, top, size, p); }
    }
    forall p, q {:trigger Apart(s, p, q)} | p in s && q in s ensures Apart(s, p, q) {
      if p != top { assert ChunkOk(base, top, size, p); }
      if q != top { assert ChunkOk(base, top, size, q); }
      if p != top && q != top { assert Apart(size, p, q); }
    }
  }

  lemma TiledGrow(base: nat, top: nat, size: map<nat, nat>, o: nat, need: nat)
    requires Tiled(base, top, size) && o in size && o + HDR + size[o] == top
    requires need > size[o] && need % ALIGNMENT == 0
    ensures Tiled(base, o + HDR + need, size[o := need])
  {
    var s, t := size[o := need], o + HDR + need;
    assert ChunkOk(base, top, size, o);
    forall p {:trigger ChunkOk(base, t, s, p)} | p in s ensures ChunkOk(base, t, s, p) {
      assert ChunkOk(base, top, size, p);
      if p != o { assert Apart(size, p, o); assert Apart(size, o, p); }
    }
    forall p, q {:trigger Apart(s, p, q)} | p in s && q in s ensures Apart(s, p, q) {
      assert Apart(size, p, q);
      assert ChunkOk(base, top, size, q);
    }
  }

  lemma AlignedSum(o: nat, s: nat)
    requires o % ALIGNMENT == 0 && s % ALIGNMENT == 0
    ensures (o + HDR + s) % ALIGNMENT == 0
  {
    var a, b := o / ALIGNMENT, s / ALIGNMENT;
    assert o == 4 * a && s == 4 * b;
    assert o + HDR + s == 4 * (a + 4 + b);
  }

  /** Three chunks of 16 bytes, the middle one free, in an arena without room for more. */
  function Crowded(): Heap {
    Heap(16, 112, 112, map[16 := 16, 48 := 16, 80 := 16], [48])
  }

  /** The same heap with the first two chunks merged. */
  function Filled(): Heap {
    Heap(16, 112, 112, map[16 := 48, 80 := 16], [])
  }

  lemma CrowdedMerges()
    ensures Crowded().Valid() && Crowded().Live(16) && Crowded().Coalesce(16) == Filled()
  {
    var h := Crowded();
    assert h.Merge(16, 48).size == Filled().size;
    assert h.Coalesce(16) == Filled().Coalesce(16) == Filled();
  }

  lemma FilledRefuses(max: nat)
    ensures Filled().Valid() && Filled().Live(16) && Filled().Move(16, 64, max).1 == NULL
  {
    assert Filled().Defrag(max) == Filled() && Filled().Scanned(max) == [];
    Filled().AllocValid(64, max);
  }

  /** Asking for 64 bytes in place of the first chunk's 16 fails, and the chunk owns 48. */
  lemma FailedResizeInput(max: nat)
    ensures var h := Crowded(); h.Valid() && h.Live(16)
    ensures var (h, q) := Crowded().Resize(16, 64, max); q == NULL && 16 in h.size && h.size[16] == 48
  {
    CrowdedMerges();
    FilledRefuses(max);
    assert Align(64) == 64;
    Crowded().FailedResizeGrows(16, 64, max);
  }
}
