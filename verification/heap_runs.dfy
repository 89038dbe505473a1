/** Whole runs of the allocator: any sequence of calls that only names live blocks. */
module HeapRuns {
  import opened HeapModel

  datatype Call = Alloc(n: nat) | Free(ptr: nat) | Realloc(ptr: nat, n: nat) | GetStats

  /** What heapmem.h asks of callers: a pointer is NULL or belongs to a live block. */
  predicate Permitted(h: Heap, c: Call) {
    (c.Free? || c.Realloc?) && c.ptr != NULL ==> c.ptr >= HDR && h.Live(c.ptr - HDR)
  }

  predicate Names(c: Call, p: nat) {
    (c.Free? || c.Realloc?) && c.ptr == p + HDR
  }

  function Apply(h: Heap, c: Call, max: nat): Heap
    requires h.Valid() && Permitted(h, c)
  {
    match c
    case Alloc(n) => h.Alloc(n, max).0
    case Free(ptr) => if ptr == NULL then h else h.FreeChunk(ptr - HDR)
    case Realloc(ptr, n) => h.Realloc(ptr, n, max).0
    case GetStats => Sweep(h, h.base).0
  }

  /** One call keeps the heap sound and every block it does not name as it is. */
  lemma ApplyValid(h: Heap, c: Call, max: nat)
    requires h.Valid() && Permitted(h, c)
    ensures var g := Apply(h, c, max);
      && g.Valid() && g.base == h.base && g.limit == h.limit
      && forall p :: p in h.Blocks() && !Names(c, p) ==> p in g.Blocks() && g.Blocks()[p] == h.Blocks()[p]
  {
    match c
    case Alloc(n) => h.AllocValid(n, max);
    case Free(ptr) => if ptr != NULL { h.FreeChunkValid(ptr - HDR); }
    case Realloc(ptr, n) => h.ReallocValid(ptr, n, max);
    case GetStats =>
  }

  ghost predicate Legal(h: Heap, calls: seq<Call>, max: nat)
    requires h.Valid()
    decreases |calls|
  {
    calls != [] ==>
      Permitted(h, calls[0]) && (ApplyValid(h, calls[0], max); Legal(Apply(h, calls[0], max), calls[1..], max))
  }

  ghost function Run(h: Heap, calls: seq<Call>, max: nat): Heap
    requires h.Valid() && Legal(h, calls, max)
    decreases |calls|
  {
    if calls == [] then h
    else
      ApplyValid(h, calls[0], max);
      Run(Apply(h, calls[0], max), calls[1..], max)
  }

  /** Every heap a run of permitted calls can reach is sound, and a block that no call
      of the run names is live at the end with the size it had at the start. */
  lemma {:induction false} RunSound(h: Heap, calls: seq<Call>, max: nat)
    requires h.Valid() && Legal(h, calls, max)
    ensures var g := Run(h, calls, max);
      && g.Valid() && g.base == h.base && g.limit == h.limit
      && forall p :: p in h.Blocks() && (forall c :: c in calls ==> !Names(c, p)) ==>
           p in g.Blocks() && g.Blocks()[p] == h.Blocks()[p]
    decreases |calls|
  {
    if calls != [] {
      ApplyValid(h, calls[0], max);
      RunSound(Apply(h, calls[0], max), calls[1..], max);
      assert calls[0] in calls;
    }
  }

  /** In a sound heap the blocks are aligned, inside the arena, and each one's bytes end
      before the header of the next chunk, live or free, begins. */
  lemma BlocksApart(h: Heap, p: nat)
    requires h.Valid() && h.Live(p)
    ensures (p + HDR) % ALIGNMENT == 0 && h.base + HDR <= p + HDR && h.End(p) <= h.limit
    ensures forall q :: q in h.size && q != p ==> h.End(p) <= q || h.End(q) <= p
  {
    assert ChunkOk(h.base, h.top, h.size, p);
    forall q | q in h.size && q != p ensures h.End(p) <= q || h.End(q) <= p {
      assert Apart(h.size, p, q) && Apart(h.size, q, p);
    }
  }

  /** The free list and the live blocks together are all the chunks, and the chunks fill
      the used part of the arena: a walk from the first to the last visits them all. */
  lemma ChunksFillHeap(h: Heap, a: nat)
    requires h.Valid() && h.base <= a < h.top
    ensures exists o :: o in h.size && o <= a < h.End(o) && (o in h.free || h.Live(o))
  {
    var o := h.base;
    h.NonNull(o);
    while h.End(o) <= a
      invariant o in h.size && o <= a
      decreases a - o
    {
      assert ChunkOk(h.base, h.top, h.size, o);
      o := h.End(o);
    }
  }
}
