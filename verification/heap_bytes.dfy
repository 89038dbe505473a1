/** Whole runs over the bytes of the arena: calls of the allocator, and in between the owners
    of the blocks writing into them. */
module HeapBytes {
  import opened Basics
  import opened HeapModel
  import opened HeapRuns
  import opened Heapmem

  /** A call, or the owner of block `p` writing a byte at address `a` of it. */
  datatype Act = Does(c: Call) | Writes(p: nat, a: nat, b: byte)

  datatype Snapshot = Snapshot(h: Heap, m: seq<byte>)

  predicate Allowed(h: Heap, act: Act) {
    match act
    case Does(c) => Permitted(h, c)
    case Writes(p, a, _) => h.Live(p) && p + HDR <= a < h.End(p)
  }

  /** The act is the block's owner's own business. */
  predicate Concerns(act: Act, p: nat) {
    match act
    case Does(c) => Names(c, p)
    case Writes(q, _, _) => q == p
  }

  /** What the contracts of the allocator's entry points promise of one act. */
  ghost predicate Leads(s: Snapshot, act: Act, t: Snapshot, max: nat) {
    && s.h.Valid() && s.h.base + |s.m| == s.h.limit && |t.m| == |s.m| && Allowed(s.h, act)
    && match act
       case Does(c) =>
         t.h == Apply(s.h, c, max) && Kept(s.h.base, s.m, t.m, s.h.Blocks(), t.h.Blocks())
       case Writes(p, a, b) =>
         t.h == s.h && (forall i :: 0 <= i < |s.m| && s.h.base + i != a ==> t.m[i] == s.m[i])
  }

  /** One act on an arena. */
  method Perform(arena: Arena, act: Act)
    requires arena.Valid() && Allowed(arena.model, act)
    modifies arena, arena.mem
    ensures arena.Valid()
    ensures Leads(Snapshot(old(arena.model), old(arena.mem[..])), act,
                  Snapshot(arena.model, arena.mem[..]), arena.searchMax)
  {
    match act {
      case Does(Alloc(n)) => var r := arena.Alloc(n);
      case Does(Free(ptr)) => arena.Free(ptr);
      case Does(Realloc(ptr, n)) => var r := arena.Realloc(ptr, n);
      case Does(GetStats) => var a, b, c, d, e := arena.GetStats();
      case Writes(p, a, b) => arena.Store(p, a, b);
    }
  }

  /** One act leaves every block that it does not concern where it is, with its bytes. */
  lemma LeadsKeeps(s: Snapshot, act: Act, t: Snapshot, max: nat, p: nat)
    requires Leads(s, act, t, max) && p in s.h.Blocks() && !Concerns(act, p)
    ensures t.h.Valid() && t.h.base == s.h.base && t.h.limit == s.h.limit
    ensures p in t.h.Blocks() && t.h.Blocks()[p] == s.h.Blocks()[p]
    ensures Same(s.h.base, s.m, t.m, p + HDR, p + HDR + s.h.Blocks()[p])
  {
    match act {
      case Does(c) => ApplyValid(s.h, c, max);
      case Writes(q, a, _) => BlocksApart(s.h, p);
    }
  }

  ghost predicate Chain(ss: seq<Snapshot>, acts: seq<Act>, max: nat) {
    |ss| == |acts| + 1 && forall i {:trigger LeadsAt(ss, acts, i, max)} :: 0 <= i < |acts| ==> LeadsAt(ss, acts, i, max)
  }

  ghost predicate LeadsAt(ss: seq<Snapshot>, acts: seq<Act>, i: nat, max: nat)
    requires i < |acts| && i + 1 < |ss|
  {
    Leads(ss[i], acts[i], ss[i + 1], max)
  }

  /** Over every run, a block that no act concerns is live at the end where it was, as large
      as it was, and holds every byte that it held. */
  lemma {:induction false} RunKeepsBytes(ss: seq<Snapshot>, acts: seq<Act>, max: nat, p: nat)
    requires Chain(ss, acts, max) && p in ss[0].h.Blocks()
    requires forall act :: act in acts ==> !Concerns(act, p)
    ensures var s, t := ss[0], ss[|acts|];
      && p in t.h.Blocks() && t.h.Blocks()[p] == s.h.Blocks()[p]
      && Same(s.h.base, s.m, t.m, p + HDR, p + HDR + s.h.Blocks()[p])
    decreases |acts|
  {
    if acts != [] {
      assert LeadsAt(ss, acts, 0, max) && acts[0] in acts;
      LeadsKeeps(ss[0], acts[0], ss[1], max, p);
      ChainTail(ss, acts, max);
      RunKeepsBytes(ss[1..], acts[1..], max, p);
    }
  }

  lemma ChainTail(ss: seq<Snapshot>, acts: seq<Act>, max: nat)
    requires Chain(ss, acts, max) && acts != []
    ensures Chain(ss[1..], acts[1..], max)
  {
    forall i {:trigger LeadsAt(ss[1..], acts[1..], i, max)} | 0 <= i < |acts[1..]|
      ensures LeadsAt(ss[1..], acts[1..], i, max)
    {
      assert LeadsAt(ss, acts, i + 1, max);
    }
  }
}
