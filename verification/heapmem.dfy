/** os/lib/heapmem.c over the bytes of its arena. Chunk headers are little-endian words in
    the same array as the data, so writing a header overwrites whatever was there. */
module Heapmem {
  import opened Basics
  import opened Seqs
  import opened HeapModel

  const WORD: nat := 0x1_0000_0000

  /** chunk_t as the bytes of its header spell it. */
  datatype Header = Header(prev: nat, next: nat, size: nat, flags: byte)

  function AtOrNull(s: seq<nat>, i: int): nat {
    if 0 <= i < |s| then s[i] else NULL
  }

  ghost predicate LinkOk(hd: map<nat, Header>, s: seq<nat>, i: nat)
    requires i < |s|
  {
    s[i] in hd && hd[s[i]].prev == AtOrNull(s, i - 1) && hd[s[i]].next == AtOrNull(s, i + 1)
  }

  /** The headers of the chunks in `s` spell that list in both directions. */
  ghost predicate Linked(hd: map<nat, Header>, s: seq<nat>, head: nat) {
    head == AtOrNull(s, 0) && forall i {:trigger LinkOk(hd, s, i)} :: 0 <= i < |s| ==> LinkOk(hd, s, i)
  }

  /** flags | CHUNK_FLAG_ALLOCATED. */
  function Flagged(f: byte): byte {
    f - f % 2 + 1
  }

  /** The headers after chunk `c` is flagged and taken out of its list: two writes, to
      the neighbours its own header names. */
  function Unlink(hd: map<nat, Header>, c: nat): map<nat, Header>
    requires c in hd && hd[c].prev in hd.Keys + {NULL} && hd[c].next in hd.Keys + {NULL}
  {
    var prev, next := hd[c].prev, hd[c].next;
    var h0 := hd[c := hd[c].(flags := Flagged(hd[c].flags))];
    var h1 := if prev != NULL then h0[prev := h0[prev].(next := next)] else h0;
    if next != NULL then h1[next := h1[next].(prev := prev)] else h1
  }

  /** The header of a list member names its neighbours. */
  lemma Neighbours(hd: map<nat, Header>, s: seq<nat>, k: int)
    requires 0 <= k < |s| && Distinct(s) && Linked(hd, s, AtOrNull(s, 0))
    requires forall c :: c in s ==> c in hd && c != NULL
    ensures var p, n := hd[s[k]].prev, hd[s[k]].next;
      && p == AtOrNull(s, k - 1) && n == AtOrNull(s, k + 1)
      && (p == NULL <==> k == 0) && (k > 0 ==> p in hd && p != s[k])
      && (n == NULL <==> k == |s| - 1) && (k < |s| - 1 ==> n in hd && n != s[k] && n != p)
  {
    assert LinkOk(hd, s, k);
    assert k > 0 ==> s[k - 1] in s;
    assert k + 1 < |s| ==> s[k + 1] in s;
  }

  lemma UnlinkLinked(hd: map<nat, Header>, s: seq<nat>, k: int)
    requires 0 <= k < |s| && Distinct(s) && Linked(hd, s, AtOrNull(s, 0))
    requires forall c :: c in s ==> c in hd && c != NULL
    ensures LinkOk(hd, s, k)
    ensures hd[s[k]].prev in hd.Keys + {NULL} && hd[s[k]].next in hd.Keys + {NULL}
    ensures Linked(Unlink(hd, s[k]), Remove(s, s[k]), if hd[s[k]].prev == NULL then hd[s[k]].next else s[0])
  {
    Neighbours(hd, s, k);
    IndexOfAt(s, k);
    var r, hd' := Remove(s, s[k]), Unlink(hd, s[k]);
    forall i {:trigger LinkOk(hd', r, i)} | 0 <= i < |r| ensures LinkOk(hd', r, i) {
      var j := if i < k then i else i + 1;
      assert r[i] == s[j] && LinkOk(hd, s, j);
      assert k > 0 && s[j] == s[k - 1] ==> j == k - 1;
      assert k + 1 < |s| && s[j] == s[k + 1] ==> j == k + 1;
    }
  }

  /** The writes of allocate_chunk in the order it makes them; at the head of the list
      the successor's back link is written twice. */
  lemma UnlinkSteps(hd: map<nat, Header>, c: nat, h0: map<nat, Header>, h1: map<nat, Header>, h2: map<nat, Header>)
    requires c in hd && hd[c].prev in hd.Keys + {NULL} && hd[c].next in hd.Keys + {NULL}
    requires var p, n := hd[c].prev, hd[c].next;
      && p != c && n != c && (p == n ==> p == NULL)
      && h0 == hd[c := hd[c].(flags := Flagged(hd[c].flags))]
      && h1 == (if p != NULL then h0[p := h0[p].(next := n)]
                else if n != NULL then h0[n := h0[n].(prev := NULL)] else h0)
      && h2 == (if n != NULL then h1[n := h1[n].(prev := p)] else h1)
    ensures h2 == Unlink(hd, c)
  {
  }

  lemma UnlinkFacts(hd: map<nat, Header>, c: nat)
    requires c in hd && hd[c].prev in hd.Keys + {NULL} && hd[c].next in hd.Keys + {NULL}
    ensures var hd' := Unlink(hd, c);
      && hd'.Keys == hd.Keys && hd'[c].flags % 2 == 1
      && (forall o :: o in hd ==> hd'[o].size == hd[o].size && (o != c ==> hd'[o].flags == hd[o].flags))
  {
  }

  lemma LinkedSame(hd: map<nat, Header>, hd': map<nat, Header>, s: seq<nat>, head: nat)
    requires Linked(hd, s, head)
    requires forall c :: c in s ==> c in hd && c in hd' && hd'[c].prev == hd[c].prev && hd'[c].next == hd[c].next
    ensures Linked(hd', s, head)
  {
    forall i {:trigger LinkOk(hd', s, i)} | 0 <= i < |s| ensures LinkOk(hd', s, i) {
      assert LinkOk(hd, s, i);
    }
  }

  /** The headers after chunk `c` is put in front of the list that starts at `head`. */
  function Push(hd: map<nat, Header>, c: nat, head: nat): map<nat, Header>
    requires c in hd && head in hd.Keys + {NULL}
  {
    var h0 := hd[c := hd[c].(prev := NULL, next := head)];
    if head != NULL then h0[head := h0[head].(prev := c)] else h0
  }

  /** flags & ~CHUNK_FLAG_ALLOCATED. */
  function Unflagged(f: byte): byte {
    f - f % 2
  }

  lemma PushLinked(hd: map<nat, Header>, s: seq<nat>, c: nat)
    requires Distinct(s) && Linked(hd, s, AtOrNull(s, 0)) && c in hd && c !in s
    requires forall o :: o in s ==> o in hd && o != NULL
    ensures AtOrNull(s, 0) in hd.Keys + {NULL}
    ensures Linked(Push(hd, c, AtOrNull(s, 0)), [c] + s, c)
  {
    assert s != [] ==> s[0] in s;
    var r, hd' := [c] + s, Push(hd, c, AtOrNull(s, 0));
    forall i {:trigger LinkOk(hd', r, i)} | 0 <= i < |r| ensures LinkOk(hd', r, i) {
      if i > 0 { assert r[i] == s[i - 1] && LinkOk(hd, s, i - 1); }
      assert s != [] && i > 0 && r[i] == s[0] ==> i == 1;
    }
  }

  ghost predicate SizeOk(hd: map<nat, Header>, h: Heap, o: nat)
    requires o in hd && o in h.size
  {
    hd[o].size == h.size[o]
  }

  ghost predicate FlagOk(hd: map<nat, Header>, h: Heap, o: nat)
    requires o in hd
  {
    hd[o].flags % 2 == 0 <==> o in h.free
  }

  /** The headers describe the chunks of `h`; sizes may differ on `sx`, flags on `fx`. */
  ghost predicate Describes(hd: map<nat, Header>, h: Heap, sx: set<nat>, fx: set<nat>) {
    && hd.Keys == h.size.Keys
    && (forall o {:trigger SizeOk(hd, h, o)} :: o in hd && o in h.size && o !in sx ==> SizeOk(hd, h, o))
    && (forall o {:trigger FlagOk(hd, h, o)} :: o in hd && o !in fx ==> FlagOk(hd, h, o))
  }

  /** Address `a` lies in none of the headers at `k`. */
  ghost predicate Clear(k: set<nat>, a: nat) {
    forall o :: o in k ==> !(o <= a < o + HDR)
  }

  ghost predicate Gap(o: nat, p: nat) {
    o < p ==> o + HDR <= p
  }

  ghost predicate Spaced(k: set<nat>) {
    forall o, p {:trigger Gap(o, p)} :: o in k && p in k ==> Gap(o, p)
  }

  /** The bytes at addresses [lo, hi) are the same in both memories. */
  ghost predicate Same(base: nat, m0: seq<byte>, m1: seq<byte>, lo: nat, hi: nat) {
    |m0| == |m1| &&
    forall i :: 0 <= i < |m0| && lo <= base + i < hi ==> m0[i] == m1[i]
  }

  /** Blocks live before and after hold the same bytes, as far as both sizes reach. */
  ghost predicate Kept(base: nat, m0: seq<byte>, m1: seq<byte>, b0: map<nat, nat>, b1: map<nat, nat>) {
    |m0| == |m1| &&
    forall p :: p in b0 && p in b1 ==> Same(base, m0, m1, p + HDR, p + HDR + Min(b0[p], b1[p]))
  }

  class Arena {
    const base: nat
    const searchMax: nat
    const mem: array<byte>
    var usage: nat
    var freeList: nat
    ghost var hd: map<nat, Header>
    ghost var model: Heap

    /** An empty arena at a word-aligned address, all of it in one 32-bit address space. */
    constructor (address: nat, size: nat, max: nat)
      requires 0 < address && address % ALIGNMENT == 0 && address + size < WORD
      ensures Valid() && fresh(mem) && base == address && mem.Length == size && searchMax == max
      ensures model == Heap(address, address + size, address, map[], [])
    {
      base, searchMax := address, max;
      mem := new byte[size](_ => 0);
      usage, freeList := 0, NULL;
      hd, model := map[], Heap(address, address + size, address, map[], []);
    }

    function Word(i: nat): (w: nat)
      requires i + 4 <= mem.Length
      reads mem
      ensures w < WORD
    {
      mem[i] as int + 0x100 * mem[i + 1] as int + 0x1_0000 * mem[i + 2] as int + 0x100_0000 * mem[i + 3] as int
    }

    function HeaderAt(o: nat): Header
      requires base <= o && o + HDR <= base + mem.Length
      reads mem
    {
      Header(Word(o - base), Word(o - base + 4), Word(o - base + 8), mem[o - base + 12])
    }

    /** The bytes at `o` are inside the arena and spell `h`. */
    ghost predicate Spells(o: nat, h: Header)
      reads mem
    {
      base <= o && o + HDR <= base + mem.Length && HeaderAt(o) == h
    }

    /** `hd` is what the arena's bytes say, and no two headers overlap. */
    ghost predicate Headers()
      reads this, mem
    {
      && base + mem.Length < WORD
      && (forall o {:trigger Spells(o, hd[o])} :: o in hd ==> Spells(o, hd[o]))
      && Spaced(hd.Keys)
    }

    method WriteWord(i: nat, v: nat)
      requires i + 4 <= mem.Length && v < WORD
      modifies mem
      ensures Word(i) == v
      ensures forall j :: 0 <= j < mem.Length && !(i <= j < i + 4) ==> mem[j] == old(mem[j])
    {
      WordDigits(v);
      mem[i] := v % 0x100;
      mem[i + 1] := v / 0x100 % 0x100;
      mem[i + 2] := v / 0x1_0000 % 0x100;
      mem[i + 3] := v / 0x100_0000;
    }

    /** Writing inside one header leaves the others spelling what they spelt. */
    twostate lemma OtherHeaders(o: nat)
      requires old(Headers()) && o in old(hd)
      requires forall i :: 0 <= i < mem.Length && !(o <= base + i < o + HDR) ==> mem[i] == old(mem[i])
      ensures forall p {:trigger Spells(p, old(hd)[p])} :: p in old(hd) && p != o ==> Spells(p, old(hd)[p])
    {
      forall p {:trigger Spells(p, old(hd)[p])} | p in old(hd) && p != o ensures Spells(p, old(hd)[p]) {
        assert Gap(o, p) && Gap(p, o);
        assert old(Spells(p, hd[p]));
      }
    }

    /** The headers are sound again once `hd` is told what was written at `o`. */
    twostate lemma HeadersAgain(o: nat)
      requires base <= o && o + HDR <= base + mem.Length
      requires old(Headers()) && o in old(hd) && hd == old(hd)[o := HeaderAt(o)]
      requires forall p {:trigger Spells(p, old(hd)[p])} :: p in old(hd) && p != o ==> Spells(p, old(hd)[p])
      ensures Headers()
    {
      assert hd.Keys == old(hd).Keys;
      forall p {:trigger Spells(p, hd[p])} | p in hd ensures Spells(p, hd[p]) {
        if p != o { assert Spells(p, old(hd)[p]); }
      }
    }

    twostate lemma WordSame(i: nat)
      requires i + 4 <= mem.Length
      requires forall k :: i <= k < i + 4 ==> mem[k] == old(mem[k])
      ensures Word(i) == old(Word(i))
    {
    }

    method SetPrev(o: nat, v: nat)
      requires Headers() && o in hd && v < WORD
      modifies this`hd, mem
      ensures Headers() && hd == old(hd)[o := old(hd)[o].(prev := v)]
      ensures forall i :: 0 <= i < mem.Length && !(o <= base + i < o + HDR) ==> mem[i] == old(mem[i])
    {
      assert old(Spells(o, hd[o]));
      WriteWord(o - base, v);
      WordSame(o - base + 4);
      WordSame(o - base + 8);
      OtherHeaders(o);
      hd := hd[o := HeaderAt(o)];
      HeadersAgain(o);
    }

    method SetNext(o: nat, v: nat)
      requires Headers() && o in hd && v < WORD
      modifies this`hd, mem
      ensures Headers() && hd == old(hd)[o := old(hd)[o].(next := v)]
      ensures forall i :: 0 <= i < mem.Length && !(o <= base + i < o + HDR) ==> mem[i] == old(mem[i])
    {
      assert old(Spells(o, hd[o]));
      WriteWord(o - base + 4, v);
      WordSame(o - base);
      WordSame(o - base + 8);
      OtherHeaders(o);
      hd := hd[o := HeaderAt(o)];
      HeadersAgain(o);
    }

    method SetSize(o: nat, v: nat)
      requires Headers() && o in hd && v < WORD
      modifies this`hd, mem
      ensures Headers() && hd == old(hd)[o := old(hd)[o].(size := v)]
      ensures forall i :: 0 <= i < mem.Length && !(o <= base + i < o + HDR) ==> mem[i] == old(mem[i])
    {
      assert old(Spells(o, hd[o]));
      WriteWord(o - base + 8, v);
      WordSame(o - base);
      WordSame(o - base + 4);
      OtherHeaders(o);
      hd := hd[o := HeaderAt(o)];
      HeadersAgain(o);
    }

    method SetFlags(o: nat, v: byte)
      requires Headers() && o in hd
      modifies this`hd, mem
      ensures Headers() && hd == old(hd)[o := old(hd)[o].(flags := v)]
      ensures forall i :: 0 <= i < mem.Length && !(o <= base + i < o + HDR) ==> mem[i] == old(mem[i])
    {
      assert old(Spells(o, hd[o]));
      mem[o - base + 12] := v;
      WordSame(o - base);
      WordSame(o - base + 4);
      WordSame(o - base + 8);
      OtherHeaders(o);
      hd := hd[o := HeaderAt(o)];
      HeadersAgain(o);
    }

    /** The arena and the free list are sound, whatever the sizes in the headers say. */
    ghost predicate Base()
      reads this, mem
    {
      && Headers() && model.Valid()
      && model.base == base && model.top == base + usage && model.limit == base + mem.Length
      && Linked(hd, model.free, freeList)
    }

    ghost predicate Valid()
      reads this, mem
    {
      Base() && Describes(hd, model, {}, {})
    }

    /** NEXT_CHUNK. */
    function NextChunk(o: nat): nat
      requires base <= o && o + HDR <= base + mem.Length
      reads mem
    {
      o + HDR + Word(o - base + 8)
    }

    /** CHUNK_FREE. */
    predicate ChunkFree(o: nat)
      requires base <= o && o + HDR <= base + mem.Length
      reads mem
    {
      mem[o - base + 12] % 2 == 0
    }

    /** The writes of allocate_chunk, which look at nothing but headers. */
    method FlagAndUnlink(chunk: nat)
      requires Headers() && chunk in hd
      requires var p, n := hd[chunk].prev, hd[chunk].next;
        && p in hd.Keys + {NULL} && n in hd.Keys + {NULL} && NULL !in hd
        && p != chunk && n != chunk && (p == n ==> p == NULL)
        && (chunk == freeList <==> p == NULL)
      modifies this`hd, this`freeList, mem
      ensures Headers() && hd == Unlink(old(hd), chunk)
      ensures freeList == if old(hd)[chunk].prev == NULL then old(hd)[chunk].next else old(freeList)
      ensures forall i :: 0 <= i < mem.Length && Clear(old(hd).Keys, base + i) ==> mem[i] == old(mem[i])
    {
      assert Spells(chunk, hd[chunk]);
      var f, next, prev := mem[chunk - base + 12], Word(chunk - base + 4), Word(chunk - base);
      SetFlags(chunk, Flagged(f));
      ghost var h0 := hd;
      if chunk == freeList {
        freeList := next;
        if freeList != NULL {
          SetPrev(freeList, NULL);
          assert hd == h0[next := h0[next].(prev := NULL)];
        }
      } else {
        SetNext(prev, next);
        assert hd == h0[prev := h0[prev].(next := next)];
      }
      ghost var h1 := hd;
      if next != NULL {
        SetPrev(next, prev);
        assert hd == h1[next := h1[next].(prev := prev)];
      }
      UnlinkSteps(old(hd), chunk, h0, h1, hd);
    }

    /** allocate_chunk: the chunk leaves the free list and is flagged. Sizes are not
        looked at, so a caller may already have grown the chunk before it. */
    method AllocateChunk(chunk: nat)
      requires Headers() && Distinct(model.free) && Linked(hd, model.free, freeList) && chunk in model.free
      requires NULL !in hd && forall c :: c in model.free ==> c in hd
      modifies this`hd, this`freeList, mem
      ensures Headers()
      ensures chunk in old(hd) && old(hd)[chunk].prev in old(hd).Keys + {NULL}
      ensures old(hd)[chunk].next in old(hd).Keys + {NULL}
      ensures hd == Unlink(old(hd), chunk)
      ensures Linked(hd, Remove(model.free, chunk), freeList)
      ensures forall i :: 0 <= i < mem.Length && Clear(old(hd).Keys, base + i) ==> mem[i] == old(mem[i])
    {
      ghost var k := IndexOf(model.free, chunk);
      Neighbours(hd, model.free, k);
      UnlinkLinked(hd, model.free, k);
      FlagAndUnlink(chunk);
    }

    /** free_chunk's writes when the chunk is not the last one. */
    method Unflag(chunk: nat)
      requires Headers() && chunk in hd
      modifies this`hd, mem
      ensures Headers() && hd == old(hd)[chunk := old(hd)[chunk].(flags := Unflagged(old(hd)[chunk].flags))]
      ensures forall i :: 0 <= i < mem.Length && Clear(old(hd).Keys, base + i) ==> mem[i] == old(mem[i])
    {
      assert Spells(chunk, hd[chunk]);
      SetFlags(chunk, Unflagged(mem[chunk - base + 12]));
    }

    method PushFree(chunk: nat)
      requires Headers() && chunk in hd
      requires freeList in hd.Keys + {NULL} && NULL !in hd && chunk != freeList
      modifies this`hd, this`freeList, mem
      ensures Headers() && hd == Push(old(hd), chunk, old(freeList)) && freeList == chunk
      ensures forall i :: 0 <= i < mem.Length && Clear(old(hd).Keys, base + i) ==> mem[i] == old(mem[i])
    {
      assert Spells(chunk, hd[chunk]);
      assert freeList != NULL ==> Spells(freeList, hd[freeList]);
      SetPrev(chunk, NULL);
      SetNext(chunk, freeList);
      ghost var h0 := hd;
      assert h0 == old(hd)[chunk := old(hd)[chunk].(prev := NULL, next := freeList)];
      if freeList != NULL {
        SetPrev(freeList, chunk);
        assert hd == h0[freeList := h0[freeList].(prev := chunk)];
      }
      freeList := chunk;
    }

    /** free_chunk. The sizes in the headers of `sx` need not be right yet. */
    method FreeChunk(chunk: nat, ghost sx: set<nat>)
      requires Base() && Describes(hd, model, sx, {chunk}) && chunk !in sx && model.Live(chunk)
      modifies this, mem
      ensures Base() && Describes(hd, model, sx, {}) && model == old(model).FreeChunk(chunk)
      ensures forall i :: 0 <= i < mem.Length && Clear(old(hd).Keys, base + i) ==> mem[i] == old(mem[i])
    {
      ghost var h := model;
      h.FreeChunkValid(chunk);
      assert SizeOk(hd, h, chunk);
      assert NULL !in hd by { assert NULL in h.size ==> ChunkOk(h.base, h.top, h.size, NULL); }
      Unflag(chunk);
      ghost var hd1 := hd;
      LinkedSame(old(hd), hd, h.free, freeList);
      assert Spells(chunk, hd[chunk]);
      model := h.FreeChunk(chunk);
      if NextChunk(chunk) == base + usage {
        usage := usage - (HDR + Word(chunk - base + 8));
        hd := hd - {chunk};
        LinkedSame(hd1, hd, h.free, freeList);
        ReleasedDescribes(old(hd), hd, h, chunk, sx);
      } else {
        PushLinked(hd, h.free, chunk);
        PushFree(chunk);
        PushedDescribes(old(hd), hd, h, chunk, sx);
      }
    }

    /** Adds the next chunk, its header included, to the size field of this one. */
    method AddSize(chunk: nat, next: nat)
      requires Valid() && chunk in model.size && next in model.size
      requires model.size[chunk] + HDR + model.size[next] < WORD
      modifies this`hd, mem
      ensures Headers() && Linked(hd, model.free, freeList)
      ensures hd == old(hd)[chunk := old(hd)[chunk].(size := model.size[chunk] + HDR + model.size[next])]
      ensures forall i :: 0 <= i < mem.Length && Clear(old(hd).Keys, base + i) ==> mem[i] == old(mem[i])
    {
      assert SizeOk(hd, model, chunk) && SizeOk(hd, model, next);
      assert Spells(chunk, hd[chunk]) && Spells(next, hd[next]);
      SetSize(chunk, Word(chunk - base + 8) + HDR + Word(next - base + 8));
      LinkedSame(old(hd), hd, model.free, freeList);
    }

    /** The two statements of the loop in coalesce_chunks, as far as headers go. */
    method AbsorbHeader(chunk: nat, next: nat)
      requires Valid() && chunk in model.size && model.CanMerge(chunk) && next == model.End(chunk)
      modifies this`hd, this`freeList, mem
      ensures Headers() && next in hd && Linked(hd, Remove(model.free, next), freeList)
      ensures AbsorbedHeaders(old(hd), model, chunk, hd)
      ensures forall i :: 0 <= i < mem.Length && Clear(old(hd).Keys, base + i) ==> mem[i] == old(mem[i])
    {
      AbsorbReady(hd, model, chunk, freeList);
      ghost var before := hd;
      AddSize(chunk, next);
      ghost var sized := hd;
      assert sized.Keys == before.Keys;
      AllocateChunk(next);
      AbsorbedSteps(before, model, chunk, sized, hd);
    }

    /** One turn of the loop in coalesce_chunks: the free chunk after `chunk` is added
        to it and taken off the list. Returns the address of the chunk after that. */
    method Absorb(chunk: nat, next: nat) returns (following: nat)
      requires Valid() && chunk in model.size && model.CanMerge(chunk) && next == model.End(chunk)
      modifies this`hd, this`freeList, this`model, mem
      ensures Valid() && model == old(model).Merge(chunk, next) && following == model.End(chunk)
      ensures forall i :: 0 <= i < mem.Length && Clear(old(hd).Keys, base + i) ==> mem[i] == old(mem[i])
    {
      ghost var before := hd;
      AbsorbHeader(chunk, next);
      AbsorbedDescribes(before, model, chunk, hd);
      following := ReadNext(next);
      Forget(next, model.Merge(chunk, next));
    }

    method ReadNext(o: nat) returns (n: nat)
      requires Headers() && o in hd
      ensures n == o + HDR + hd[o].size
    {
      assert Spells(o, hd[o]);
      n := NextChunk(o);
    }

    /** Drops a chunk from the model; the bytes of its header stay behind as data. */
    ghost method Forget(c: nat, g: Heap)
      requires Headers() && Linked(hd, g.free, freeList) && c !in g.free
      requires g.Valid() && g.base == base && g.top == base + usage && g.limit == base + mem.Length
      requires Describes(hd - {c}, g, {}, {})
      modifies this`hd, this`model
      ensures Valid() && model == g
    {
      LinkedSame(hd, hd - {c}, g.free, freeList);
      hd := hd - {c};
      model := g;
    }

    /** Sound, and since the state (`h`, `m`) every block that was live has stayed live,
        no smaller, with the bytes it held. */
    ghost predicate Since(h: Heap, m: seq<byte>)
      reads this, mem
    {
      Valid() && Grown(h.Blocks(), model.Blocks()) && Kept(base, m, mem[..], h.Blocks(), model.Blocks())
    }

    /** `n` is the chunk after `chunk` and, below the top, has a readable header. */
    ghost predicate IsNext(chunk: nat, n: nat)
      reads this, mem
    {
      && chunk in model.size && n == model.End(chunk)
      && (n < model.top ==> n in model.size && n in hd && Spells(n, hd[n]) && FlagOk(hd, model, n))
    }

    method AbsorbSince(chunk: nat, next: nat, ghost h: Heap, ghost m: seq<byte>) returns (following: nat)
      requires Since(h, m) && chunk in model.size && model.CanMerge(chunk) && next == model.End(chunk)
      modifies this`hd, this`freeList, this`model, mem
      ensures Since(h, m) && model == old(model).Merge(chunk, next)
      ensures IsNext(chunk, following)
    {
      model.MergeValid(chunk);
      following := Absorb(chunk, next);
      ClearKept(old(model), old(mem[..]), mem[..], model.Blocks());
      KeptTrans(base, m, old(mem[..]), mem[..], h.Blocks(), old(model).Blocks(), model.Blocks());
      Following(chunk);
    }

    /** coalesce_chunks. */
    method CoalesceChunks(chunk: nat)
      requires Valid() && chunk in model.size
      modifies this`hd, this`freeList, this`model, mem
      ensures Since(old(model), old(mem[..])) && model == old(model).Coalesce(chunk)
    {
      ghost var h, m := model, mem[..];
      h.CoalesceValid(chunk);
      assert Spells(chunk, hd[chunk]) && SizeOk(hd, h, chunk);
      var next: nat := NextChunk(chunk);
      Following(chunk);
      while next < base + usage && ChunkFree(next)
        invariant Since(h, m) && IsNext(chunk, next) && model.Coalesce(chunk) == h.Coalesce(chunk)
        decreases |model.free|
      {
        model.MergeValid(chunk);
        next := AbsorbSince(chunk, next, h, m);
      }
    }

    /** The chunk after `chunk`, if there is one, has a readable header. */
    lemma Following(chunk: nat)
      requires Valid() && chunk in model.size
      ensures IsNext(chunk, model.End(chunk))
    {
      assert ChunkOk(model.base, model.top, model.size, chunk);
    }

    lemma SinceTrans(h: Heap, m: seq<byte>, h1: Heap, m1: seq<byte>)
      requires Grown(h.Blocks(), h1.Blocks()) && Kept(base, m, m1, h.Blocks(), h1.Blocks())
      requires Since(h1, m1)
      ensures Since(h, m)
    {
    }

    /** chunk->next of a chunk on the free list. */
    method NextFree(chunk: nat) returns (next: nat)
      requires Valid() && chunk in model.free
      ensures next == After(model.free, chunk, NULL) && (next == NULL || next in model.free)
    {
      ghost var k := IndexOf(model.free, chunk);
      assert LinkOk(hd, model.free, k) && Spells(chunk, hd[chunk]);
      next := Word(chunk - base + 4);
    }

    method CoalesceSince(chunk: nat, ghost h: Heap, ghost m: seq<byte>)
      requires Since(h, m) && chunk in model.size
      modifies this`hd, this`freeList, this`model, mem
      ensures Since(h, m) && model == old(model).Coalesce(chunk)
    {
      CoalesceChunks(chunk);
      SinceTrans(h, m, old(model), old(mem[..]));
    }

    method DefragStep(chunk: nat, ghost h: Heap, ghost m: seq<byte>) returns (next: nat)
      requires Since(h, m) && chunk in model.free
      modifies this`hd, this`freeList, this`model, mem
      ensures Since(h, m) && model == old(model).Coalesce(chunk) && chunk in model.free
      ensures next == After(model.free, chunk, NULL) && (next == NULL || next in model.free)
    {
      model.CoalesceValid(chunk);
      CoalesceSince(chunk, h, m);
      next := NextFree(chunk);
    }

    /** The walk stands on a member of the list and what is left of it does what the
        whole walk over `h` was to do. */
    ghost predicate Walking(chunk: nat, i: int, h: Heap, m: seq<byte>)
      reads this, mem
    {
      && Since(h, m) && i >= 0 && h.Valid() && (chunk == NULL || chunk in model.free)
      && model.DefragFrom(chunk, i) == h.Defrag(searchMax)
    }

    method DefragTurn(chunk: nat, i: int, ghost h: Heap, ghost m: seq<byte>) returns (next: nat)
      requires i >= 0 && Walking(chunk, i + 1, h, m) && chunk != NULL
      modifies this`hd, this`freeList, this`model, mem
      ensures Walking(next, i, h, m)
    {
      model.DefragStep(chunk, i + 1);
      next := DefragStep(chunk, h, m);
    }

    lemma WalkEnds(chunk: nat, i: int, h: Heap, m: seq<byte>)
      requires Walking(chunk, i, h, m) && (chunk == NULL || i == 0)
      ensures Since(h, m) && model == h.Defrag(searchMax)
    {
    }

    lemma WalkStarts(h: Heap, m: seq<byte>)
      requires Valid() && h == model && m == mem[..]
      ensures Walking(freeList, searchMax, h, m)
    {
    }

    /** defrag_chunks: the list changes under the walk, but the chunk the walk stands on
        stays a member. */
    method DefragChunks()
      requires Valid()
      modifies this`hd, this`freeList, this`model, mem
      ensures Since(old(model), old(mem[..])) && model == old(model).Defrag(searchMax)
    {
      ghost var h, m := model, mem[..];
      var i: int := searchMax;
      var chunk := freeList;
      WalkStarts(h, m);
      while chunk != NULL
        invariant i >= 0 && Walking(chunk, i, h, m)
        decreases i + 1
      {
        if i == 0 { break; }
        i := i - 1;
        chunk := DefragTurn(chunk, i, h, m);
      }
      WalkEnds(chunk, i, h, m);
    }

    /** Makes a header out of HDR bytes of data and writes its size. */
    method NewHeader(n: nat, size: nat)
      requires Headers() && base <= n && n + HDR <= base + mem.Length && size < WORD
      requires n !in hd && forall o :: o in hd ==> o + HDR <= n || n + HDR <= o
      modifies this`hd, mem
      ensures Headers() && hd == old(hd)[n := old(HeaderAt(n)).(size := size)]
      ensures forall i :: 0 <= i < mem.Length && !(n <= base + i < n + HDR) ==> mem[i] == old(mem[i])
    {
      hd := hd[n := HeaderAt(n)];
      assert Headers() by {
        forall o {:trigger Spells(o, hd[o])} | o in hd ensures Spells(o, hd[o]) {
          if o != n { assert Spells(o, old(hd)[o]); }
        }
        assert forall o, p {:trigger Gap(o, p)} :: o in old(hd).Keys && p in old(hd).Keys ==> Gap(o, p);
      }
      SetSize(n, size);
    }

    method NewFreeHeader(n: nat, size: nat)
      requires Headers() && base <= n && n + HDR <= base + mem.Length && size < WORD
      requires n !in hd && forall o :: o in hd ==> o + HDR <= n || n + HDR <= o
      modifies this`hd, mem
      ensures Headers() && hd == old(hd)[n := old(HeaderAt(n)).(size := size, flags := 0)]
      ensures forall i :: 0 <= i < mem.Length && !(n <= base + i < n + HDR) ==> mem[i] == old(mem[i])
    {
      NewHeader(n, size);
      SetFlags(n, 0);
    }

    /** Writes the cut size and clears both links. */
    method TrimHeader(chunk: nat, offset: nat)
      requires Headers() && chunk in hd && offset < WORD
      modifies this`hd, mem
      ensures Headers() && hd == old(hd)[chunk := Header(NULL, NULL, offset, old(hd)[chunk].flags)]
      ensures forall i :: 0 <= i < mem.Length && !(chunk <= base + i < chunk + HDR) ==> mem[i] == old(mem[i])
    {
      SetSize(chunk, offset);
      SetPrev(chunk, NULL);
      SetNext(chunk, NULL);
    }

    /** split_chunk. */
    method SplitChunk(chunk: nat, offset: nat)
      requires Valid() && model.Live(chunk) && Align(offset) <= model.size[chunk]
      modifies this, mem
      ensures Valid() && model == old(model).Split(chunk, offset)
      ensures Kept(base, old(mem[..]), mem[..], old(model).Blocks(), model.Blocks())
    {
      var off := Align(offset);
      assert SizeOk(hd, model, chunk) && Spells(chunk, hd[chunk]);
      var size := Word(chunk - base + 8);
      if off + HDR < size {
        CutAndFree(chunk, off);
        old(model).CutValid(chunk, off);
        ClearKept(old(model).Cut(chunk, off), old(mem[..]), mem[..], model.Blocks());
      }
    }

    method CutAndFree(chunk: nat, off: nat)
      requires Valid() && model.Live(chunk) && off % ALIGNMENT == 0 && off + HDR < model.size[chunk]
      modifies this, mem
      ensures Valid() && model == old(model).Cut(chunk, off).FreeChunk(chunk + HDR + off)
      ensures forall i :: 0 <= i < mem.Length && Clear(old(model).Cut(chunk, off).size.Keys, base + i) ==>
        mem[i] == old(mem[i])
    {
      ghost var h, g := model, model.Cut(chunk, off);
      var new_chunk := chunk + HDR + off;
      CutReady(hd, h, chunk, off);
      assert Spells(chunk, hd[chunk]);
      NewFreeHeader(new_chunk, Word(chunk - base + 8) - HDR - off);
      LinkedSame(old(hd), hd, h.free, freeList);
      model := g;
      FreeChunk(new_chunk, {chunk});
      ghost var hd1 := hd;
      TrimHeader(chunk, off);
      LinkedSame(hd1, hd, model.free, freeList);
      TrimDescribes(hd1, hd, model, chunk);
    }

    /** The size field of a chunk. */
    method ReadSize(o: nat) returns (n: nat)
      requires Valid() && o in model.size
      ensures n == model.size[o]
    {
      assert SizeOk(hd, model, o) && Spells(o, hd[o]);
      n := Word(o - base + 8);
    }

    /** chunk->next of the free list's member number `k`. */
    method ReadLink(o: nat, ghost k: nat) returns (n: nat)
      requires Valid() && k < |model.free| && o == model.free[k]
      ensures n == AtOrNull(model.free, k + 1)
    {
      assert LinkOk(hd, model.free, k) && Spells(o, hd[o]);
      n := Word(o - base + 4);
    }

    /** The search loop of get_free_chunk: the best fit among the first `searchMax`
        members of the free list, or NULL. */
    method FindBest(size: nat) returns (best: nat)
      requires Valid()
      ensures best == NULL || best in model.Scanned(searchMax)
      ensures forall c :: c in model.Scanned(searchMax) ==> c in model.size && c != NULL
      ensures model.IsBestFit(size, model.Scanned(searchMax), best)
    {
      ghost var s := model.Scanned(searchMax);
      ghost var k := 0;
      forall c | c in s ensures c in model.size && c != NULL { model.NonNull(c); }
      best := NULL;
      var i: int := searchMax;
      var chunk := freeList;
      while chunk != NULL
        invariant 0 <= k <= |s| && i == searchMax - k
        invariant chunk == AtOrNull(model.free, k)
        invariant model.IsBestFit(size, s[..k], best)
        invariant best != NULL ==> best in s
        decreases |s| - k
      {
        if i == 0 { break; }
        i := i - 1;
        assert chunk == s[k] && chunk in s;
        model.BestFitStep(size, s, k, best);
        var chunkSize := ReadSize(chunk);
        if size <= chunkSize {
          var bestSize := chunkSize;
          if best != NULL { bestSize := ReadSize(best); }
          if best == NULL || chunkSize < bestSize { best, bestSize := chunk, chunkSize; }
          if bestSize == size {
            model.PerfectFit(size, s, k + 1, best);
            return;
          }
        }
        chunk := ReadLink(chunk, k);
        k := k + 1;
      }
      assert forall j :: 0 <= j < |s| ==> model.free[j] == s[j] && s[j] in s;
      assert s[..k] == s;
    }

    /** allocate_chunk in a sound heap. */
    method TakeFree(chunk: nat)
      requires Valid() && chunk in model.free
      modifies this`hd, this`freeList, this`model, mem
      ensures Since(old(model), old(mem[..])) && model == old(model).TakeChunk(chunk)
    {
      ghost var h := model;
      h.TakeChunkValid(chunk);
      assert NULL !in hd by { assert NULL in h.size ==> ChunkOk(h.base, h.top, h.size, NULL); }
      AllocateChunk(chunk);
      TakenDescribes(old(hd), h, chunk);
      model := h.TakeChunk(chunk);
      ClearKept(h, old(mem[..]), mem[..], model.Blocks());
    }

    method SplitSince(chunk: nat, offset: nat, ghost h: Heap, ghost m: seq<byte>)
      requires Since(h, m) && model.Live(chunk) && chunk !in h.Blocks() && Align(offset) <= model.size[chunk]
      modifies this, mem
      ensures Since(h, m) && model == old(model).Split(chunk, offset)
    {
      model.SplitValid(chunk, offset);
      SplitChunk(chunk, offset);
      KeptTrans(base, m, old(mem[..]), mem[..], h.Blocks(), old(model).Blocks(), model.Blocks());
    }

    /** The first half of get_free_chunk: defragment, then search. */
    method FindFree(size: nat) returns (best: nat)
      requires Valid()
      modifies this`hd, this`freeList, this`model, mem
      ensures Since(old(model), old(mem[..])) && model == old(model).Defrag(searchMax)
      ensures forall c :: c in model.Scanned(searchMax) ==> c in model.size && c != NULL
      ensures best == model.BestFit(size, model.Scanned(searchMax))
      ensures best != NULL ==> best in model.free && size <= model.size[best]
    {
      DefragChunks();
      best := FindBest(size);
      ghost var s := model.Scanned(searchMax);
      model.BestFitUnique(size, s, best, model.BestFit(size, s));
    }

    method TakeFreeSince(chunk: nat, ghost h: Heap, ghost m: seq<byte>)
      requires Since(h, m) && chunk in model.free
      modifies this`hd, this`freeList, this`model, mem
      ensures Since(h, m) && model == old(model).TakeChunk(chunk)
    {
      TakeFree(chunk);
      SinceTrans(h, m, old(model), old(mem[..]));
    }

    /** get_free_chunk. */
    method GetFreeChunk(size: nat) returns (best: nat)
      requires Valid() && size % ALIGNMENT == 0
      modifies this, mem
      ensures Since(old(model), old(mem[..]))
      ensures (model, best) == old(model).Defrag(searchMax).TakeBest(size, searchMax)
    {
      ghost var h, m := model, mem[..];
      best := FindFree(size);
      if best != NULL {
        assert best !in model.Blocks();
        AlignFixed(size);
        model.TakeChunkValid(best);
        RemoveMembers(model.free, best);
        TakeFreeSince(best, h, m);
        SplitSince(best, size, h, m);
      }
    }

    /** extend_space: the old end of the heap, or NULL and no change. */
    method ExtendSpace(size: nat) returns (oldEnd: nat)
      requires base > 0 && usage <= mem.Length
      modifies this`usage
      ensures oldEnd == if old(usage) + size > mem.Length then NULL else base + old(usage)
      ensures usage == (if oldEnd == NULL then old(usage) else old(usage) + size) && usage <= mem.Length
    {
      if usage + size > mem.Length { return NULL; }
      oldEnd := base + usage;
      usage := usage + size;
    }

    /** chunk->flags = CHUNK_FLAG_ALLOCATED. */
    method MarkAllocated(chunk: nat)
      requires Base() && Describes(hd, model, {}, {chunk}) && model.Live(chunk)
      modifies this`hd, mem
      ensures Valid()
      ensures forall i :: 0 <= i < mem.Length && !(chunk <= base + i < chunk + HDR) ==> mem[i] == old(mem[i])
    {
      SetFlags(chunk, 1);
      LinkedSame(old(hd), hd, model.free, freeList);
      MarkedDescribes(old(hd), hd, model, chunk);
    }

    /** The last resort of heapmem_alloc: a new chunk at the old end of the heap. */
    method ExtendHeap(size: nat) returns (chunk: nat)
      requires Valid() && size % ALIGNMENT == 0
      modifies this, mem
      ensures (model, chunk) == old(model).Extend(size)
      ensures Base() && Describes(hd, model, {}, {chunk}) && (chunk == NULL ==> Valid())
      ensures Grown(old(model).Blocks(), model.Blocks())
      ensures Kept(base, old(mem[..]), mem[..], old(model).Blocks(), model.Blocks())
    {
      ghost var h := model;
      h.TopAligned();
      h.ExtendValid(size);
      ExtendReady(hd, h, size);
      chunk := ExtendSpace(HDR + size);
      if chunk != NULL {
        NewHeader(chunk, size);
        LinkedSame(old(hd), hd, h.free, freeList);
        model := h.Extend(size).0;
        AboveKept(h, old(mem[..]), mem[..], model.Blocks());
      }
    }

    /** A chunk from the free list or from the wilderness, not yet flagged. */
    method Obtain(size: nat) returns (chunk: nat)
      requires Valid() && size % ALIGNMENT == 0
      modifies this, mem
      ensures Base() && Describes(hd, model, {}, {chunk}) && (chunk == NULL ==> Valid())
      ensures Grown(old(model).Blocks(), model.Blocks())
      ensures Kept(base, old(mem[..]), mem[..], old(model).Blocks(), model.Blocks())
      ensures var (h, b) := old(model).Defrag(searchMax).TakeBest(size, searchMax);
        (model, chunk) == if b != NULL then (h, b) else h.Extend(size)
    {
      chunk := GetFreeChunk(size);
      if chunk == NULL {
        ghost var d, m1 := model, mem[..];
        chunk := ExtendHeap(size);
        KeptTrans(base, old(mem[..]), m1, mem[..], old(model).Blocks(), d.Blocks(), model.Blocks());
      }
    }

    /** heapmem_alloc up to GET_PTR. */
    method AllocChunk(n: nat) returns (chunk: nat)
      requires Valid()
      modifies this, mem
      ensures Since(old(model), old(mem[..]))
      ensures (model, chunk) == old(model).Alloc(n, searchMax)
    {
      ghost var h, m := model, mem[..];
      h.AllocValid(n, searchMax);
      chunk := Obtain(Align(n));
      if chunk == NULL { return; }
      ghost var m1 := mem[..];
      MarkAllocated(chunk);
      HeaderKept(model, chunk, m1, mem[..], model.Blocks());
      KeptTrans(base, m, m1, mem[..], h.Blocks(), model.Blocks(), model.Blocks());
    }

    /** heapmem_alloc. */
    method Alloc(n: nat) returns (ptr: nat)
      requires Valid()
      modifies this, mem
      ensures Since(old(model), old(mem[..]))
      ensures (model, ptr) == old(model).AllocPtr(n, searchMax)
    {
      var chunk := AllocChunk(n);
      ptr := if chunk == NULL then NULL else chunk + HDR;
    }

    /** heapmem_free. */
    method Free(ptr: nat)
      requires Valid() && (ptr == NULL || (ptr >= HDR && model.Live(ptr - HDR)))
      modifies this, mem
      ensures Valid() && model == if ptr == NULL then old(model) else old(model).FreeChunk(ptr - HDR)
      ensures Kept(base, old(mem[..]), mem[..], old(model).Blocks(), model.Blocks())
    {
      if ptr != NULL {
        FreeChunk(ptr - HDR, {});
        ClearKept(old(model), old(mem[..]), mem[..], model.Blocks());
      }
    }

    /** A byte written into a live block, by its owner or by memcpy: no header changes. */
    method Store(p: nat, a: nat, b: byte)
      requires Valid() && model.Live(p) && p + HDR <= a < model.End(p)
      modifies mem
      ensures Valid() && base <= a < base + mem.Length && mem[a - base] == b
      ensures forall i :: 0 <= i < mem.Length && i != a - base ==> mem[i] == old(mem[i])
    {
      ghost var h := model;
      h.NonNull(p);
      mem[a - base] := b;
      forall o {:trigger Spells(o, hd[o])} | o in hd ensures Spells(o, hd[o]) {
        assert Apart(h.size, o, p) && Apart(h.size, p, o);
        assert old(Spells(o, hd[o]));
      }
    }

    /** memcpy of a whole block into another one. */
    method CopyBlock(q: nat, p: nat)
      requires Valid() && model.Live(p) && model.Live(q) && p != q && model.size[p] <= model.size[q]
      modifies mem
      ensures Valid() && Copied(old(mem[..]), p, mem[..], q, model.size[p])
      ensures forall i :: 0 <= i < mem.Length && !(q + HDR <= base + i < model.End(q)) ==> mem[i] == old(mem[i])
    {
      ghost var h, m := model, mem[..];
      h.NonNull(p);
      h.NonNull(q);
      assert Apart(h.size, p, q) && Apart(h.size, q, p);
      assert SizeOk(hd, h, p) && Spells(p, hd[p]);
      var n := Word(p - base + 8);
      for i := 0 to n
        invariant Valid()
        invariant Copied(m, p, mem[..], q, i)
        invariant forall j :: 0 <= j < mem.Length && !(q + HDR <= base + j < h.End(q)) ==> mem[j] == m[j]
      {
        ghost var m1 := mem[..];
        Store(q, q + HDR + i, mem[p - base + HDR + i]);
        assert forall k {:trigger Data(mem[..], q, k)} :: 0 <= k < i ==> Data(mem[..], q, k) == Data(m1, q, k);
      }
    }

    /** Data byte number `k` of the chunk at `p`. */
    ghost function Data(m: seq<byte>, p: nat, k: nat): byte
      requires base <= p && p - base + HDR + k < |m|
    {
      m[p - base + HDR + k]
    }

    /** A new block of `n` bytes that starts with the data of the block at `p`. */
    method AllocCopy(p: nat, n: nat) returns (q: nat)
      requires Valid() && model.Live(p) && n % ALIGNMENT == 0 && model.size[p] <= n
      modifies this, mem
      ensures Since(old(model), old(mem[..])) && (model, q) == old(model).Alloc(n, searchMax)
      ensures q != NULL ==> Copied(old(mem[..]), p, mem[..], q, old(model).size[p])
    {
      ghost var h, m := model, mem[..];
      h.AllocBeside(n, searchMax, p);
      q := AllocChunk(n);
      if q != NULL {
        ghost var m1 := mem[..];
        CopyBlock(q, p);
        CopiedKept(h, p, model, q, m, m1, mem[..]);
        CopiedFrom(m, m1, p, mem[..], q, h.size[p]);
      }
    }

    /** The tail of heapmem_realloc. */
    method MoveBlock(p: nat, n: nat) returns (q: nat)
      requires Valid() && model.Live(p) && n % ALIGNMENT == 0 && model.size[p] <= n
      modifies this, mem
      ensures Valid() && (model, q) == old(model).Move(p, n, searchMax)
      ensures Kept(base, old(mem[..]), mem[..], old(model).Blocks(), model.Blocks())
      ensures q != NULL ==> Copied(old(mem[..]), p, mem[..], q, old(model).size[p])
    {
      ghost var h, m := model, mem[..];
      h.AllocBeside(n, searchMax, p);
      q := AllocCopy(p, n);
      if q != NULL {
        ghost var h1, m1 := model, mem[..];
        FreeChunk(p, {});
        FreedKept(h, h1, q, m, m1, mem[..], model.Blocks());
        CopiedTo(m, p, m1, q, h.size[p], mem[..], h1.size[q]);
      }
    }

    /** `n` data bytes of the chunk at `q` are those the chunk at `p` had. */
    ghost predicate Copied(m0: seq<byte>, p: nat, m1: seq<byte>, q: nat, n: nat) {
      && base <= p && p - base + HDR + n <= |m0|
      && base <= q && q - base + HDR + n <= |m1|
      && forall k {:trigger Data(m1, q, k)} :: 0 <= k < n ==> Data(m1, q, k) == Data(m0, p, k)
    }

    lemma CopiedFrom(m: seq<byte>, m1: seq<byte>, p: nat, m2: seq<byte>, q: nat, n: nat)
      requires Copied(m1, p, m2, q, n) && Same(base, m, m1, p + HDR, p + HDR + n)
      ensures Copied(m, p, m2, q, n)
    {
    }

    lemma CopiedTo(m: seq<byte>, p: nat, m1: seq<byte>, q: nat, n: nat, m2: seq<byte>, k: nat)
      requires Copied(m, p, m1, q, n) && Same(base, m1, m2, q + HDR, q + HDR + k) && n <= k
      ensures Copied(m, p, m2, q, n)
    {
      forall i {:trigger Data(m2, q, i)} | 0 <= i < n ensures Data(m2, q, i) == Data(m, p, i) {
        assert Data(m1, q, i) == Data(m2, q, i);
      }
    }

    /** Byte number `k` behind the caller's pointer `ptr`. */
    ghost function At(m: seq<byte>, ptr: nat, k: nat): byte
      requires base <= ptr && ptr - base + k < |m|
    {
      m[ptr - base + k]
    }

    /** The caller's view: the `n` bytes at pointer `r` are those that were at `ptr`. */
    ghost predicate Carried(m0: seq<byte>, ptr: nat, m1: seq<byte>, r: nat, n: nat) {
      && base <= ptr && ptr - base + n <= |m0| && base <= r && r - base + n <= |m1|
      && forall k {:trigger At(m1, r, k)} :: 0 <= k < n ==> At(m1, r, k) == At(m0, ptr, k)
    }

    lemma CopiedCarried(m0: seq<byte>, p: nat, m1: seq<byte>, q: nat, n: nat, ptr: nat, r: nat)
      requires Copied(m0, p, m1, q, n) && ptr == p + HDR && r == q + HDR
      ensures Carried(m0, ptr, m1, r, n)
    {
      forall k {:trigger At(m1, r, k)} | 0 <= k < n ensures At(m1, r, k) == At(m0, ptr, k) {
        assert Data(m1, q, k) == Data(m0, p, k);
      }
    }

    lemma KeptCopied(h: Heap, m: seq<byte>, p: nat, n: nat)
      requires Valid() && |m| == mem.Length && h.Valid() && h.base == base && h.limit == base + |m|
      requires Kept(base, m, mem[..], h.Blocks(), model.Blocks())
      requires h.Live(p) && model.Live(p) && n <= h.size[p] && n <= model.size[p]
      ensures Copied(m, p, mem[..], p, n)
    {
      h.NonNull(p);
      model.NonNull(p);
      assert p in h.Blocks() && p in model.Blocks();
      assert Same(base, m, mem[..], p + HDR, p + HDR + Min(h.size[p], model.size[p]));
    }

    /** Split the chunk if it is large enough, otherwise move its data elsewhere. */
    method Refit(p: nat, need: nat) returns (q: nat)
      requires Valid() && model.Live(p) && need % ALIGNMENT == 0
      modifies this, mem
      ensures Valid()
      ensures (model, q) == if old(model).size[p] >= need then (old(model).Split(p, need), p)
                            else old(model).Move(p, need, searchMax)
      ensures Kept(base, old(mem[..]), mem[..], old(model).Blocks(), model.Blocks())
      ensures q != NULL ==> Copied(old(mem[..]), p, mem[..], q, Min(old(model).size[p], need))
    {
      ghost var h, m := model, mem[..];
      assert SizeOk(hd, h, p) && Spells(p, hd[p]);
      if Word(p - base + 8) >= need {
        AlignFixed(need);
        h.SplitValid(p, need);
        SplitChunk(p, need);
        KeptCopied(h, m, p, need);
        q := p;
      } else {
        q := MoveBlock(p, need);
      }
    }

    /** Growing the last chunk into the wilderness. */
    method GrowLast(p: nat, need: nat) returns (grown: bool)
      requires Valid() && model.Live(p) && model.End(p) == model.top
      requires need % ALIGNMENT == 0 && model.size[p] < need
      modifies this, mem
      ensures Valid()
      ensures grown <==> old(model).top + (need - old(model).size[p]) <= old(model).limit
      ensures var h := old(model);
        model == if grown then h.(top := h.top + (need - h.size[p]), size := h.size[p := need]) else h
      ensures grown || mem[..] == old(mem[..])
      ensures Kept(base, old(mem[..]), mem[..], old(model).Blocks(), model.Blocks())
      ensures grown ==> Copied(old(mem[..]), p, mem[..], p, old(model).size[p])
    {
      ghost var h, m := model, mem[..];
      h.NonNull(p);
      assert SizeOk(hd, h, p) && Spells(p, hd[p]);
      var end := ExtendSpace(need - Word(p - base + 8));
      grown := end != NULL;
      if grown {
        TiledGrow(h.base, h.top, h.size, p, need);
        SetSize(p, need);
        model := h.(top := h.top + (need - h.size[p]), size := h.size[p := need]);
        LinkedSame(old(hd), hd, h.free, freeList);
        GrownDescribes(old(hd), hd, h, p, need, model.top);
        HeaderKept(h, p, m, mem[..], model.Blocks());
        KeptCopied(h, m, p, h.size[p]);
      }
    }

    /** Coalescing around the chunk, then the rest of heapmem_realloc. */
    method CoalesceAndRefit(p: nat, need: nat) returns (q: nat)
      requires Valid() && model.Live(p) && need % ALIGNMENT == 0 && model.size[p] < need
      modifies this, mem
      ensures Valid()
      ensures var h := old(model).Coalesce(p);
        && h.Valid() && h.Live(p)
        && (model, q) == if h.size[p] >= need then (h.Split(p, need), p) else h.Move(p, need, searchMax)
      ensures Kept(base, old(mem[..]), mem[..], old(model).Blocks(), model.Blocks())
      ensures q != NULL ==> Copied(old(mem[..]), p, mem[..], q, old(model).size[p])
    {
      ghost var h, m := model, mem[..];
      h.CoalesceValid(p);
      assert p in h.Blocks() && p in h.Coalesce(p).Blocks();
      CoalesceChunks(p);
      ghost var h1, m1 := model, mem[..];
      assert Same(base, m, m1, p + HDR, p + HDR + h.size[p]);
      q := Refit(p, need);
      KeptTrans(base, m, m1, mem[..], h.Blocks(), h1.Blocks(), model.Blocks());
      if q != NULL {
        CopiedLess(m1, p, mem[..], q, Min(h1.size[p], need), h.size[p]);
        CopiedFrom(m, m1, p, mem[..], q, h.size[p]);
      }
    }

    lemma CopiedLess(m1: seq<byte>, p: nat, m2: seq<byte>, q: nat, n: nat, k: nat)
      requires Copied(m1, p, m2, q, n) && k <= n
      ensures Copied(m1, p, m2, q, k)
    {
    }

    /** heapmem_realloc on a live block with a non-zero size. */
    method ResizeChunk(p: nat, n: nat) returns (q: nat)
      requires Valid() && model.Live(p)
      modifies this, mem
      ensures Valid() && (model, q) == old(model).Resize(p, n, searchMax)
      ensures old(model).ResizeAnswer(p, n, searchMax, model, q)
      ensures Kept(base, old(mem[..]), mem[..], old(model).Blocks(), model.Blocks())
      ensures q != NULL ==> Copied(old(mem[..]), p, mem[..], q, Min(old(model).size[p], Align(n)))
    {
      ghost var h := model;
      h.NonNull(p);
      h.ResizeExactly(p, n, searchMax);
      assert SizeOk(hd, h, p) && Spells(p, hd[p]);
      var need := Align(n);
      if need <= Word(p - base + 8) {
        q := Refit(p, need);
      } else if NextChunk(p) == base + usage {
        var grown := GrowLast(p, need);
        q := p;
        if !grown { q := Refit(p, need); }
      } else {
        q := CoalesceAndRefit(p, need);
      }
    }

    /** heapmem_realloc: which block answers and when none does, how large it is, what it
        gives back, and the bytes it carries. */
    method Realloc(ptr: nat, n: nat) returns (r: nat)
      requires Valid() && (ptr == NULL || (ptr >= HDR && model.Live(ptr - HDR)))
      modifies this, mem
      ensures Valid()
      ensures model == old(model).Realloc(ptr, n, searchMax).0 && r == old(model).Realloc(ptr, n, searchMax).1
      ensures old(model).ReallocAnswer(ptr, n, searchMax, model, r)
      ensures ptr != NULL && n > 0 && r != NULL ==>
        Carried(old(mem[..]), ptr, mem[..], r, Min(old(model).size[ptr - HDR], Align(n)))
      ensures Kept(base, old(mem[..]), mem[..], old(model).Blocks(), model.Blocks())
    {
      model.ReallocExactly(ptr, n, searchMax);
      if ptr == NULL {
        r := Alloc(n);
        return;
      }
      if n == 0 {
        Free(ptr);
        return NULL;
      }
      r := ResizePtr(ptr, n);
    }

    /** heapmem_realloc past its special cases. */
    method ResizePtr(ptr: nat, n: nat) returns (r: nat)
      requires Valid() && ptr >= HDR && model.Live(ptr - HDR)
      modifies this, mem
      ensures Valid()
      ensures model == old(model).Resize(ptr - HDR, n, searchMax).0
      ensures r == Heap.Ptr(old(model).Resize(ptr - HDR, n, searchMax).1)
      ensures Kept(base, old(mem[..]), mem[..], old(model).Blocks(), model.Blocks())
      ensures r != NULL ==>
        Carried(old(mem[..]), ptr, mem[..], r, Min(old(model).size[ptr - HDR], Align(n)))
    {
      var p: nat := ptr - HDR;
      var q := ResizeChunk(p, n);
      r := if q == NULL then NULL else q + HDR;
      if q != NULL {
        CopiedCarried(old(mem[..]), p, mem[..], q, Min(old(model).size[p], Align(n)), ptr, r);
      }
    }

    /** One turn of the loop in heapmem_stats. */
    method SettleSince(chunk: nat, ghost h: Heap, ghost m: seq<byte>) returns (inUse: bool, size: nat, next: nat)
      requires Since(h, m) && chunk in model.size
      modifies this`hd, this`freeList, this`model, mem
      ensures Since(h, m) && model == old(model).Settle(chunk)
      ensures inUse == model.Live(chunk) && size == model.size[chunk] && next == model.End(chunk)
    {
      assert FlagOk(hd, model, chunk) && Spells(chunk, hd[chunk]);
      inUse := !ChunkFree(chunk);
      model.CoalesceValid(chunk);
      if !inUse {
        CoalesceSince(chunk, h, m);
      }
      assert SizeOk(hd, model, chunk) && Spells(chunk, hd[chunk]);
      size, next := Word(chunk - base + 8), NextChunk(chunk);
    }

    /** The loop of heapmem_stats. */
    method WalkChunks() returns (inUse: nat, overhead: nat, available: nat)
      requires Valid()
      modifies this`hd, this`freeList, this`model, mem
      ensures Since(old(model), old(mem[..]))
      ensures (model, Stats(inUse, overhead, available)) == Sweep(old(model), base)
    {
      ghost var h, m := model, mem[..];
      inUse, overhead, available := 0, 0, 0;
      var chunk := base;
      while chunk < base + usage
        invariant Since(h, m) && model.top == h.top
        invariant Counted(h, model, chunk, Stats(inUse, overhead, available))
        decreases base + usage - chunk
      {
        chunk, inUse, overhead, available := CountChunk(chunk, inUse, overhead, available, h, m);
      }
    }

    /** One turn of that loop: a chunk is settled and counted. */
    method CountChunk(chunk: nat, u: nat, o: nat, a: nat, ghost h: Heap, ghost m: seq<byte>)
      returns (next: nat, inUse: nat, overhead: nat, available: nat)
      requires Since(h, m) && model.top == h.top && chunk < base + usage && Counted(h, model, chunk, Stats(u, o, a))
      modifies this`hd, this`freeList, this`model, mem
      ensures Since(h, m) && model.top == h.top && chunk < next <= base + usage
      ensures Counted(h, model, next, Stats(inUse, overhead, available))
    {
      CountStep(h, model, chunk, Stats(u, o, a));
      inUse, available, overhead := u, a, o + HDR;
      var live, size;
      live, size, next := SettleSince(chunk, h, m);
      if live { inUse := inUse + size; } else { available := available + size; }
      model.NonNull(chunk);
    }

    /** heapmem_stats: the three byte counters account for the whole arena, the first one
        for the live blocks alone, and no two free chunks are left side by side. */
    method GetStats() returns (inUse: nat, overhead: nat, available: nat, footprint: nat, chunks: nat)
      requires Valid()
      modifies this`hd, this`freeList, this`model, mem
      ensures Since(old(model), old(mem[..])) && model.Blocks() == old(model).Blocks()
      ensures model == Sweep(old(model), base).0
      ensures inUse + overhead + available == mem.Length
      ensures inUse == old(model).LiveBytes(base, base + usage)
      ensures footprint == usage && chunks == |model.size| && overhead == HDR * chunks
      ensures model.Separated(base)
    {
      SweepAll(model);
      inUse, overhead, available := WalkChunks();
      available := available + (mem.Length - usage);
      footprint, chunks := usage, overhead / HDR;
    }
  }

  /** `acc` and what the rest of the walk will add make the totals of the whole walk. */
  ghost predicate Counted(h: Heap, g: Heap, o: nat, acc: Stats) {
    && h.Valid() && g.Valid() && (o == g.top || o in g.size) && (h.top == h.base || h.base in h.size)
    && Sweep(g, o).0 == Sweep(h, h.base).0
    && var s, t := Sweep(g, o).1, Sweep(h, h.base).1;
    && acc.inUse + s.inUse == t.inUse && acc.overhead + s.overhead == t.overhead
    && acc.available + s.available == t.available
  }

  lemma CountStep(h: Heap, g: Heap, o: nat, acc: Stats)
    requires Counted(h, g, o, acc) && o < g.top
    ensures o in g.size && o < g.Settle(o).End(o)
    ensures var f := g.Settle(o);
      Counted(h, f, f.End(o),
        if f.Live(o) then Stats(acc.inUse + f.size[o], acc.overhead + HDR, acc.available)
        else Stats(acc.inUse, acc.overhead + HDR, acc.available + f.size[o]))
  {
  }

  lemma SweepAll(h: Heap)
    requires h.Valid()
    ensures var (g, s) := Sweep(h, h.base);
      && s.inUse == h.LiveBytes(h.base, h.top) && s.overhead == HDR * |g.size| && g.Separated(h.base)
      && s.inUse + s.overhead + s.available == h.top - h.base
  {
    var g := Sweep(h, h.base).0;
    SweepCountsLive(h, h.base);
    SweepCountsChunks(h, h.base);
    SweepSeparates(h, h.base);
    forall o | o in g.size ensures g.base <= o { g.NonNull(o); }
    assert g.ChunksFrom(h.base) == g.size.Keys;
  }

  /** The headers after `c` has grown over its neighbour and that one is unlinked. */
  ghost predicate AbsorbedHeaders(hd: map<nat, Header>, h: Heap, c: nat, hd': map<nat, Header>) {
    && c in hd && c in h.size && h.End(c) in hd && h.End(c) in h.size
    && var n := h.End(c); var hd1 := hd[c := hd[c].(size := h.size[c] + HDR + h.size[n])];
    && hd1[n].prev in hd1.Keys + {NULL} && hd1[n].next in hd1.Keys + {NULL} && hd' == Unlink(hd1, n)
  }

  /** The four bytes of a word. */
  lemma WordDigits(v: nat)
    requires v < WORD
    ensures v == v % 0x100 + 0x100 * (v / 0x100 % 0x100) + 0x1_0000 * (v / 0x1_0000 % 0x100)
      + 0x100_0000 * (v / 0x100_0000)
    ensures v / 0x100_0000 < 0x100
  {
    var a, b := v / 0x100, v / 0x1_0000;
    assert v == 0x100 * a + v % 0x100;
    assert b == a / 0x100 && a == 0x100 * b + a % 0x100;
    assert v / 0x100_0000 == b / 0x100 && b == 0x100 * (b / 0x100) + b % 0x100;
  }

  lemma AbsorbedSteps(hd: map<nat, Header>, h: Heap, c: nat, hd1: map<nat, Header>, hd': map<nat, Header>)
    requires c in hd && c in h.size && h.End(c) in hd && h.End(c) in h.size
    requires hd1 == hd[c := hd[c].(size := h.size[c] + HDR + h.size[h.End(c)])]
    requires hd1[h.End(c)].prev in hd1.Keys + {NULL} && hd1[h.End(c)].next in hd1.Keys + {NULL}
    requires hd' == Unlink(hd1, h.End(c))
    ensures AbsorbedHeaders(hd, h, c, hd')
  {
  }

  /** What a turn of the coalescing loop relies on. */
  lemma AbsorbReady(hd: map<nat, Header>, h: Heap, c: nat, head: nat)
    requires h.Valid() && Describes(hd, h, {}, {}) && Linked(hd, h.free, head) && c in h.size && h.CanMerge(c)
    ensures var n := h.End(c);
      && NULL !in hd && n != c && n in hd && c in hd
      && h.Merge(c, n).End(c) == h.End(n) <= h.top
      && (forall x :: x in h.free ==> x in hd)
      && var hd1 := hd[c := hd[c].(size := h.size[c] + HDR + h.size[n])];
      && hd1[n].prev in hd1.Keys + {NULL} && hd1[n].next in hd1.Keys + {NULL}
  {
    var n := h.End(c);
    var hd1 := hd[c := hd[c].(size := h.size[c] + HDR + h.size[n])];
    h.MergeValid(c);
    h.Merge(c, n).NonNull(c);
    assert NULL in h.size ==> ChunkOk(h.base, h.top, h.size, NULL);
    LinkedSame(hd, hd1, h.free, head);
    UnlinkLinked(hd1, h.free, IndexOf(h.free, n));
  }

  /** Where it leads: the headers left over describe the merged heap. */
  lemma AbsorbedDescribes(hd: map<nat, Header>, h: Heap, c: nat, hd': map<nat, Header>)
    requires h.Valid() && Describes(hd, h, {}, {}) && c in h.size && h.CanMerge(c)
    requires AbsorbedHeaders(hd, h, c, hd')
    ensures var n := h.End(c); var g := h.Merge(c, n);
      && hd'.Keys == hd.Keys && hd'[n].size == h.size[n] && n !in g.free
      && g.Valid() && g.top == h.top && g.End(c) == h.End(n)
      && Describes(hd' - {n}, g, {}, {})
  {
    var n := h.End(c);
    assert SizeOk(hd, h, n);
    AbsorbedFacts(hd, h, c, hd');
    h.MergeValid(c);
    RemoveMembers(h.free, n);
    MergedDescribes(hd, h, c, hd');
  }

  lemma AbsorbedFacts(hd: map<nat, Header>, h: Heap, c: nat, hd': map<nat, Header>)
    requires AbsorbedHeaders(hd, h, c, hd')
    ensures hd'.Keys == hd.Keys && hd'[c].size == h.size[c] + HDR + h.size[h.End(c)]
    ensures forall o :: o in hd && o != c ==> hd'[o].size == hd[o].size
    ensures forall o :: o in hd && o != h.End(c) ==> hd'[o].flags == hd[o].flags
  {
    UnlinkFacts(hd[c := hd[c].(size := h.size[c] + HDR + h.size[h.End(c)])], h.End(c));
  }

  lemma MergedDescribes(hd: map<nat, Header>, h: Heap, c: nat, hd': map<nat, Header>)
    requires Describes(hd, h, {}, {}) && c in h.size && h.CanMerge(c)
    requires hd'.Keys == hd.Keys && hd'[c].size == h.size[c] + HDR + h.size[h.End(c)]
    requires forall o :: o in hd && o != c ==> hd'[o].size == hd[o].size
    requires forall o :: o in hd && o != h.End(c) ==> hd'[o].flags == hd[o].flags
    requires forall o :: o != h.End(c) ==> (o in h.free <==> o in h.Merge(c, h.End(c)).free)
    ensures Describes(hd' - {h.End(c)}, h.Merge(c, h.End(c)), {}, {})
  {
    var g, hg := h.Merge(c, h.End(c)), hd' - {h.End(c)};
    forall o {:trigger SizeOk(hg, g, o)} | o in hg && o in g.size ensures SizeOk(hg, g, o) {
      assert SizeOk(hd, h, o);
    }
    forall o {:trigger FlagOk(hg, g, o)} | o in hg ensures FlagOk(hg, g, o) {
      assert FlagOk(hd, h, o);
    }
  }

  /** Cutting a live chunk: where the new header goes, and what the headers say then. */
  lemma CutReady(hd: map<nat, Header>, h: Heap, c: nat, off: nat)
    requires h.Valid() && Describes(hd, h, {}, {}) && h.Live(c) && off % ALIGNMENT == 0 && off + HDR < h.size[c]
    ensures var n, g := c + HDR + off, h.Cut(c, off);
      && g.Valid() && g.Live(n) && g.Live(c) && n !in hd && n != c
      && hd[c].size == h.size[c] && h.base <= n && n + HDR <= h.top
      && (forall o :: o in hd ==> o + HDR <= n || n + HDR <= o)
      && (forall o :: o in h.free ==> o in hd && o != n && o != c)
      && (forall x: Header :: x.size == h.size[c] - HDR - off && x.flags == 0 ==>
            Describes(hd[n := x], g, {c}, {n}))
  {
    var n, g := c + HDR + off, h.Cut(c, off);
    h.CutValid(c, off);
    g.NonNull(n);
    assert SizeOk(hd, h, c) && ChunkOk(h.base, h.top, h.size, c);
    forall o | o in hd ensures o + HDR <= n || n + HDR <= o {
      assert Apart(h.size, o, c) && Apart(h.size, c, o);
    }
    forall x: Header | x.size == h.size[c] - HDR - off && x.flags == 0
      ensures Describes(hd[n := x], g, {c}, {n})
    {
      var hd' := hd[n := x];
      assert hd'.Keys == g.size.Keys;
      forall o {:trigger SizeOk(hd', g, o)} | o in hd' && o in g.size && o !in {c} ensures SizeOk(hd', g, o) {
        if o != n { assert SizeOk(hd, h, o); }
      }
      forall o {:trigger FlagOk(hd', g, o)} | o in hd' && o !in {n} ensures FlagOk(hd', g, o) {
        assert FlagOk(hd, h, o);
      }
    }
  }

  lemma TrimDescribes(hd: map<nat, Header>, hd': map<nat, Header>, h: Heap, c: nat)
    requires Describes(hd, h, {c}, {}) && h.Live(c)
    requires hd' == hd[c := Header(NULL, NULL, h.size[c], hd[c].flags)]
    ensures Describes(hd', h, {}, {})
  {
    forall o {:trigger SizeOk(hd', h, o)} | o in hd' && o in h.size ensures SizeOk(hd', h, o) {
      assert o != c ==> SizeOk(hd, h, o);
    }
    forall o {:trigger FlagOk(hd', h, o)} | o in hd' ensures FlagOk(hd', h, o) {
      assert FlagOk(hd, h, o);
    }
  }

  lemma GrownDescribes(hd: map<nat, Header>, hd': map<nat, Header>, h: Heap, c: nat, need: nat, t: nat)
    requires Describes(hd, h, {}, {}) && c in h.size && hd' == hd[c := hd[c].(size := need)]
    ensures Describes(hd', h.(top := t, size := h.size[c := need]), {}, {})
  {
    var g := h.(top := t, size := h.size[c := need]);
    assert hd'.Keys == g.size.Keys;
    forall o {:trigger SizeOk(hd', g, o)} | o in hd' && o in g.size ensures SizeOk(hd', g, o) {
      assert SizeOk(hd, h, o);
    }
    forall o {:trigger FlagOk(hd', g, o)} | o in hd' ensures FlagOk(hd', g, o) {
      assert FlagOk(hd, h, o);
    }
  }

  lemma TakenDescribes(hd: map<nat, Header>, h: Heap, c: nat)
    requires Describes(hd, h, {}, {}) && Distinct(h.free) && c in h.free && c in hd
    requires hd[c].prev in hd.Keys + {NULL} && hd[c].next in hd.Keys + {NULL}
    ensures Describes(Unlink(hd, c), h.TakeChunk(c), {}, {})
  {
    var hd', g := Unlink(hd, c), h.TakeChunk(c);
    UnlinkFacts(hd, c);
    RemoveMembers(h.free, c);
    forall o {:trigger SizeOk(hd', g, o)} | o in hd' && o in g.size ensures SizeOk(hd', g, o) {
      assert SizeOk(hd, h, o);
    }
    forall o {:trigger FlagOk(hd', g, o)} | o in hd' ensures FlagOk(hd', g, o) {
      assert FlagOk(hd, h, o);
    }
  }

  lemma MarkedDescribes(hd: map<nat, Header>, hd': map<nat, Header>, h: Heap, c: nat)
    requires Describes(hd, h, {}, {c}) && h.Live(c) && hd' == hd[c := hd[c].(flags := 1)]
    ensures Describes(hd', h, {}, {})
  {
    assert hd'.Keys == hd.Keys;
    forall o {:trigger SizeOk(hd', h, o)} | o in hd' && o in h.size ensures SizeOk(hd', h, o) {
      assert SizeOk(hd, h, o);
    }
    forall o {:trigger FlagOk(hd', h, o)} | o in hd' ensures FlagOk(hd', h, o) {
      assert o != c ==> FlagOk(hd, h, o);
    }
  }

  /** The wilderness lies above every header. */
  lemma ExtendReady(hd: map<nat, Header>, h: Heap, need: nat)
    requires h.Valid() && Describes(hd, h, {}, {})
    ensures h.top !in hd && forall o :: o in hd ==> o + HDR <= h.top
    ensures forall x: Header :: x.size == need ==>
      Describes(hd[h.top := x], h.(top := h.top + HDR + need, size := h.size[h.top := need]), {}, {h.top})
  {
    forall o | o in hd ensures o + HDR <= h.top { h.NonNull(o); }
    var g := h.(top := h.top + HDR + need, size := h.size[h.top := need]);
    forall x: Header | x.size == need ensures Describes(hd[h.top := x], g, {}, {h.top}) {
      var hd' := hd[h.top := x];
      assert hd'.Keys == g.size.Keys;
      forall o {:trigger SizeOk(hd', g, o)} | o in hd' && o in g.size ensures SizeOk(hd', g, o) {
        if o != h.top { assert SizeOk(hd, h, o); }
      }
      forall o {:trigger FlagOk(hd', g, o)} | o in hd' && o !in {h.top} ensures FlagOk(hd', g, o) {
        assert FlagOk(hd, h, o);
      }
    }
  }

  ghost predicate Grown(b0: map<nat, nat>, b1: map<nat, nat>) {
    forall p :: p in b0 ==> p in b1 && b0[p] <= b1[p]
  }

  /** If only header bytes were written, every live block has kept its bytes. */
  lemma ClearKept(h: Heap, m0: seq<byte>, m1: seq<byte>, b1: map<nat, nat>)
    requires h.Valid() && |m0| == |m1|
    requires forall i :: 0 <= i < |m0| && Clear(h.size.Keys, h.base + i) ==> m0[i] == m1[i]
    ensures Kept(h.base, m0, m1, h.Blocks(), b1)
  {
    ClearKeptOn(h, m0, m1, h.Blocks(), b1);
  }

  lemma ClearKeptOn(h: Heap, m0: seq<byte>, m1: seq<byte>, b0: map<nat, nat>, b1: map<nat, nat>)
    requires h.Valid() && |m0| == |m1| && Grown(b0, h.Blocks())
    requires forall i :: 0 <= i < |m0| && Clear(h.size.Keys, h.base + i) ==> m0[i] == m1[i]
    ensures Kept(h.base, m0, m1, b0, b1)
  {
    forall p, i | p in b0 && 0 <= i < |m0| && p + HDR <= h.base + i < p + HDR + b0[p]
      ensures m0[i] == m1[i]
    {
      assert p in h.Blocks();
      forall o | o in h.size ensures !(o <= h.base + i < o + HDR) {
        assert Apart(h.size, o, p) && Apart(h.size, p, o);
      }
      assert Clear(h.size.Keys, h.base + i);
    }
  }

  /** Writing inside the block at `q` leaves all the others alone. */
  lemma BlockKeptOn(h: Heap, q: nat, m0: seq<byte>, m1: seq<byte>, b0: map<nat, nat>, b1: map<nat, nat>)
    requires h.Valid() && q in h.size && |m0| == |m1| && Grown(b0, h.Blocks()) && q !in b0
    requires forall i :: 0 <= i < |m0| && !(q + HDR <= h.base + i < h.End(q)) ==> m0[i] == m1[i]
    ensures Kept(h.base, m0, m1, b0, b1)
  {
    forall p, i | p in b0 && 0 <= i < |m0| && p + HDR <= h.base + i < p + HDR + b0[p]
      ensures m0[i] == m1[i]
    {
      assert p in h.Blocks();
      assert Apart(h.size, q, p) && Apart(h.size, p, q);
    }
  }

  lemma CopiedKept(h: Heap, p: nat, h1: Heap, q: nat, m: seq<byte>, m1: seq<byte>, m2: seq<byte>)
    requires h.Live(p) && h1.Valid() && h1.Live(q) && h1.base == h.base && q !in h.Blocks()
    requires |m| == |m1| == |m2|
    requires Grown(h.Blocks(), h1.Blocks()) && Kept(h.base, m, m1, h.Blocks(), h1.Blocks())
    requires forall i :: 0 <= i < |m| && !(q + HDR <= h.base + i < h1.End(q)) ==> m1[i] == m2[i]
    ensures Kept(h.base, m, m2, h.Blocks(), h1.Blocks())
    ensures Same(h.base, m, m1, p + HDR, p + HDR + h.size[p])
  {
    var b, b1 := h.Blocks(), h1.Blocks();
    BlockKeptOn(h1, q, m1, m2, b, b1);
    KeptTrans(h.base, m, m1, m2, b, b, b1);
    assert p in b;
  }

  lemma FreedKept(h: Heap, h1: Heap, q: nat, m: seq<byte>, m1: seq<byte>, m2: seq<byte>, b2: map<nat, nat>)
    requires h1.Valid() && h1.Live(q) && h1.base == h.base
    requires |m| == |m1| == |m2|
    requires Grown(h.Blocks(), h1.Blocks()) && Kept(h.base, m, m1, h.Blocks(), h1.Blocks())
    requires forall i :: 0 <= i < |m| && Clear(h1.size.Keys, h.base + i) ==> m1[i] == m2[i]
    ensures Kept(h.base, m, m2, h.Blocks(), b2)
    ensures Same(h.base, m1, m2, q + HDR, q + HDR + h1.size[q])
  {
    var b := h.Blocks();
    ClearKeptOn(h1, m1, m2, b, b2);
    KeptTrans(h.base, m, m1, m2, b, b, b2);
    ClearKeptOn(h1, m1, m2, h1.Blocks(), h1.Blocks());
    assert q in h1.Blocks();
  }

  /** If nothing below the top was written, every live block has kept its bytes. */
  lemma AboveKept(h: Heap, m0: seq<byte>, m1: seq<byte>, b1: map<nat, nat>)
    requires h.Valid() && |m0| == |m1|
    requires forall i :: 0 <= i < |m0| && h.base + i < h.top ==> m0[i] == m1[i]
    ensures Kept(h.base, m0, m1, h.Blocks(), b1)
  {
    forall p, i | p in h.Blocks() && 0 <= i < |m0| && p + HDR <= h.base + i < h.End(p)
      ensures m0[i] == m1[i]
    {
      h.NonNull(p);
    }
  }

  lemma HeaderKept(h: Heap, c: nat, m0: seq<byte>, m1: seq<byte>, b1: map<nat, nat>)
    requires h.Valid() && c in h.size && |m0| == |m1|
    requires forall i :: 0 <= i < |m0| && !(c <= h.base + i < c + HDR) ==> m0[i] == m1[i]
    ensures Kept(h.base, m0, m1, h.Blocks(), b1)
  {
    forall i | 0 <= i < |m0| && Clear(h.size.Keys, h.base + i) ensures m0[i] == m1[i] {
    }
    ClearKept(h, m0, m1, b1);
  }

  lemma KeptTrans(base: nat, m0: seq<byte>, m1: seq<byte>, m2: seq<byte>,
                  b0: map<nat, nat>, b1: map<nat, nat>, b2: map<nat, nat>)
    requires Kept(base, m0, m1, b0, b1) && Kept(base, m1, m2, b1, b2)
    requires forall p :: p in b0 && p in b2 ==> p in b1 && b1[p] >= Min(b0[p], b2[p])
    ensures Kept(base, m0, m2, b0, b2)
  {
  }

  lemma ReleasedDescribes(hd: map<nat, Header>, hd': map<nat, Header>, h: Heap, c: nat, sx: set<nat>)
    requires Describes(hd, h, sx, {c}) && c in hd && h.End(c) == h.top
    requires hd' == hd[c := hd[c].(flags := Unflagged(hd[c].flags))] - {c}
    ensures Describes(hd', h.FreeChunk(c), sx, {})
  {
    var h' := h.FreeChunk(c);
    forall o {:trigger SizeOk(hd', h', o)} | o in hd' && o in h'.size && o !in sx ensures SizeOk(hd', h', o) {
      assert SizeOk(hd, h, o);
    }
    forall o {:trigger FlagOk(hd', h', o)} | o in hd' ensures FlagOk(hd', h', o) {
      assert FlagOk(hd, h, o);
    }
  }

  lemma PushedDescribes(hd: map<nat, Header>, hd': map<nat, Header>, h: Heap, c: nat, sx: set<nat>)
    requires Describes(hd, h, sx, {c}) && c in hd && h.End(c) != h.top
    requires var head := AtOrNull(h.free, 0);
      head in hd.Keys + {NULL} && hd' == Push(hd[c := hd[c].(flags := Unflagged(hd[c].flags))], c, head)
    ensures Describes(hd', h.FreeChunk(c), sx, {})
  {
    var h' := h.FreeChunk(c);
    assert hd'.Keys == hd.Keys;
    forall o {:trigger SizeOk(hd', h', o)} | o in hd' && o in h'.size && o !in sx ensures SizeOk(hd', h', o) {
      assert SizeOk(hd, h, o);
    }
    forall o {:trigger FlagOk(hd', h', o)} | o in hd' ensures FlagOk(hd', h', o) {
      if o != c { assert FlagOk(hd, h, o); }
    }
  }
}
