/** The kernel's bounded event queue: a circular array with byte-wide indices. */
module Process {
  import opened Modular

  /** process_num_events_t is an unsigned char. */
  const BYTE := 256

  /** (process_num_events_t)(fevent + nevents) % PROCESS_CONF_NUMEVENTS. */
  function SlotFor(fevent: nat, nevents: nat, size: nat): nat
    requires size > 0
  {
    (fevent + nevents) % BYTE % size
  }

  /** The cast is harmless exactly while the sum fits a byte; otherwise the slot named is one
      before the free one, and an event is waiting in it. */
  lemma SlotExactly(f: nat, n: nat, size: nat)
    requires f < size < BYTE && n < size
    ensures SlotFor(f, n, size) == (f + n) % size <==> f + n < BYTE
    ensures SlotFor(f, n, size) ==
      if f + n < size then f + n else if f + n < BYTE then f + n - size else f + n - BYTE
  {
    WrapMod(f + n, size);
    if f + n < BYTE {
      ModSmall(f + n, BYTE);
    } else {
      ModUnique(f + n, BYTE, 1, f + n - BYTE);
      ModSmall(f + n - BYTE, size);
    }
  }

  ghost predicate SlotsRight(size: nat)
    requires size > 0
  {
    forall f: nat, n: nat {:trigger SlotFor(f, n, size)} :: f < size && n < size ==>
      SlotFor(f, n, size) == (f + n) % size
  }

  /** The cast to a byte is harmless for queues of up to 128 events, and for no larger queue
      that the byte-wide counters could serve. */
  lemma SlotsRightExactly(size: nat)
    requires 0 < size < BYTE
    ensures SlotsRight(size) <==> size <= 128
  {
    if size <= 128 {
      forall f: nat, n: nat {:trigger SlotFor(f, n, size)} | f < size && n < size
        ensures SlotFor(f, n, size) == (f + n) % size
      {
        SlotExactly(f, n, size);
      }
    } else {
      SlotExactly(size - 1, size - 1, size);
    }
  }

  lemma WrapMod(x: nat, size: nat)
    requires 0 < size && x < 2 * size
    ensures x % size == if x < size then x else x - size
  {
    if x < size { ModSmall(x, size); } else { ModUnique(x, size, 1, x - size); }
  }

  class EventQueue<E> {
    const events: array<E>
    var fevent: nat
    var nevents: nat
    /** The events in the queue, oldest first. */
    ghost var queued: seq<E>
    /** Everything that process_post accepted, and everything that was taken out again. */
    ghost var accepted: seq<E>
    ghost var delivered: seq<E>

    function Size(): nat {
      events.Length
    }

    ghost predicate Valid()
      reads this, events
    {
      && 0 < Size() < BYTE
      && fevent < Size()
      && nevents <= Size()
      && |queued| == nevents
      && (forall i: nat {:trigger Holds(i)} :: i < nevents ==> Holds(i))
    }

    /** The i-th event of the queue is where the indices say. */
    ghost predicate Holds(i: nat)
      requires fevent < Size() && i < nevents <= Size() && |queued| == nevents
      reads this, events
    {
      events[Wrap(fevent + i)] == queued[i]
    }

    function Wrap(x: int): int {
      if x < Size() then x else x - Size()
    }

    ghost function Contents(): seq<E>
      reads this
    {
      queued
    }

    /** No accepted event has been lost, and none was delivered out of turn. */
    ghost predicate Fifo()
      reads this
    {
      accepted == delivered + queued
    }

    constructor (size: nat, filler: E)
      requires 0 < size < BYTE
      ensures Valid() && fresh(events) && Size() == size && Contents() == [] == accepted == delivered
    {
      events := new E[size](_ => filler);
      fevent, nevents, queued, accepted, delivered := 0, 0, [], [], [];
    }

    /** Appends the event, or refuses it when the queue is full. When the sum of the counters
        does not fit a byte, it replaces an event that is still waiting, and what an old event
        left in the free slot is queued in its place. */
    method Post(e: E) returns (ok: bool)
      requires Valid()
      modifies this, events
      ensures Valid() && ok == (|old(Contents())| < Size())
      ensures !ok ==> Contents() == old(Contents())
      ensures ok && (Size() <= 128 || old(fevent + nevents) < BYTE) ==> Contents() == old(Contents()) + [e]
      ensures ok && old(fevent + nevents) >= BYTE ==>
        && BYTE - Size() <= old(nevents) && Size() <= old(fevent + nevents) < 2 * Size()
        && Contents() == old(Contents())[old(nevents) - (BYTE - Size()) := e] + [old(events[fevent + nevents - Size()])]
      ensures accepted == (if ok then old(accepted) + [e] else old(accepted)) && delivered == old(delivered)
      ensures old(Fifo()) && (Size() <= 128 || old(fevent + nevents) < BYTE) ==> Fifo()
    {
      if nevents == Size() {
        return false;
      }
      SlotExactly(fevent, nevents, Size());
      ghost var h, free := Contents(), Wrap(fevent + nevents);
      ghost var stale := events[free];
      ghost var slot := SlotFor(fevent, nevents, Size());
      events[SlotFor(fevent, nevents, Size())] := e;
      nevents := nevents + 1;
      queued := if slot == free then h + [e] else h[slot + Size() - fevent := e] + [stale];
      accepted := accepted + [e];
      ok := true;
      forall i: nat {:trigger Holds(i)} | i < nevents ensures Holds(i) {
        assert i < nevents - 1 ==> old(Holds(i));
      }
    }

    /** The dequeue part of do_event. */
    method Take() returns (some: bool, e: E)
      requires Valid()
      modifies this`fevent, this`nevents, this`queued, this`delivered
      ensures Valid() && some == (old(Contents()) != [])
      ensures some ==>
        e == old(Contents())[0] && Contents() == old(Contents())[1..] && delivered == old(delivered) + [e]
      ensures !some ==> Contents() == old(Contents()) && delivered == old(delivered)
      ensures accepted == old(accepted) && (old(Fifo()) ==> Fifo())
    {
      e := events[fevent];
      some := nevents > 0;
      if some {
        assert Holds(0);
        WrapMod(fevent + 1, Size());
        ghost var was := fevent;
        fevent := (fevent + 1) % Size();
        nevents := nevents - 1;
        queued, delivered := queued[1..], delivered + [e];
        forall i: nat {:trigger Holds(i)} | i < nevents ensures Holds(i) {
          assert old(Holds(i + 1));
          assert Wrap(fevent + i) == Wrap(was + (i + 1));
        }
      }
    }
  }
}
