/** One byte per neighbour, one bit per table. */
module Bitmaps {
  const MAX_NUM_TABLES := 8

  type Bitmap = bv8

  /** 1 << t. */
  function Mask(t: nat): Bitmap
    requires t < MAX_NUM_TABLES
  {
    if t == 0 then 1 else if t == 1 then 2 else if t == 2 then 4 else if t == 3 then 8
    else if t == 4 then 16 else if t == 5 then 32 else if t == 6 then 64 else 128
  }

  predicate Bit(b: Bitmap, t: nat)
    requires t < MAX_NUM_TABLES
  {
    b & Mask(t) != 0
  }

  /** The tables whose bit is set. */
  function Tables(b: Bitmap): set<nat> {
    set t: nat | t < MAX_NUM_TABLES && Bit(b, t)
  }

  lemma BitSet(b: Bitmap, t: nat, u: nat)
    requires t < MAX_NUM_TABLES && u < MAX_NUM_TABLES
    ensures Bit(b | Mask(t), u) <==> t == u || Bit(b, u)
  {
  }

  lemma BitCleared(b: Bitmap, t: nat, u: nat)
    requires t < MAX_NUM_TABLES && u < MAX_NUM_TABLES
    ensures Bit(b & !Mask(t), u) <==> t != u && Bit(b, u)
  {
  }

  lemma SetBit(b: Bitmap, t: nat)
    requires t < MAX_NUM_TABLES
    ensures Tables(b | Mask(t)) == Tables(b) + {t}
  {
    forall u: nat | u < MAX_NUM_TABLES ensures Bit(b | Mask(t), u) <==> t == u || Bit(b, u) {
      BitSet(b, t, u);
    }
  }

  lemma ClearBit(b: Bitmap, t: nat)
    requires t < MAX_NUM_TABLES
    ensures Tables(b & !Mask(t)) == Tables(b) - {t}
  {
    forall u: nat | u < MAX_NUM_TABLES ensures Bit(b & !Mask(t), u) <==> t != u && Bit(b, u) {
      BitCleared(b, t, u);
    }
  }

  lemma NoBits(b: Bitmap)
    ensures b == 0 <==> Tables(b) == {}
  {
    assert Bit(b, 0) || Bit(b, 1) || Bit(b, 2) || Bit(b, 3)
      || Bit(b, 4) || Bit(b, 5) || Bit(b, 6) || Bit(b, 7) || b == 0;
    assert forall t: nat | t < MAX_NUM_TABLES && Bit(b, t) :: t in Tables(b);
  }

  /** How many of the first `k` tables are in `s`. */
  function CountIn(s: set<nat>, k: nat): nat {
    if k == 0 then 0 else CountIn(s, k - 1) + if k - 1 in s then 1 else 0
  }

  /** Counting by shifting the low bit out. */
  function PopCount(b: Bitmap): nat
    decreases b
  {
    if b == 0 then 0 else Low(b) + PopCount(b >> 1)
  }

  function Low(b: Bitmap): nat {
    if b & 1 == 1 then 1 else 0
  }

  lemma PopStep(b: Bitmap, c: Bitmap)
    requires c == b >> 1
    ensures PopCount(b) == Low(b) + PopCount(c)
  {
  }

  lemma PopHalf(b: Bitmap)
    ensures PopCount(b) == Low(b) + Low(b >> 1) + Low(b >> 2) + Low(b >> 3) + PopCount(b >> 4)
  {
    PopStep(b, b >> 1);
    PopStep(b >> 1, b >> 2);
    PopStep(b >> 2, b >> 3);
    PopStep(b >> 3, b >> 4);
  }

  lemma PopChain(b: Bitmap)
    ensures PopCount(b) == Low(b) + Low(b >> 1) + Low(b >> 2) + Low(b >> 3)
      + Low(b >> 4) + Low(b >> 5) + Low(b >> 6) + Low(b >> 7)
  {
    PopHalf(b);
    PopStep(b >> 4, b >> 5);
    PopStep(b >> 5, b >> 6);
    PopStep(b >> 6, b >> 7);
    PopStep(b >> 7, 0);
  }

  lemma LowBits(b: Bitmap)
    ensures Low(b) == Has(b, 0) && Low(b >> 1) == Has(b, 1) && Low(b >> 2) == Has(b, 2) && Low(b >> 3) == Has(b, 3)
    ensures Low(b >> 4) == Has(b, 4) && Low(b >> 5) == Has(b, 5) && Low(b >> 6) == Has(b, 6) && Low(b >> 7) == Has(b, 7)
  {
  }

  function Has(b: Bitmap, t: nat): nat
    requires t < MAX_NUM_TABLES
  {
    if Bit(b, t) then 1 else 0
  }

  lemma CountStep(b: Bitmap, k: nat)
    requires k < MAX_NUM_TABLES
    ensures CountIn(Tables(b), k + 1) == CountIn(Tables(b), k) + Has(b, k)
  {
  }

  /** The loop over shifted-out bits counts the tables. */
  lemma PopCounts(b: Bitmap)
    ensures PopCount(b) == CountIn(Tables(b), MAX_NUM_TABLES)
  {
    PopChain(b);
    LowBits(b);
    CountAll(b);
  }

  lemma CountAll(b: Bitmap)
    ensures CountIn(Tables(b), MAX_NUM_TABLES) == Has(b, 0) + Has(b, 1) + Has(b, 2) + Has(b, 3)
      + Has(b, 4) + Has(b, 5) + Has(b, 6) + Has(b, 7)
  {
    CountStep(b, 0);
    CountStep(b, 1);
    CountStep(b, 2);
    CountStep(b, 3);
    CountStep(b, 4);
    CountStep(b, 5);
    CountStep(b, 6);
    CountStep(b, 7);
  }
}
