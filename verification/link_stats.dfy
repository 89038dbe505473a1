/** The moving average of a link's expected transmission count, in 16-bit fixed point. */
module LinkStats {
  import opened Basics
  import opened Modular

  const EWMA_SCALE := 100
  const EWMA_ALPHA := 10
  const EWMA_BOOTSTRAP_ALPHA := 25
  const ETX_DIVISOR := 128
  const ETX_NOACK_PENALTY := 12
  const ETX_DEFAULT := 2
  const FRESHNESS_TARGET := 4
  const FRESHNESS_MAX := 16

  predicate IsAlpha(a: nat) {
    a == EWMA_ALPHA || a == EWMA_BOOTSTRAP_ALPHA
  }

  function Ewma(etx: nat, packet: nat, a: nat): nat
    requires IsAlpha(a)
  {
    (etx * (EWMA_SCALE - a) + packet * a) / EWMA_SCALE
  }

  /** The new value lies between the old one and the sample, moves towards the sample from
      above at every packet, and stands still exactly within one resolution step below. */
  lemma EwmaBetween(e: nat, p: nat, a: nat)
    requires IsAlpha(a)
    ensures Min(e, p) <= Ewma(e, p, a) <= Max(e, p)
    ensures e > p ==> Ewma(e, p, a) < e
    ensures Ewma(e, p, a) == e <==> 0 <= a * (p - e) < EWMA_SCALE
  {
  }

  /** Larger inputs never give a smaller estimate. */
  lemma EwmaMonotone(e: nat, f: nat, p: nat, q: nat, a: nat)
    requires IsAlpha(a) && e <= f && p <= q
    ensures Ewma(e, p, a) <= Ewma(f, q, a)
  {
  }

  function Run(e: nat, p: nat, alphas: seq<nat>): nat
    requires forall i :: 0 <= i < |alphas| ==> IsAlpha(alphas[i])
    decreases |alphas|
  {
    if alphas == [] then e else Run(Ewma(e, p, alphas[0]), p, alphas[1..])
  }

  /** Close enough below the sample that nothing moves any more, whichever factor is used. */
  predicate Settled(e: int, p: int) {
    p - 10 < e <= p
  }

  function Distance(e: int, p: int): nat {
    if e < p then p - e else e - p
  }

  lemma EwmaApproaches(e: nat, p: nat, a: nat)
    requires IsAlpha(a)
    ensures Settled(e, p) ==> Settled(Ewma(e, p, a), p)
    ensures !Settled(e, p) ==> Distance(Ewma(e, p, a), p) < Distance(e, p)
  {
  }

  /** Under a constant sample the estimate reaches the last ten steps below it after at most
      as many packets as it was away, and stays there, for any mix of the two factors. */
  lemma {:induction false} Converges(e: nat, p: nat, alphas: seq<nat>)
    requires forall i :: 0 <= i < |alphas| ==> IsAlpha(alphas[i])
    requires |alphas| >= Distance(e, p) || Settled(e, p)
    ensures Settled(Run(e, p, alphas), p)
    decreases |alphas|
  {
    if alphas != [] {
      EwmaApproaches(e, p, alphas[0]);
      Converges(Ewma(e, p, alphas[0]), p, alphas[1..]);
    }
  }

  /** On the way it never turns round and never passes the sample. */
  lemma {:induction false} ApproachesMonotonically(e: nat, p: nat, alphas: seq<nat>)
    requires forall i :: 0 <= i < |alphas| ==> IsAlpha(alphas[i])
    ensures e <= p ==> e <= Run(e, p, alphas) <= p
    ensures e >= p ==> p <= Run(e, p, alphas) <= e
    decreases |alphas|
  {
    if alphas != [] {
      EwmaBetween(e, p, alphas[0]);
      ApproachesMonotonically(Ewma(e, p, alphas[0]), p, alphas[1..]);
    }
  }

  // ---- Initial guess from the signal strength ----

  const ETX_INIT_MAX := 3
  const RSSI_HIGH := -60
  const RSSI_LOW := -90
  const RSSI_DIFF := RSSI_HIGH - RSSI_LOW

  function GuessEtxFromRssi(rssi: int): nat {
    if rssi == 0 then ETX_DEFAULT * ETX_DIVISOR
    else
      var bounded := Max(Min(rssi, RSSI_HIGH), RSSI_LOW + 1);
      Min(RSSI_DIFF * ETX_DIVISOR / (bounded - RSSI_LOW), ETX_INIT_MAX * ETX_DIVISOR)
  }

  /** The guess is at least one transmission and at most three, the two ends being reached
      at -60 and at -80, and a stronger signal never makes it worse. */
  lemma GuessBounds(r: int, s: int)
    ensures ETX_DIVISOR <= GuessEtxFromRssi(r) <= ETX_INIT_MAX * ETX_DIVISOR
    ensures r != 0 && r >= RSSI_HIGH ==> GuessEtxFromRssi(r) == ETX_DIVISOR
    ensures r <= -80 ==> GuessEtxFromRssi(r) == ETX_INIT_MAX * ETX_DIVISOR
    ensures r != 0 && s != 0 && r <= s ==> GuessEtxFromRssi(s) <= GuessEtxFromRssi(r)
  {
    GuessRange(r);
    GuessRange(s);
    if r != 0 && s != 0 && r <= s {
      var a, b := Max(Min(r, RSSI_HIGH), RSSI_LOW + 1) + 90, Max(Min(s, RSSI_HIGH), RSSI_LOW + 1) + 90;
      QuotientOrder(RSSI_DIFF * ETX_DIVISOR, a, b);
    }
  }

  lemma QuotientOrder(n: nat, a: nat, b: nat)
    requires 0 < a <= b
    ensures n / b <= n / a
  {
    var q, r := n / b, n % b;
    DivNat(n, b);
    assert n == q * b + r;
    MulDistrib(b, a, q);
    MulAtLeastZero(b - a, q);
    QuotientAtLeast(n, a, q, (b - a) * q + r);
  }

  lemma MulAtLeastZero(x: nat, y: nat)
    ensures x * y >= 0
  {
  }

  lemma QuotientAtLeast(n: nat, a: nat, q: nat, x: nat)
    requires a > 0 && n == q * a + x
    ensures q <= n / a
  {
    assert x == x / a * a + x % a;
    MulDistrib(q, x / a, a);
    DivNat(x, a);
    ModUnique(n, a, q + x / a, x % a);
  }

  lemma GuessRange(r: int)
    ensures ETX_DIVISOR <= GuessEtxFromRssi(r) <= ETX_INIT_MAX * ETX_DIVISOR
    ensures r != 0 && r >= RSSI_HIGH ==> GuessEtxFromRssi(r) == ETX_DIVISOR
    ensures r <= -80 ==> GuessEtxFromRssi(r) == ETX_INIT_MAX * ETX_DIVISOR
  {
    var a := Max(Min(r, RSSI_HIGH), RSSI_LOW + 1) + 90;
    assert 1 <= a <= 30;
    QuotientOrder(3840, a, 30);
    if r <= -80 {
      QuotientOrder(3840, a, 10);
    }
  }

  // ---- The statistics of one neighbour ----

  datatype Status = TxOk | TxNoack | TxOther

  /** struct link_stats. */
  datatype Stat = Stat(lastTxTime: nat, etx: nat, rssi: int, freshness: nat)

  /** How nbr_table_add_lladdr leaves an item. */
  const BLANK: Stat := Stat(0, 0, 0, 0)

  /** The fields hold what their C types can. */
  predicate StatOk(s: Stat) {
    s.etx < HALF_WORD && -0x8000 <= s.rssi < 0x8000 && s.freshness <= FRESHNESS_MAX
  }

  /** The ETX of a new entry, with and without LINK_STATS_INIT_ETX_FROM_RSSI. */
  function InitialEtx(fromRssi: bool, rssi: int): nat {
    if fromRssi then GuessEtxFromRssi(rssi) else ETX_DEFAULT * ETX_DIVISOR
  }

  /** link_stats_is_fresh, on a clock that shows times modulo `w`. */
  predicate IsFresh(s: Stat, now: nat, expiration: nat, w: nat)
    requires w > 0
  {
    (now - s.lastTxTime) % w < expiration && s.freshness >= FRESHNESS_TARGET
  }

  /** The ETX sample of a packet, cut to 16 bits. */
  function Sample(status: Status, numtx: nat): (p: nat)
    ensures p < HALF_WORD
  {
    (numtx + if status == TxNoack then ETX_NOACK_PENALTY else 0) * ETX_DIVISOR % HALF_WORD
  }

  /** What a packet's outcome makes of its entry; the clock is read twice. */
  function AfterSent(s: Stat, status: Status, numtx: nat, now: nat, later: nat, expiration: nat, w: nat): Stat
    requires w > 0
  {
    var t := s.(lastTxTime := now, freshness := Min(s.freshness + numtx, FRESHNESS_MAX));
    t.(etx := Ewma(s.etx, Sample(status, numtx),
                   if IsFresh(t, later, expiration, w) then EWMA_ALPHA else EWMA_BOOTSTRAP_ALPHA))
  }

  /** The new estimate in numbers: it keeps nine tenths of the old value if the statistics
      are fresh, and three quarters if not. */
  lemma EtxAfterSent(s: Stat, status: Status, numtx: nat, now: nat, later: nat, expiration: nat, w: nat)
    requires w > 0
    ensures var t, p := AfterSent(s, status, numtx, now, later, expiration, w), Sample(status, numtx);
      && t.lastTxTime == now && t.rssi == s.rssi
      && t.freshness == (if s.freshness + numtx < 16 then s.freshness + numtx else 16)
      && (if (later - now) % w < expiration && t.freshness >= 4
          then 100 * t.etx <= 90 * s.etx + 10 * p < 100 * t.etx + 100
          else 100 * t.etx <= 75 * s.etx + 25 * p < 100 * t.etx + 100)
  {
  }

  /** The part of link_stats_packet_sent that updates the entry. */
  method Update(stats: Stat, status: Status, numtx: nat, now: nat, later: nat, expiration: nat, w: nat)
    returns (r: Stat)
    requires w > 0
    ensures r == AfterSent(stats, status, numtx, now, later, expiration, w)
    ensures Min(stats.etx, Sample(status, numtx)) <= r.etx <= Max(stats.etx, Sample(status, numtx))
    ensures StatOk(stats) ==> StatOk(r)
  {
    r := stats.(lastTxTime := now, freshness := Min(stats.freshness + numtx, FRESHNESS_MAX));
    var count := numtx;
    if status == TxNoack {
      count := count + ETX_NOACK_PENALTY;
    }
    var packetEtx := count * ETX_DIVISOR % HALF_WORD;
    var alpha := if IsFresh(r, later, expiration, w) then EWMA_ALPHA else EWMA_BOOTSTRAP_ALPHA;
    EwmaBetween(stats.etx, packetEtx, alpha);
    r := r.(etx := (stats.etx * (EWMA_SCALE - alpha) + packetEtx * alpha) / EWMA_SCALE);
  }

  /** The average of signal strengths, rounded towards zero as C divides. */
  function RssiEwma(rssi: int, packet: int): int {
    var x := rssi * (EWMA_SCALE - EWMA_ALPHA) + packet * EWMA_ALPHA;
    if x >= 0 then x / EWMA_SCALE else -(-x / EWMA_SCALE)
  }

  /** It moves a tenth of the way, within less than one unit. */
  lemma RssiMoves(r: int, p: int)
    ensures -10 < 10 * (RssiEwma(r, p) - r) - (p - r) < 10
  {
  }

  /** It lies between the old value and the new one, so that it fits their type. */
  lemma RssiBetween(r: int, p: int)
    ensures Min(r, p) <= RssiEwma(r, p) <= Max(r, p)
  {
  }
}
