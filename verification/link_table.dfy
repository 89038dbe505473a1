/** The link statistics of all neighbours: the entries of one neighbour table, found, added
    and updated by the two callbacks of os/net/link-stats.c. */
module LinkTable {
  import opened Bitmaps
  import opened LinkStats
  import opened List
  import opened NbrModel
  import opened NbrTable

  /** How the module is built: the initial ETX, the freshness limit and the clock's range. */
  datatype Config = Config(fromRssi: bool, expiration: nat, w: nat)

  /** The table with an entry for `a`, if it has one or `adds` says to add one and there is
      room; a new entry starts as `initial`. */
  function Entered(v: Neighbors<Stat>, t: int, a: Addr, adds: bool, initial: Stat): (r: (bool, Neighbors<Stat>))
    requires t < MAX_NUM_TABLES
    ensures r.0 ==> t >= 0 && (t, a) in r.1.entries
    ensures !r.0 ==> r.1 == v
  {
    if t >= 0 && (t, a) in v.entries then (true, v)
    else if t < 0 || !adds then (false, v)
    else
      var (ok, w) := Add(v, t, a, BLANK);
      if ok then (true, Put(w, t, a, initial)) else (false, v)
  }

  /** link_stats_packet_sent: a neighbour is added only if the packet got through. */
  function SentOn(v: Neighbors<Stat>, t: int, c: Config, a: Addr, status: Status, numtx: nat, now: nat, later: nat)
    : Neighbors<Stat>
    requires t < MAX_NUM_TABLES && c.w > 0
  {
    if status == TxOther then v
    else
      var (ok, x) := Entered(v, t, a, status == TxOk, BLANK.(etx := InitialEtx(c.fromRssi, 0)));
      if ok then Put(x, t, a, AfterSent(x.entries[(t, a)], status, numtx, now, later, c.expiration, c.w)) else v
  }

  /** link_stats_input_callback. */
  function HeardOn(v: Neighbors<Stat>, t: int, c: Config, a: Addr, rssi: int): Neighbors<Stat>
    requires t < MAX_NUM_TABLES
  {
    if t >= 0 && (t, a) in v.entries then
      var s := v.entries[(t, a)];
      Put(v, t, a, s.(rssi := RssiEwma(s.rssi, rssi)))
    else Entered(v, t, a, true, Stat(0, InitialEtx(c.fromRssi, rssi), rssi, 0)).1
  }

  /** Over the neighbour tables of all modules; `table` is -1 if there was none left. */
  class Links {
    const tables: NbrTables<Stat>
    const table: int
    const config: Config

    ghost predicate Valid()
      reads tables.Repr()
    {
      tables.Valid() && tables.zero == BLANK && -1 <= table < MAX_NUM_TABLES && config.w > 0
    }

    constructor (tables: NbrTables<Stat>, table: int, config: Config)
      requires tables.Valid() && tables.zero == BLANK && -1 <= table < MAX_NUM_TABLES && config.w > 0
      ensures Valid() && this.tables == tables && this.table == table && this.config == config
    {
      this.tables, this.table, this.config := tables, table, config;
    }

    /** A new entry, with the fields that the caller sets first. */
    method AddEntry(l: Lladdr, initial: Stat) returns (item: int)
      requires Valid() && (table >= 0 ==> (table, l.Resolve()) !in tables.view.entries)
      modifies tables, tables.keys, tables.keys.next, tables.lladdr, tables.usedMap, tables.memory.used
      ensures Valid()
      ensures (item != NO_SLOT, tables.view) == Entered(old(tables.view), table, l.Resolve(), true, initial)
      ensures item != NO_SLOT ==>
        item in tables.keys.elems && 0 <= item < tables.lladdr.Length && tables.lladdr[item] == l.Resolve()
    {
      item := tables.AddLladdr(table, l);
      if item != NO_SLOT {
        tables.Store(table, item, initial);
      }
    }

    /** The entry, added if need be and allowed. */
    method Entry(l: Lladdr, adds: bool, initial: Stat) returns (item: int)
      requires Valid()
      modifies tables, tables.keys, tables.keys.next, tables.lladdr, tables.usedMap, tables.memory.used
      ensures Valid()
      ensures (item != NO_SLOT, tables.view) == Entered(old(tables.view), table, l.Resolve(), adds, initial)
      ensures item != NO_SLOT ==>
        item in tables.keys.elems && 0 <= item < tables.lladdr.Length && tables.lladdr[item] == l.Resolve()
    {
      item := tables.GetFromLladdr(table, l);
      if item == NO_SLOT && adds {
        item := AddEntry(l, initial);
      }
    }

    method PacketSent(l: Lladdr, status: Status, numtx: nat, now: nat, later: nat)
      requires Valid()
      modifies tables, tables.keys, tables.keys.next, tables.lladdr, tables.usedMap, tables.memory.used
      ensures Valid()
      ensures tables.view == SentOn(old(tables.view), table, config, l.Resolve(), status, numtx, now, later)
    {
      if status == TxOther {
        return;
      }
      var item := Entry(l, status == TxOk, BLANK.(etx := InitialEtx(config.fromRssi, 0)));
      if item == NO_SLOT {
        return;
      }
      var stats := tables.Load(table, item);
      stats := Update(stats, status, numtx, now, later, config.expiration, config.w);
      tables.Store(table, item, stats);
    }

    method InputCallback(l: Lladdr, rssi: int)
      requires Valid()
      modifies tables, tables.keys, tables.keys.next, tables.lladdr, tables.usedMap, tables.memory.used
      ensures Valid() && tables.view == HeardOn(old(tables.view), table, config, l.Resolve(), rssi)
    {
      var item := tables.GetFromLladdr(table, l);
      if item == NO_SLOT {
        item := AddEntry(l, Stat(0, InitialEtx(config.fromRssi, rssi), rssi, 0));
        return;
      }
      var stats := tables.Load(table, item);
      tables.Store(table, item, stats.(rssi := RssiEwma(stats.rssi, rssi)));
    }
  }

  // ---- What the callbacks keep ----

  /** A neighbour without statistics gains them exactly if the packet got through and the
      shared list has room or an unlocked victim. */
  lemma KnownAfterSent(v: Neighbors<Stat>, t: nat, c: Config, a: Addr, status: Status, numtx: nat, now: nat, later: nat)
    requires WellFormed(v) && t < MAX_NUM_TABLES && c.w > 0
    ensures (t, a) in SentOn(v, t, c, a, status, numtx, now, later).entries <==>
      || (t, a) in v.entries
      || (status == TxOk
          && (a in v.order || |v.order| < v.capacity || exists j :: 0 <= j < |v.order| && !LockedAt(v, j)))
  {
    AddSucceeds(v, a);
  }

  /** A new entry starts from two transmissions when the first packet got through, and from
      what the signal strength suggests when the first packet was heard. */
  lemma NewNeighbour(v: Neighbors<Stat>, t: nat, c: Config, a: Addr, numtx: nat, now: nat, later: nat, rssi: int)
    requires WellFormed(v) && t < MAX_NUM_TABLES && c.w > 0 && (t, a) !in v.entries
    requires a in v.order || |v.order| < v.capacity || exists j :: 0 <= j < |v.order| && !LockedAt(v, j)
    ensures var x, y := SentOn(v, t, c, a, TxOk, numtx, now, later), HeardOn(v, t, c, a, rssi);
      && (t, a) in x.entries
      && x.entries[(t, a)] == AfterSent(Stat(0, 2 * 128, 0, 0), TxOk, numtx, now, later, c.expiration, c.w)
      && (t, a) in y.entries && y.entries[(t, a)].rssi == rssi && y.entries[(t, a)].freshness == 0
      && y.entries[(t, a)].etx == if c.fromRssi then GuessEtxFromRssi(rssi) else 2 * 128
  {
    AddSucceeds(v, a);
  }

  /** Whatever is left of the other entries, in this table and in others, is unchanged; and
      unless a new neighbour took the place of the victim, all of them are left. */
  lemma SentFrame(v: Neighbors<Stat>, t: nat, c: Config, a: Addr, status: Status, numtx: nat, now: nat, later: nat)
    requires WellFormed(v) && t < MAX_NUM_TABLES && c.w > 0
    ensures var x := SentOn(v, t, c, a, status, numtx, now, later);
      && (forall u, b :: (u, b) in x.entries && (u, b) != (t, a) ==>
            (u, b) in v.entries && x.entries[(u, b)] == v.entries[(u, b)])
      && (a in v.order || |v.order| < v.capacity || status != TxOk ==>
            forall u, b :: (u, b) in v.entries ==> (u, b) in x.entries)
  {
  }

  /** An event of the system: a packet to or from a neighbour, or what another module does
      to the shared tables; it does not add to or store in this module's table. */
  datatype Event =
    | Sent(a: Addr, status: Status, numtx: nat, now: nat, later: nat)
    | Heard(a: Addr, rssi: int)
    | Elsewhere(call: Call<Stat>)

  ghost predicate Allowed(v: Neighbors<Stat>, t: nat, e: Event) {
    match e
    case Sent(_, _, _, _, _) => true
    case Heard(_, rssi) => -0x8000 <= rssi < 0x8000
    case Elsewhere(call) => Legal(v, call) && (call.t == t ==> call.RemoveCall? || call.LockCall?)
  }

  function React(v: Neighbors<Stat>, t: nat, c: Config, e: Event): Neighbors<Stat>
    requires t < MAX_NUM_TABLES && c.w > 0
  {
    match e
    case Sent(a, status, numtx, now, later) => SentOn(v, t, c, a, status, numtx, now, later)
    case Heard(a, rssi) => HeardOn(v, t, c, a, rssi)
    case Elsewhere(call) => Apply(v, call, BLANK)
  }

  /** Sound tables, and every entry of this one has its ETX between one transmission and `m`
      transmissions. */
  ghost predicate Within(v: Neighbors<Stat>, t: nat, m: nat) {
    WellFormed(v) && forall a :: (t, a) in v.entries ==> StatWithin(v.entries[(t, a)], m)
  }

  predicate StatWithin(s: Stat, m: nat) {
    StatOk(s) && ETX_DIVISOR <= s.etx <= m * ETX_DIVISOR
  }

  /** No packet is sent more often than `m` times, the penalty included, nor not at all. */
  predicate Bounded(e: Event, m: nat) {
    e.Sent? ==> 1 <= e.numtx && e.numtx + (if e.status == TxNoack then ETX_NOACK_PENALTY else 0) <= m
  }

  /** A sample is cut to 16 bits exactly from 512 transmissions on. */
  lemma SampleExactly(status: Status, numtx: nat)
    ensures var n := numtx + (if status == TxNoack then ETX_NOACK_PENALTY else 0);
      Sample(status, numtx) == n * ETX_DIVISOR <==> n < 512
  {
  }

  lemma AfterSentWithin(s: Stat, e: Event, m: nat, c: Config)
    requires e.Sent? && Bounded(e, m) && 3 <= m < 512 && c.w > 0 && StatWithin(s, m)
    ensures StatWithin(AfterSent(s, e.status, e.numtx, e.now, e.later, c.expiration, c.w), m)
  {
    SampleExactly(e.status, e.numtx);
    EwmaBetween(s.etx, Sample(e.status, e.numtx), EWMA_ALPHA);
    EwmaBetween(s.etx, Sample(e.status, e.numtx), EWMA_BOOTSTRAP_ALPHA);
  }

  lemma PutWithin(v: Neighbors<Stat>, t: nat, a: Addr, s: Stat, m: nat)
    requires Within(v, t, m) && t < MAX_NUM_TABLES && a in v.order && StatWithin(s, m)
    ensures Within(Put(v, t, a, s), t, m)
  {
  }

  lemma EnteredWithin(v: Neighbors<Stat>, t: nat, a: Addr, adds: bool, s: Stat, m: nat)
    requires Within(v, t, m) && t < MAX_NUM_TABLES && StatWithin(s, m)
    ensures Within(Entered(v, t, a, adds, s).1, t, m)
  {
    AllocateKeeps(v, a);
    var x := Allocate(v, a);
    if x.0 {
      PutWithin(x.1, t, a, s, m);
      assert Put(Put(x.1, t, a, BLANK), t, a, s) == Put(x.1, t, a, s);
    }
  }

  lemma ReactWithin(v: Neighbors<Stat>, t: nat, c: Config, e: Event, m: nat)
    requires Within(v, t, m) && t < MAX_NUM_TABLES && c.w > 0 && Allowed(v, t, e) && Bounded(e, m) && 3 <= m < 512
    ensures Within(React(v, t, c, e), t, m)
  {
    match e
    case Sent(a, status, _, _, _) =>
      GuessBounds(0, 0);
      var s := BLANK.(etx := InitialEtx(c.fromRssi, 0));
      var (ok, x) := Entered(v, t, a, status == TxOk, s);
      EnteredWithin(v, t, a, status == TxOk, s, m);
      if status != TxOther && ok {
        AfterSentWithin(x.entries[(t, a)], e, m, c);
        PutWithin(x, t, a, AfterSent(x.entries[(t, a)], status, e.numtx, e.now, e.later, c.expiration, c.w), m);
      }
    case Heard(a, rssi) =>
      GuessBounds(rssi, rssi);
      EnteredWithin(v, t, a, true, Stat(0, InitialEtx(c.fromRssi, rssi), rssi, 0), m);
      if (t, a) in v.entries {
        var s := v.entries[(t, a)];
        RssiBetween(s.rssi, rssi);
        PutWithin(v, t, a, s.(rssi := RssiEwma(s.rssi, rssi)), m);
      }
    case Elsewhere(call) =>
      ApplyKeeps(v, call, BLANK);
  }

  function Reacts(v: Neighbors<Stat>, t: nat, c: Config, events: seq<Event>): Neighbors<Stat>
    requires t < MAX_NUM_TABLES && c.w > 0
    decreases |events|
  {
    if events == [] then v else Reacts(React(v, t, c, events[0]), t, c, events[1..])
  }

  ghost predicate AllowedRun(v: Neighbors<Stat>, t: nat, c: Config, events: seq<Event>)
    requires t < MAX_NUM_TABLES && c.w > 0
    decreases |events|
  {
    events != [] ==> Allowed(v, t, events[0]) && AllowedRun(React(v, t, c, events[0]), t, c, events[1..])
  }

  /** Over any run of callbacks, with neighbours coming, going and being evicted by other
      modules' tables, every link's ETX stays between one transmission and the most that any
      packet took, as long as that is below 512. */
  lemma {:induction false} RunWithin(v: Neighbors<Stat>, t: nat, c: Config, events: seq<Event>, m: nat)
    requires Within(v, t, m) && t < MAX_NUM_TABLES && c.w > 0 && 3 <= m < 512
    requires AllowedRun(v, t, c, events) && forall e :: e in events ==> Bounded(e, m)
    ensures Within(Reacts(v, t, c, events), t, m)
    decreases |events|
  {
    if events != [] {
      assert events[0] in events && forall e :: e in events[1..] ==> e in events;
      ReactWithin(v, t, c, events[0], m);
      RunWithin(React(v, t, c, events[0]), t, c, events[1..], m);
    }
  }
}
