// The duplicate packet detection cache (src/smf/dpd.rs), RFC 6621 sections 5 and 6.
//
// Time is an integer number of nanoseconds. check_and_insert takes the map lock twice: once to
// look an entry up (and perhaps raise it), once to insert; Lookup and Insert are those sections.
module DpdCache {
  import opened Bytes
  import opened DpdKeys

  const SECOND: nat := 1_000_000_000

  datatype Entry = Entry(firstSeen: int, ttl: byte)

  type Table = map<DpdKey, Entry>

  datatype CacheError = DpdStalePacket

  // Ok(true): new, forward. Ok(false): duplicate. Err: smaller TTL, possible attack.
  type Verdict = Result<bool, CacheError>

  function Lookup(table: Table, key: DpdKey, ttl: byte, now: int): (Table, Option<Verdict>) {
    if key in table then
      if table[key].ttl < ttl then (table[key := Entry(now, ttl)], Some(Ok(true)))
      else if table[key].ttl == ttl then (table, Some(Ok(false)))
      else (table, Some(Err(DpdStalePacket)))
    else (table, None)
  }

  function Insert(table: Table, key: DpdKey, ttl: byte, now: int): Table {
    table[key := Entry(now, ttl)]
  }

  function Check(table: Table, key: DpdKey, ttl: byte, now: int): (Table, Verdict) {
    var (t, done) := Lookup(table, key, ttl, now);
    match done
    case Some(v) => (t, v)
    case None => (Insert(t, key, ttl, now), Ok(true))
  }

  function Evicted(table: Table, window: nat, now: int): Table {
    map k | k in table && table[k].firstSeen > now - window :: table[k]
  }

  // spawn_eviction_task ticks every window / 4, unless that is shorter than a second.
  function EvictionInterval(window: nat): Option<nat> {
    if window / 4 < SECOND then None else Some(window / 4)
  }

  function Tick(start: int, interval: nat, n: nat): int {
    start + n * interval
  }

  // The ticks are a quarter of the window apart, in whole nanoseconds, the first one at once; there
  // are none for a window under four seconds.
  lemma TicksAreQuarterWindows(w: nat, start: int, n: nat)
    ensures EvictionInterval(w).Some? <==> w >= 4_000_000_000
    ensures EvictionInterval(w).Some? ==>
              var i := EvictionInterval(w).value;
              && 4 * i <= w < 4 * i + 4
              && Tick(start, i, 0) == start && Tick(start, i, n + 1) == Tick(start, i, n) + i
  {
  }

  class DpdCache {
    var table: Table
    const window: nat

    constructor (window: nat)
      ensures this.window == window && table == map[]
    {
      this.window := window;
      this.table := map[];
    }

    method CheckAndInsert(key: DpdKey, ttl: byte, now: int) returns (r: Verdict)
      modifies this`table
      ensures (table, r) == Check(old(table), key, ttl, now)
    {
      if key in table {
        var entry := table[key];
        if entry.ttl < ttl {
          table := table[key := Entry(now, ttl)];
          return Ok(true);
        } else if entry.ttl == ttl {
          return Ok(false);
        } else {
          return Err(DpdStalePacket);
        }
      }
      table := table[key := Entry(now, ttl)];
      return Ok(true);
    }

    method EvictExpired(now: int)
      modifies this`table
      ensures table == Evicted(old(table), window, now)
    {
      var cutoff := now - window;
      table := map k | k in table && table[k].firstSeen > cutoff :: table[k];
    }

    method Clear()
      modifies this`table
      ensures table == map[]
    {
      table := map[];
    }

    method Len() returns (n: nat)
      ensures n == |table|
    {
      n := |table|;
    }

    // The eviction task, cut off after some number of ticks: what it leaves without traffic in
    // between is what its last tick alone would leave, and a short window gets no task at all.
    method EvictionTicks(start: int, ticks: nat)
      modifies this`table
      ensures ticks == 0 || EvictionInterval(window).None? ==> table == old(table)
      ensures ticks > 0 && EvictionInterval(window).Some? ==>
                table == Evicted(old(table), window, Tick(start, EvictionInterval(window).value, ticks - 1))
    {
      if EvictionInterval(window).None? {
        return;
      }
      var interval := EvictionInterval(window).value;
      var n := 0;
      while n < ticks
        invariant n <= ticks
        invariant n == 0 ==> table == old(table)
        invariant n > 0 ==> table == Evicted(old(table), window, Tick(start, interval, n - 1))
      {
        ghost var before := table;
        EvictExpired(start + n * interval);
        if n > 0 {
          assert Tick(start, interval, n - 1) <= Tick(start, interval, n);
          LaterEvictionSubsumes(old(table), window, Tick(start, interval, n - 1), Tick(start, interval, n));
        }
        n := n + 1;
      }
    }
  }

  lemma LaterEvictionSubsumes(table: Table, window: nat, t: int, u: int)
    requires t <= u
    ensures Evicted(Evicted(table, window, t), window, u) == Evicted(table, window, u)
  {
  }
}
