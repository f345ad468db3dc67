// Whole runs of the cache, one call at a time: running maximum, independence of keys,
// suppression inside the window, bounded memory.
module DpdHistory {
  import opened Bytes
  import opened DpdKeys
  import opened DpdCache

  datatype Event =
    | Call(key: DpdKey, ttl: byte, at: int)
    | Evict(at: int)
    | Clear(at: int)

  function Step(w: nat, table: Table, e: Event): Table {
    match e
    case Call(key, ttl, at) => Check(table, key, ttl, at).0
    case Evict(at) => Evicted(table, w, at)
    case Clear(_) => map[]
  }

  function Run(w: nat, es: seq<Event>): Table {
    if es == [] then map[] else Step(w, Run(w, es[..|es| - 1]), es[|es| - 1])
  }

  // The verdict of the call at position i of a run.
  function VerdictAt(w: nat, es: seq<Event>, i: nat): Verdict
    requires i < |es| && es[i].Call?
  {
    Check(Run(w, es[..i]), es[i].key, es[i].ttl, es[i].at).1
  }

  predicate AcceptedAt(w: nat, es: seq<Event>, i: nat, k: DpdKey) {
    i < |es| && es[i].Call? && es[i].key == k && VerdictAt(w, es, i) == Ok(true)
  }

  lemma RunPrefix(w: nat, es: seq<Event>, n: nat)
    requires n < |es|
    ensures Run(w, es[..n + 1]) == Step(w, Run(w, es[..n]), es[n])
  {
    assert es[..n + 1][..n] == es[..n];
  }

  // ----- A history of one key ---------------------------------------------------------------

  // What happened to a key since it was last removed: the TTLs offered by all its calls, those
  // of them accepted, and when the last one was. No cache is involved.
  datatype History = History(offered: seq<byte>, accepted: seq<byte>, lastAccept: int)

  const REMOVED: History := History([], [], 0)

  function Max(s: seq<byte>): (m: byte)
    requires s != []
    ensures m in s && forall i :: 0 <= i < |s| ==> s[i] <= m
  {
    if |s| == 1 then s[0]
    else
      var m := Max(s[..|s| - 1]);
      if s[|s| - 1] > m then s[|s| - 1] else m
  }

  // A TTL is news when it exceeds everything offered before; a removal is a clear, or an
  // eviction when the last accept is a window old.
  function Record(w: nat, h: History, e: Event, k: DpdKey): History {
    match e
    case Call(key, ttl, at) =>
      if key != k then h
      else if h.offered == [] || ttl > Max(h.offered) then History(h.offered + [ttl], h.accepted + [ttl], at)
      else h.(offered := h.offered + [ttl])
    case Evict(at) => if h.lastAccept + w > at then h else REMOVED
    case Clear(_) => REMOVED
  }

  function HistoryOf(w: nat, es: seq<Event>, k: DpdKey): History {
    if es == [] then REMOVED else Record(w, HistoryOf(w, es[..|es| - 1], k), es[|es| - 1], k)
  }

  // What the cache keeps of a history.
  ghost predicate Represents(table: Table, h: History, k: DpdKey) {
    && (k in table <==> h.offered != [])
    && (k in table ==> table[k] == Entry(h.lastAccept, Max(h.offered)))
  }

  lemma MaxAppend(s: seq<byte>, x: byte)
    requires s != []
    ensures Max(s + [x]) == if x > Max(s) then x else Max(s)
  {
    assert (s + [x])[..|s|] == s;
  }

  lemma RecordRepresents(w: nat, table: Table, h: History, e: Event, k: DpdKey)
    requires Represents(table, h, k)
    ensures Represents(Step(w, table, e), Record(w, h, e, k), k)
  {
    if e.Call? && e.key == k && h.offered != [] {
      MaxAppend(h.offered, e.ttl);
    }
  }

  // Main result: over every run the cache is the history with everything but the maximum and the
  // last accept time forgotten.
  lemma {:induction false} CacheRefinesHistory(w: nat, es: seq<Event>, k: DpdKey)
    ensures Represents(Run(w, es), HistoryOf(w, es, k), k)
  {
    if es != [] {
      CacheRefinesHistory(w, es[..|es| - 1], k);
      RecordRepresents(w, Run(w, es[..|es| - 1]), HistoryOf(w, es[..|es| - 1], k), es[|es| - 1], k);
    }
  }

  // Main result: each verdict compares the TTL with the largest one offered for the key since
  // the key was last removed.
  lemma VerdictIsRunningMaximum(w: nat, es: seq<Event>, i: nat)
    requires i < |es| && es[i].Call?
    ensures var offered := HistoryOf(w, es[..i], es[i].key).offered;
            VerdictAt(w, es, i) ==
              if offered == [] || es[i].ttl > Max(offered) then Ok(true)
              else if es[i].ttl == Max(offered) then Ok(false)
              else Err(DpdStalePacket)
  {
    CacheRefinesHistory(w, es[..i], es[i].key);
  }

  ghost predicate Increasing(s: seq<byte>) {
    forall i, j :: 0 <= i < j < |s| ==> s[i] < s[j]
  }

  lemma {:induction false} IncreasingIsShort(s: seq<byte>)
    requires Increasing(s)
    ensures s != [] ==> s[|s| - 1] >= |s| - 1
    ensures |s| <= 256
  {
    if |s| > 1 {
      IncreasingIsShort(s[..|s| - 1]);
    }
  }

  ghost predicate AcceptsToMax(h: History) {
    && Increasing(h.accepted)
    && (h.offered == [] <==> h.accepted == [])
    && (h.offered != [] ==> h.accepted[|h.accepted| - 1] == Max(h.offered))
  }

  lemma IncreasingAppend(s: seq<byte>, x: byte)
    requires Increasing(s) && (s == [] || s[|s| - 1] < x)
    ensures Increasing(s + [x])
  {
    var t := s + [x];
    forall i, j | 0 <= i < j < |t|
      ensures t[i] < t[j]
    {
      assert i < |s| - 1 ==> s[i] < s[|s| - 1];
    }
  }

  lemma RecordAcceptsToMax(w: nat, h: History, e: Event, k: DpdKey)
    requires AcceptsToMax(h)
    ensures AcceptsToMax(Record(w, h, e, k))
  {
    if e.Call? && e.key == k && (h.offered == [] || e.ttl > Max(h.offered)) {
      IncreasingAppend(h.accepted, e.ttl);
    }
    if e.Call? && e.key == k && h.offered != [] {
      MaxAppend(h.offered, e.ttl);
    }
  }

  // Main result: between two removals the accepted TTLs of a key strictly increase, so at most
  // 256 calls are accepted; the last of them is what the cache holds.
  lemma {:induction false} AcceptedTtlsIncrease(w: nat, es: seq<Event>, k: DpdKey)
    ensures var accepted := HistoryOf(w, es, k).accepted;
            && Increasing(accepted) && |accepted| <= 256
            && (k in Run(w, es) <==> accepted != [])
            && (k in Run(w, es) ==> Run(w, es)[k].ttl == accepted[|accepted| - 1])
  {
    AllAcceptToMax(w, es, k);
    IncreasingIsShort(HistoryOf(w, es, k).accepted);
    CacheRefinesHistory(w, es, k);
  }

  lemma {:induction false} AllAcceptToMax(w: nat, es: seq<Event>, k: DpdKey)
    ensures AcceptsToMax(HistoryOf(w, es, k))
  {
    if es != [] {
      AllAcceptToMax(w, es[..|es| - 1], k);
      RecordAcceptsToMax(w, HistoryOf(w, es[..|es| - 1], k), es[|es| - 1], k);
    }
  }

  // ----- Keys never affect each other ----------------------------------------------------------

  // The run with the calls on other keys taken out.
  function Only(es: seq<Event>, k: DpdKey): seq<Event> {
    if es == [] then []
    else
      var rest, e := Only(es[..|es| - 1], k), es[|es| - 1];
      if e.Call? && e.key != k then rest else rest + [e]
  }

  ghost predicate SameAt(a: Table, b: Table, k: DpdKey) {
    (k in a <==> k in b) && (k in a ==> a[k] == b[k])
  }

  lemma StepKeepsSame(w: nat, a: Table, b: Table, e: Event, k: DpdKey)
    requires SameAt(a, b, k)
    ensures SameAt(Step(w, a, e), Step(w, b, e), k)
    ensures e.Call? && e.key != k ==> SameAt(Step(w, a, e), b, k)
  {
  }

  lemma {:induction false} OnlyIsEnough(w: nat, es: seq<Event>, k: DpdKey)
    ensures SameAt(Run(w, es), Run(w, Only(es, k)), k)
  {
    if es != [] {
      var before, e := es[..|es| - 1], es[|es| - 1];
      var rest := Only(before, k);
      OnlyIsEnough(w, before, k);
      StepKeepsSame(w, Run(w, before), Run(w, rest), e, k);
      assert (rest + [e])[..|rest|] == rest;
    }
  }

  // Main result: entry and verdict of a key are those of the run without the other keys' calls.
  lemma {:induction false} KeysAreIndependent(w: nat, es: seq<Event>, k: DpdKey, ttl: byte, at: int)
    ensures SameAt(Run(w, es), Run(w, Only(es, k)), k)
    ensures Check(Run(w, es), k, ttl, at).1 == Check(Run(w, Only(es, k)), k, ttl, at).1
  {
    OnlyIsEnough(w, es, k);
  }

  // ----- The window ------------------------------------------------------------------------------

  ghost predicate Timed(es: seq<Event>) {
    forall i, j :: 0 <= i < j < |es| ==> es[i].at <= es[j].at
  }

  ghost predicate Holds(table: Table, k: DpdKey, ttl: byte, since: int) {
    k in table && table[k].ttl >= ttl && table[k].firstSeen >= since
  }

  lemma HoldsStep(w: nat, table: Table, e: Event, k: DpdKey, ttl: byte, since: int)
    requires Holds(table, k, ttl, since) && !e.Clear? && since <= e.at < since + w
    ensures Holds(Step(w, table, e), k, ttl, since)
  {
  }

  // After an accepted call the key stays, no lower and no older, until the window is over.
  lemma {:induction false} HeldSince(w: nat, es: seq<Event>, i: nat, n: nat, j: nat)
    requires i < n <= j < |es| && Timed(es)
    requires es[i].Call? && AcceptedAt(w, es, i, es[i].key)
    requires forall m :: i < m < n ==> !es[m].Clear?
    requires es[j].at < es[i].at + w
    ensures Holds(Run(w, es[..n]), es[i].key, es[i].ttl, es[i].at)
    decreases n
  {
    RunPrefix(w, es, n - 1);
    if n > i + 1 {
      HeldSince(w, es, i, n - 1, j);
      HoldsStep(w, Run(w, es[..n - 1]), es[n - 1], es[i].key, es[i].ttl, es[i].at);
    }
  }

  // Main result: whatever evictions run in between, a call on the same key with no larger TTL
  // arriving within the window of an accepted one is not accepted.
  lemma WindowSuppression(w: nat, es: seq<Event>, i: nat, j: nat)
    requires Timed(es) && i < j < |es|
    requires es[i].Call? && es[j].Call? && es[i].key == es[j].key
    requires AcceptedAt(w, es, i, es[i].key)
    requires forall m :: i < m < j ==> !es[m].Clear?
    requires es[j].ttl <= es[i].ttl && es[j].at < es[i].at + w
    ensures VerdictAt(w, es, j) != Ok(true)
  {
    HeldSince(w, es, i, j, j);
  }

  // Every entry was made by the last accepted call on its key, and carries its time and TTL.
  lemma {:induction false} EntryOrigin(w: nat, es: seq<Event>, k: DpdKey) returns (i: nat)
    requires k in Run(w, es)
    ensures AcceptedAt(w, es, i, k) && Run(w, es)[k] == Entry(es[i].at, es[i].ttl)
    ensures forall j :: i < j < |es| ==> !AcceptedAt(w, es, j, k)
  {
    var n := |es| - 1;
    var before := es[..n];
    if AcceptedAt(w, es, n, k) {
      i := n;
    } else {
      i := EntryOrigin(w, before, k);
      forall j | 0 <= j < n
        ensures AcceptedAt(w, es, j, k) == AcceptedAt(w, before, j, k)
      {
        assert before[..j] == es[..j];
      }
    }
  }

  // Main result: an eviction at time u leaves a key exactly when its last accepted call is less
  // than a window old; otherwise the next call on it is accepted with any TTL.
  lemma EvictionExact(w: nat, es: seq<Event>, u: int, k: DpdKey, ttl: byte, at: int)
    requires k in Run(w, es)
    ensures exists i: nat :: AcceptedAt(w, es, i, k) && (forall j :: i < j < |es| ==> !AcceptedAt(w, es, j, k))
              && (k in Run(w, es + [Evict(u)]) <==> u < es[i].at + w)
              && (u >= es[i].at + w ==> VerdictAt(w, es + [Evict(u), Call(k, ttl, at)], |es| + 1) == Ok(true))
  {
    var i := EntryOrigin(w, es, k);
    assert (es + [Evict(u)])[..|es|] == es;
    assert (es + [Evict(u), Call(k, ttl, at)])[..|es| + 1] == es + [Evict(u)];
  }

  // ----- Bounded memory ------------------------------------------------------------------------------

  // By time now every tick of the schedule that lies before now has run.
  ghost predicate OnSchedule(es: seq<Event>, start: int, interval: nat, now: int) {
    forall n: nat :: Tick(start, interval, n) < now ==> Evict(Tick(start, interval, n)) in es
  }

  lemma {:induction false} YoungSinceEviction(w: nat, es: seq<Event>, j: nat, n: nat)
    requires w > 0 && Timed(es) && j < n <= |es| && es[j].Evict?
    ensures forall k :: k in Run(w, es[..n]) ==> Run(w, es[..n])[k].firstSeen > es[j].at - w
    decreases n
  {
    RunPrefix(w, es, n - 1);
    if n > j + 1 {
      YoungSinceEviction(w, es, j, n - 1);
    }
  }

  lemma LastTick(start: int, interval: nat, now: int) returns (n: nat)
    requires interval > 0 && start < now
    ensures now - interval <= Tick(start, interval, n) < now
  {
    n := (now - start - 1) / interval;
    assert n * interval <= now - start - 1 < n * interval + interval;
  }

  // Main result: on the window / 4 schedule no entry gets older than window + window / 4.
  lemma EntriesStayYoung(w: nat, es: seq<Event>, start: int, now: int, k: DpdKey)
    requires EvictionInterval(w).Some? && Timed(es) && start < now
    requires OnSchedule(es, start, EvictionInterval(w).value, now)
    requires k in Run(w, es)
    ensures Run(w, es)[k].firstSeen > now - (w + w / 4)
  {
    var interval := EvictionInterval(w).value;
    var n := LastTick(start, interval, now);
    var tick := Evict(Tick(start, interval, n));
    var j :| 0 <= j < |es| && es[j] == tick;
    YoungSinceEviction(w, es, j, |es|);
    assert es[..|es|] == es;
  }

  function AcceptsAfter(w: nat, es: seq<Event>, cutoff: int): nat {
    if es == [] then 0
    else
      var n := |es| - 1;
      AcceptsAfter(w, es[..n], cutoff)
      + if es[n].Call? && VerdictAt(w, es, n) == Ok(true) && es[n].at > cutoff then 1 else 0
  }

  function YoungKeys(table: Table, cutoff: int): set<DpdKey> {
    set k | k in table && table[k].firstSeen > cutoff
  }

  lemma {:induction false} YoungKeysCounted(w: nat, es: seq<Event>, cutoff: int)
    ensures |YoungKeys(Run(w, es), cutoff)| <= AcceptsAfter(w, es, cutoff)
  {
    if es != [] {
      var n := |es| - 1;
      var before, after := Run(w, es[..n]), Run(w, es);
      YoungKeysCounted(w, es[..n], cutoff);
      if es[n].Call? && VerdictAt(w, es, n) == Ok(true) && es[n].at > cutoff {
        SubsetSize(YoungKeys(after, cutoff), YoungKeys(before, cutoff) + {es[n].key});
      } else {
        SubsetSize(YoungKeys(after, cutoff), YoungKeys(before, cutoff));
      }
    }
  }

  // Main result: the cache never holds more entries than calls accepted in the last
  // window + window / 4.
  lemma MemoryBounded(w: nat, es: seq<Event>, start: int, now: int)
    requires EvictionInterval(w).Some? && Timed(es) && start < now
    requires OnSchedule(es, start, EvictionInterval(w).value, now)
    ensures |Run(w, es)| <= AcceptsAfter(w, es, now - (w + w / 4))
  {
    var cutoff := now - (w + w / 4);
    forall k | k in Run(w, es)
      ensures k in YoungKeys(Run(w, es), cutoff)
    {
      EntriesStayYoung(w, es, start, now, k);
    }
    assert YoungKeys(Run(w, es), cutoff) == Run(w, es).Keys;
    YoungKeysCounted(w, es, cutoff);
  }

  function CalledKeys(es: seq<Event>): set<DpdKey> {
    set e | e in es && e.Call? :: e.key
  }

  // Without evictions and clears the cache keeps every key it was ever called with, however old.
  lemma {:induction false} UnevictedKeysStay(w: nat, es: seq<Event>)
    requires forall e :: e in es ==> e.Call?
    ensures Run(w, es).Keys == CalledKeys(es)
  {
    if es != [] {
      var before, e := es[..|es| - 1], es[|es| - 1];
      assert es == before + [e];
      UnevictedKeysStay(w, before);
      assert CalledKeys(es) == CalledKeys(before) + {e.key};
    }
  }

  // A run without clears whose evictions are ticks of the eviction task.
  ghost predicate DrivenByTask(w: nat, es: seq<Event>, start: int) {
    forall e :: e in es ==>
      match e
      case Call(_, _, _) => true
      case Evict(at) => EvictionInterval(w).Some? && exists n: nat :: at == Tick(start, EvictionInterval(w).value, n)
      case Clear(_) => false
  }

  // With a window of at least four seconds a tick a window after a call removes its key.
  lemma TickRemoves(w: nat, k: DpdKey, ttl: byte)
    requires w >= 4 * SECOND
    ensures var es := [Call(k, ttl, 0), Evict(w)];
            Timed(es) && DrivenByTask(w, es, w) && Run(w, es).Keys != CalledKeys(es)
  {
    var es := [Call(k, ttl, 0), Evict(w)];
    assert Tick(w, EvictionInterval(w).value, 0) == w;
    RunPrefix(w, es, 0);
    RunPrefix(w, es, 1);
    assert es[..0] == [] && es[..2] == es;
    assert Run(w, es[..1]) == map[k := Entry(0, ttl)];
    assert k !in Run(w, es);
    assert es[0] in es && k in CalledKeys(es);
  }

  // Main result: below four seconds, and only there, the eviction task never frees anything: every
  // run keeps exactly the keys it was called with.
  lemma KeysStayForeverIff(w: nat)
    ensures (forall es, start :: Timed(es) && DrivenByTask(w, es, start) ==> Run(w, es).Keys == CalledKeys(es))
            <==> w < 4 * SECOND
  {
    if w < 4 * SECOND {
      forall es, start | Timed(es) && DrivenByTask(w, es, start)
        ensures Run(w, es).Keys == CalledKeys(es)
      {
        UnevictedKeysStay(w, es);
      }
    } else {
      TickRemoves(w, DpdKey(V4(UNSPECIFIED_V4), V4(UNSPECIFIED_V4), 0), 64);
    }
  }

  // A clear makes the cache forget: what follows it behaves as on a new cache.
  lemma {:induction false} ClearStartsAfresh(w: nat, es: seq<Event>, at: int, later: seq<Event>)
    ensures Run(w, es + [Clear(at)] + later) == Run(w, later)
    decreases |later|
  {
    var all := es + [Clear(at)] + later;
    if later == [] {
      assert all[..|all| - 1] == es;
    } else {
      assert all[..|all| - 1] == es + [Clear(at)] + later[..|later| - 1];
      ClearStartsAfresh(w, es, at, later[..|later| - 1]);
    }
  }
}
