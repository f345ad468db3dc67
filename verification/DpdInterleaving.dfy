// Concurrent callers of check_and_insert (src/smf/dpd.rs:60-84): the lookup section and the insert
// section are separate atomic steps, interleaved with each other, with eviction and with clear.
module DpdInterleaving {
  import opened Bytes
  import opened DpdKeys
  import opened DpdCache

  // Where a caller stands: outside, before its lookup section, or between the two sections.
  // The time is read once, on entry.
  datatype Caller =
    | Idle
    | AtLookup(key: DpdKey, ttl: byte, now: int)
    | AtInsert(key: DpdKey, ttl: byte, now: int)

  datatype Accept = Accept(key: DpdKey, ttl: byte, now: int)

  // accepts is history: one element per call answered with Ok(true), in order, with the time its
  // caller read on entry.
  datatype State = State(table: Table, callers: map<nat, Caller>, accepts: seq<Accept>)

  datatype Action =
    | Enter(id: nat, key: DpdKey, ttl: byte, now: int)
    | LookupSection(id: nat)
    | InsertSection(id: nat)
    | EvictAll(now: int)
    | ClearAll

  function CallerOf(s: State, id: nat): Caller {
    if id in s.callers then s.callers[id] else Idle
  }

  predicate Enabled(s: State, a: Action) {
    match a
    case Enter(id, _, _, _) => CallerOf(s, id).Idle?
    case LookupSection(id) => CallerOf(s, id).AtLookup?
    case InsertSection(id) => CallerOf(s, id).AtInsert?
    case EvictAll(_) => true
    case ClearAll => true
  }

  function Next(w: nat, s: State, a: Action): State
    requires Enabled(s, a)
  {
    match a
    case Enter(id, key, ttl, now) => s.(callers := s.callers[id := AtLookup(key, ttl, now)])
    case LookupSection(id) =>
      var c := CallerOf(s, id);
      var (table, done) := Lookup(s.table, c.key, c.ttl, c.now);
      if done.None? then s.(callers := s.callers[id := AtInsert(c.key, c.ttl, c.now)])
      else State(table, s.callers[id := Idle],
                 if done.value == Ok(true) then s.accepts + [Accept(c.key, c.ttl, c.now)] else s.accepts)
    case InsertSection(id) =>
      var c := CallerOf(s, id);
      State(Insert(s.table, c.key, c.ttl, c.now), s.callers[id := Idle], s.accepts + [Accept(c.key, c.ttl, c.now)])
    case EvictAll(now) => s.(table := Evicted(s.table, w, now))
    case ClearAll => s.(table := map[])
  }

  ghost predicate Runs(w: nat, s: State, acts: seq<Action>)
    decreases |acts|
  {
    acts == [] || (Enabled(s, acts[0]) && Runs(w, Next(w, s, acts[0]), acts[1..]))
  }

  function Exec(w: nat, s: State, acts: seq<Action>): State
    requires Runs(w, s, acts)
    decreases |acts|
  {
    if acts == [] then s else Exec(w, Next(w, s, acts[0]), acts[1..])
  }

  const START: State := State(map[], map[], [])

  // ----- The table follows the last accept -----------------------------------------------------

  function LastAccepted(accepts: seq<Accept>, k: DpdKey): Option<Entry> {
    if accepts == [] then None
    else
      var a := accepts[|accepts| - 1];
      if a.key == k then Some(Entry(a.now, a.ttl)) else LastAccepted(accepts[..|accepts| - 1], k)
  }

  ghost predicate FollowsLastAccept(s: State) {
    forall k :: k in s.table ==> LastAccepted(s.accepts, k) == Some(s.table[k])
  }

  lemma FollowsLastAcceptStep(w: nat, s: State, a: Action)
    requires FollowsLastAccept(s) && Enabled(s, a)
    ensures FollowsLastAccept(Next(w, s, a))
  {
    var s' := Next(w, s, a);
    if s'.accepts != s.accepts {
      assert s'.accepts[..|s'.accepts| - 1] == s.accepts;
    }
  }

  // Main result: in every interleaving a present entry holds the TTL of the most recent accept and
  // the time at which that caller entered.
  lemma {:induction false} EntryIsLastAccept(w: nat, s: State, acts: seq<Action>)
    requires FollowsLastAccept(s) && Runs(w, s, acts)
    ensures FollowsLastAccept(Exec(w, s, acts))
    decreases |acts|
  {
    if acts != [] {
      FollowsLastAcceptStep(w, s, acts[0]);
      EntryIsLastAccept(w, Next(w, s, acts[0]), acts[1..]);
    }
  }

  // ----- Where accepts can fail to increase ----------------------------------------------------------

  // The TTLs a run accepts on k, in order.
  function AcceptsOf(w: nat, s: State, acts: seq<Action>, k: DpdKey): seq<byte>
    requires Runs(w, s, acts)
    decreases |acts|
  {
    if acts == [] then []
    else
      var s' := Next(w, s, acts[0]);
      (if AcceptsOn(w, s, acts[0], k) then [s'.accepts[|s.accepts|].ttl] else [])
      + AcceptsOf(w, s', acts[1..], k)
  }

  predicate AcceptsOn(w: nat, s: State, a: Action, k: DpdKey)
    requires Enabled(s, a)
  {
    var s' := Next(w, s, a);
    |s'.accepts| > |s.accepts| && s'.accepts[|s.accepts|].key == k
  }

  // The key is in the table before and after every step.
  ghost predicate Stays(w: nat, s: State, acts: seq<Action>, k: DpdKey)
    requires Runs(w, s, acts)
    decreases |acts|
  {
    k in s.table && (acts == [] || Stays(w, Next(w, s, acts[0]), acts[1..], k))
  }

  // An insert section on k replaces an entry that holds as large a TTL.
  predicate LowOverwrite(s: State, a: Action, k: DpdKey)
    requires Enabled(s, a)
  {
    && a.InsertSection? && CallerOf(s, a.id).key == k
    && k in s.table && CallerOf(s, a.id).ttl <= s.table[k].ttl
  }

  // No insert section on k finds an entry that is already there with as large a TTL.
  ghost predicate NoLowOverwrite(w: nat, s: State, acts: seq<Action>, k: DpdKey)
    requires Runs(w, s, acts)
    decreases |acts|
  {
    acts == [] || (!LowOverwrite(s, acts[0], k) && NoLowOverwrite(w, Next(w, s, acts[0]), acts[1..], k))
  }

  predicate Ascends(base: byte, ttls: seq<byte>)
    decreases |ttls|
  {
    ttls == [] || (base < ttls[0] && Ascends(ttls[0], ttls[1..]))
  }

  lemma AcceptSetsTtl(w: nat, s: State, a: Action, k: DpdKey)
    requires Enabled(s, a) && k in s.table && k in Next(w, s, a).table
    ensures var s' := Next(w, s, a);
            s'.table[k].ttl == if AcceptsOn(w, s, a, k) then s'.accepts[|s.accepts|].ttl else s.table[k].ttl
    ensures AcceptsOn(w, s, a, k) ==>
              (Next(w, s, a).table[k].ttl > s.table[k].ttl <==> !LowOverwrite(s, a, k))
  {
  }

  // Main result: while a key stays present, its accepted TTLs ascend exactly when no insert
  // section overwrites an entry holding as large a TTL.
  lemma {:induction false} AcceptsAscendIff(w: nat, s: State, acts: seq<Action>, k: DpdKey)
    requires Runs(w, s, acts) && Stays(w, s, acts, k)
    ensures Ascends(s.table[k].ttl, AcceptsOf(w, s, acts, k)) <==> NoLowOverwrite(w, s, acts, k)
    decreases |acts|
  {
    if acts != [] {
      var s' := Next(w, s, acts[0]);
      AcceptSetsTtl(w, s, acts[0], k);
      AcceptsAscendIff(w, s', acts[1..], k);
      var rest := AcceptsOf(w, s', acts[1..], k);
      if AcceptsOn(w, s, acts[0], k) {
        assert ([s'.table[k].ttl] + rest)[1..] == rest;
      } else {
        assert [] + rest == rest;
      }
    }
  }

  // No caller on k stands between its two sections.
  ghost predicate Quiet(s: State, k: DpdKey) {
    forall id :: id in s.callers ==> !(s.callers[id].AtInsert? && s.callers[id].key == k)
  }

  // Main result: once a key is present and no caller on it is between sections, its accepts
  // ascend for as long as it stays, and no caller gets between sections either.
  lemma {:induction false} QuietKeysAscend(w: nat, s: State, acts: seq<Action>, k: DpdKey)
    requires Runs(w, s, acts) && Stays(w, s, acts, k) && Quiet(s, k)
    ensures Ascends(s.table[k].ttl, AcceptsOf(w, s, acts, k))
    ensures Quiet(Exec(w, s, acts), k)
  {
    QuietHolds(w, s, acts, k);
    AcceptsAscendIff(w, s, acts, k);
  }

  lemma {:induction false} QuietHolds(w: nat, s: State, acts: seq<Action>, k: DpdKey)
    requires Runs(w, s, acts) && Stays(w, s, acts, k) && Quiet(s, k)
    ensures NoLowOverwrite(w, s, acts, k) && Quiet(Exec(w, s, acts), k)
    decreases |acts|
  {
    if acts != [] {
      QuietHolds(w, Next(w, s, acts[0]), acts[1..], k);
    }
  }

  // What a run that starts with a does on k is what a does, followed by what the rest does.
  lemma AcceptsCons(w: nat, s: State, a: Action, rest: seq<Action>, k: DpdKey)
    requires Enabled(s, a) && Runs(w, Next(w, s, a), rest)
    ensures Runs(w, s, [a] + rest)
    ensures AcceptsOf(w, s, [a] + rest, k) ==
              (if AcceptsOn(w, s, a, k) then [Next(w, s, a).accepts[|s.accepts|].ttl] else [])
              + AcceptsOf(w, Next(w, s, a), rest, k)
    ensures Stays(w, s, [a] + rest, k) <==> k in s.table && Stays(w, Next(w, s, a), rest, k)
  {
    assert ([a] + rest)[1..] == rest;
  }

  lemma UnusedId(s: State) returns (id: nat)
    ensures CallerOf(s, id).Idle?
  {
    id := AboveAll(s.callers.Keys);
  }

  lemma {:induction false} AboveAll(ids: set<nat>) returns (id: nat)
    ensures forall i :: i in ids ==> i < id
    decreases |ids|
  {
    if ids == {} {
      id := 0;
    } else {
      var i :| i in ids;
      var above := AboveAll(ids - {i});
      assert ids == (ids - {i}) + {i};
      id := if i < above then above else i + 1;
    }
  }

  // A waiting insert repeats a TTL: it is no larger than the entry's, or a new caller raises the
  // entry to it first.
  lemma WaitingInsertDescends(w: nat, s: State, k: DpdKey, id: nat) returns (acts: seq<Action>)
    requires k in s.table && CallerOf(s, id).AtInsert? && CallerOf(s, id).key == k
    ensures Runs(w, s, acts) && Stays(w, s, acts, k) && !Ascends(s.table[k].ttl, AcceptsOf(w, s, acts, k))
  {
    var c, e := CallerOf(s, id), s.table[k];
    if c.ttl <= e.ttl {
      acts := [InsertSection(id)] + [];
      AcceptsCons(w, s, InsertSection(id), [], k);
    } else {
      var other := UnusedId(s);
      var s1 := Next(w, s, Enter(other, k, c.ttl, c.now));
      var s2 := Next(w, s1, LookupSection(other));
      var last: seq<Action> := [InsertSection(id)] + [];
      AcceptsCons(w, s2, InsertSection(id), [], k);
      AcceptsCons(w, s1, LookupSection(other), last, k);
      AcceptsCons(w, s, Enter(other, k, c.ttl, c.now), [LookupSection(other)] + last, k);
      acts := [Enter(other, k, c.ttl, c.now)] + ([LookupSection(other)] + last);
      assert AcceptsOf(w, s, acts, k) == [c.ttl, c.ttl];
    }
  }

  // Main result: the accepts on a present key ascend in every run that keeps it exactly when no
  // caller on it stands between its two sections.
  lemma AscendsInEveryRunIff(w: nat, s: State, k: DpdKey)
    requires k in s.table
    ensures (forall acts :: Runs(w, s, acts) && Stays(w, s, acts, k) ==> Ascends(s.table[k].ttl, AcceptsOf(w, s, acts, k)))
            <==> Quiet(s, k)
  {
    if Quiet(s, k) {
      forall acts | Runs(w, s, acts) && Stays(w, s, acts, k)
        ensures Ascends(s.table[k].ttl, AcceptsOf(w, s, acts, k))
      {
        QuietKeysAscend(w, s, acts, k);
      }
    } else {
      var id :| id in s.callers && s.callers[id].AtInsert? && s.callers[id].key == k;
      var acts := WaitingInsertDescends(w, s, k, id);
    }
  }

  // ----- The window under interleaving -----------------------------------------------------------

  // A clear, or an eviction a window or more after the entry time of the last accepted caller.
  predicate Removal(w: nat, s: State, a: Action, k: DpdKey) {
    match a
    case EvictAll(now) => LastAccepted(s.accepts, k).Some? && LastAccepted(s.accepts, k).value.firstSeen + w <= now
    case ClearAll => true
    case _ => false
  }

  ghost predicate NoRemoval(w: nat, s: State, acts: seq<Action>, k: DpdKey)
    requires Runs(w, s, acts)
    decreases |acts|
  {
    acts == [] || (!Removal(w, s, acts[0], k) && NoRemoval(w, Next(w, s, acts[0]), acts[1..], k))
  }

  // Main result: in every interleaving a key stays present exactly until a clear or an eviction a
  // window after the entry, not the acceptance, of the caller accepted last.
  lemma {:induction false} StaysIff(w: nat, s: State, acts: seq<Action>, k: DpdKey)
    requires FollowsLastAccept(s) && Runs(w, s, acts) && k in s.table
    ensures Stays(w, s, acts, k) <==> NoRemoval(w, s, acts, k)
    decreases |acts|
  {
    if acts != [] {
      var s' := Next(w, s, acts[0]);
      FollowsLastAcceptStep(w, s, acts[0]);
      assert k in s'.table <==> !Removal(w, s, acts[0], k);
      if k in s'.table {
        StaysIff(w, s', acts[1..], k);
      }
    }
  }

  // No caller in flight on k can undercut an entry with this TTL that is no older than since: one
  // between its sections has a larger TTL and entered no earlier, one still to look up at least
  // one of the two.
  predicate HarmlessCaller(c: Caller, k: DpdKey, ttl: byte, since: int) {
    match c
    case Idle => true
    case AtLookup(key, t, now) => key == k ==> t <= ttl || now >= since
    case AtInsert(key, t, now) => key == k ==> t > ttl && now >= since
  }

  ghost predicate Harmless(s: State, k: DpdKey, ttl: byte, since: int) {
    forall id :: id in s.callers ==> HarmlessCaller(s.callers[id], k, ttl, since)
  }

  // No clear, no eviction a window after since, and no caller on k that entered before it.
  predicate Within(w: nat, a: Action, k: DpdKey, since: int) {
    match a
    case Enter(_, key, _, now) => key == k ==> now >= since
    case EvictAll(now) => now < since + w
    case ClearAll => false
    case _ => true
  }

  ghost predicate AllWithin(w: nat, acts: seq<Action>, k: DpdKey, since: int) {
    forall i :: 0 <= i < |acts| ==> Within(w, acts[i], k, since)
  }

  predicate ReadsClock(a: Action) {
    a.Enter? || a.EvictAll?
  }

  // The times the actions read start at now or later and never go back.
  ghost predicate Clocked(acts: seq<Action>, now: int) {
    && (forall i :: 0 <= i < |acts| && ReadsClock(acts[i]) ==> now <= acts[i].now)
    && (forall i, j :: 0 <= i < j < |acts| && ReadsClock(acts[i]) && ReadsClock(acts[j]) ==> acts[i].now <= acts[j].now)
  }

  // The entry on k has at least this TTL and time, and no caller in flight can undercut them.
  ghost predicate Guarded(s: State, k: DpdKey, ttl: byte, since: int) {
    && k in s.table && s.table[k].ttl >= ttl && s.table[k].firstSeen >= since
    && Harmless(s, k, ttl, since)
  }

  lemma GuardedStep(w: nat, s: State, a: Action, k: DpdKey, ttl: byte, since: int)
    requires Guarded(s, k, ttl, since) && Enabled(s, a) && Within(w, a, k, since)
    ensures Guarded(Next(w, s, a), k, ttl, since)
    ensures AcceptsOn(w, s, a, k) ==> Next(w, s, a).accepts[|s.accepts|].ttl > ttl
  {
    if a.LookupSection? || a.InsertSection? {
      assert HarmlessCaller(s.callers[a.id], k, ttl, since);
    }
  }

  lemma {:induction false} GuardedSuppresses(w: nat, s: State, acts: seq<Action>, k: DpdKey, ttl: byte, since: int)
    requires Guarded(s, k, ttl, since) && Runs(w, s, acts) && AllWithin(w, acts, k, since)
    ensures forall t :: t in AcceptsOf(w, s, acts, k) ==> t > ttl
    ensures Guarded(Exec(w, s, acts), k, ttl, since)
    decreases |acts|
  {
    if acts != [] {
      assert Within(w, acts[0], k, since);
      assert forall i :: 0 <= i < |acts[1..]| ==> acts[1..][i] == acts[i + 1];
      GuardedStep(w, s, acts[0], k, ttl, since);
      GuardedSuppresses(w, Next(w, s, acts[0]), acts[1..], k, ttl, since);
    }
  }

  function FreshCall(id: nat, k: DpdKey, ttl: byte, now: int): seq<Action> {
    [Enter(id, k, ttl, now)] + ([LookupSection(id)] + ([InsertSection(id)] + []))
  }

  // An absent key takes any TTL.
  lemma AbsentTakesAny(w: nat, s: State, id: nat, k: DpdKey, ttl: byte, now: int)
    requires k !in s.table && CallerOf(s, id).Idle?
    ensures Runs(w, s, FreshCall(id, k, ttl, now)) && ttl in AcceptsOf(w, s, FreshCall(id, k, ttl, now), k)
  {
    var s1 := Next(w, s, Enter(id, k, ttl, now));
    var s2 := Next(w, s1, LookupSection(id));
    AcceptsCons(w, s2, InsertSection(id), [], k);
    AcceptsCons(w, s1, LookupSection(id), [InsertSection(id)] + [], k);
    AcceptsCons(w, s, Enter(id, k, ttl, now), [LookupSection(id)] + ([InsertSection(id)] + []), k);
  }

  // A section that dates the entry back before since opens it to an eviction inside the window.
  lemma DatedBackIsUndercut(w: nat, s: State, a: Action, id: nat, k: DpdKey, ttl: byte, since: int, now: int)
    returns (acts: seq<Action>)
    requires (a == LookupSection(id) || a == InsertSection(id)) && Enabled(s, a) && now < since + w
    requires var s1 := Next(w, s, a);
             k in s1.table && s1.table[k].firstSeen < since && CallerOf(s1, id).Idle?
    ensures Runs(w, s, acts) && AllWithin(w, acts, k, since) && Clocked(acts, now) && ttl in AcceptsOf(w, s, acts, k)
  {
    var u := since + w - 1;
    var v := if u < since then since else u;
    var s1 := Next(w, s, a);
    var s2 := Next(w, s1, EvictAll(u));
    AbsentTakesAny(w, s2, id, k, ttl, v);
    AcceptsCons(w, s1, EvictAll(u), FreshCall(id, k, ttl, v), k);
    AcceptsCons(w, s, a, [EvictAll(u)] + FreshCall(id, k, ttl, v), k);
    acts := [a] + ([EvictAll(u)] + FreshCall(id, k, ttl, v));
    assert acts == [a, EvictAll(u), Enter(id, k, ttl, v), LookupSection(id), InsertSection(id)];
  }

  // Any harmful caller can get the TTL, or a smaller one, accepted inside the window.
  lemma HarmfulUndercuts(w: nat, s: State, k: DpdKey, since: int, id: nat, now: int)
    returns (acts: seq<Action>, t: byte)
    requires k in s.table && s.table[k].firstSeen >= since && now < since + w
    requires id in s.callers && !HarmlessCaller(s.callers[id], k, s.table[k].ttl, since)
    ensures Runs(w, s, acts) && AllWithin(w, acts, k, since) && Clocked(acts, now)
    ensures t in AcceptsOf(w, s, acts, k) && t <= s.table[k].ttl
  {
    var c := s.callers[id];
    t := s.table[k].ttl;
    if c.AtInsert? && c.ttl <= t {
      acts, t := [InsertSection(id)] + [], c.ttl;
      AcceptsCons(w, s, InsertSection(id), [], k);
    } else if c.AtInsert? {
      acts := DatedBackIsUndercut(w, s, InsertSection(id), id, k, t, since, now);
    } else {
      acts := DatedBackIsUndercut(w, s, LookupSection(id), id, k, t, since, now);
    }
  }

  // Main result: the exact condition for window suppression under interleaving. Whatever runs while
  // no eviction is a window past since, only TTLs larger than the entry's are accepted, exactly
  // when every caller in flight on the key is harmless.
  lemma WindowSuppressionIff(w: nat, s: State, k: DpdKey, since: int)
    requires k in s.table && s.table[k].firstSeen >= since
    ensures (forall acts, t :: Runs(w, s, acts) && AllWithin(w, acts, k, since) && t in AcceptsOf(w, s, acts, k)
               ==> t > s.table[k].ttl)
            <==> Harmless(s, k, s.table[k].ttl, since)
  {
    if Harmless(s, k, s.table[k].ttl, since) {
      forall acts, t | Runs(w, s, acts) && AllWithin(w, acts, k, since) && t in AcceptsOf(w, s, acts, k)
        ensures t > s.table[k].ttl
      {
        GuardedSuppresses(w, s, acts, k, s.table[k].ttl, since);
      }
    } else {
      var id :| id in s.callers && !HarmlessCaller(s.callers[id], k, s.table[k].ttl, since);
      var acts, t := HarmfulUndercuts(w, s, k, since, id, since + w - 1);
    }
  }

  // The same when every action reads a clock that stands at now, inside the window.
  lemma ClockedSuppressionIff(w: nat, s: State, k: DpdKey, since: int, now: int)
    requires k in s.table && s.table[k].firstSeen >= since && now < since + w
    ensures (forall acts, t ::
               Runs(w, s, acts) && AllWithin(w, acts, k, since) && Clocked(acts, now) && t in AcceptsOf(w, s, acts, k)
               ==> t > s.table[k].ttl)
            <==> Harmless(s, k, s.table[k].ttl, since)
  {
    if Harmless(s, k, s.table[k].ttl, since) {
      WindowSuppressionIff(w, s, k, since);
    } else {
      var id :| id in s.callers && !HarmlessCaller(s.callers[id], k, s.table[k].ttl, since);
      var acts, t := HarmfulUndercuts(w, s, k, since, id, now);
    }
  }

  // ----- Memory under interleaving ------------------------------------------------------------------

  function RecentAccepts(accepts: seq<Accept>, cutoff: int): nat {
    if accepts == [] then 0
    else
      RecentAccepts(accepts[..|accepts| - 1], cutoff) + if accepts[|accepts| - 1].now > cutoff then 1 else 0
  }

  function RecentKeys(accepts: seq<Accept>, cutoff: int): set<DpdKey> {
    set a | a in accepts && a.now > cutoff :: a.key
  }

  // Callers in flight that entered at the cutoff or before.
  function Stragglers(s: State, cutoff: int): set<nat> {
    set id | id in s.callers && !s.callers[id].Idle? && s.callers[id].now <= cutoff
  }

  function StragglerKeys(s: State, cutoff: int): set<DpdKey> {
    set id | id in Stragglers(s, cutoff) :: s.callers[id].key
  }

  lemma {:induction false} RecentKeysCounted(accepts: seq<Accept>, cutoff: int)
    ensures |RecentKeys(accepts, cutoff)| <= RecentAccepts(accepts, cutoff)
  {
    if accepts != [] {
      var before, last := accepts[..|accepts| - 1], accepts[|accepts| - 1];
      assert accepts == before + [last];
      RecentKeysCounted(before, cutoff);
      if last.now > cutoff {
        SubsetSize(RecentKeys(accepts, cutoff), RecentKeys(before, cutoff) + {last.key});
      } else {
        SubsetSize(RecentKeys(accepts, cutoff), RecentKeys(before, cutoff));
      }
    }
  }

  lemma {:induction false} ImageSize(ids: set<nat>, callers: map<nat, Caller>)
    requires forall id :: id in ids ==> id in callers && !callers[id].Idle?
    ensures |set id | id in ids :: callers[id].key| <= |ids|
    decreases |ids|
  {
    if ids != {} {
      var i :| i in ids;
      var rest := ids - {i};
      ImageSize(rest, callers);
      SubsetSize(set id | id in ids :: callers[id].key, (set id | id in rest :: callers[id].key) + {callers[i].key});
    }
  }

  lemma {:induction false} LastAcceptedIsRecent(accepts: seq<Accept>, k: DpdKey, cutoff: int)
    requires LastAccepted(accepts, k).Some? && LastAccepted(accepts, k).value.firstSeen > cutoff
    ensures k in RecentKeys(accepts, cutoff)
  {
    var last := accepts[|accepts| - 1];
    if last.key != k {
      LastAcceptedIsRecent(accepts[..|accepts| - 1], k, cutoff);
    } else {
      assert last in accepts;
    }
  }

  ghost predicate NoneEnteredBy(acts: seq<Action>, cutoff: int) {
    forall i :: 0 <= i < |acts| && acts[i].Enter? ==> acts[i].now > cutoff
  }

  // Old callers were in flight at state s already, and an old entry is one such caller's.
  ghost predicate OldIsStraggling(s: State, s': State, cutoff: int) {
    && (forall id :: id in Stragglers(s', cutoff) ==>
          id in Stragglers(s, cutoff) && s.callers[id].key == s'.callers[id].key)
    && (forall k :: k in s'.table && s'.table[k].firstSeen <= cutoff ==> k in StragglerKeys(s, cutoff))
  }

  lemma OldIsStragglingStep(w: nat, s: State, s': State, a: Action, cutoff: int)
    requires OldIsStraggling(s, s', cutoff) && Enabled(s', a) && (a.Enter? ==> a.now > cutoff)
    ensures OldIsStraggling(s, Next(w, s', a), cutoff)
  {
    if a.LookupSection? || a.InsertSection? {
      assert s'.callers[a.id].now <= cutoff ==> a.id in Stragglers(s', cutoff);
    }
    forall id | id in Stragglers(Next(w, s', a), cutoff)
      ensures id in Stragglers(s', cutoff)
    {
    }
  }

  lemma {:induction false} OldKeepsStraggling(w: nat, s: State, s': State, acts: seq<Action>, cutoff: int)
    requires OldIsStraggling(s, s', cutoff) && Runs(w, s', acts)
    requires NoneEnteredBy(acts, cutoff)
    ensures OldIsStraggling(s, Exec(w, s', acts), cutoff)
    decreases |acts|
  {
    if acts != [] {
      assert acts[0].Enter? ==> acts[0].now > cutoff;
      assert forall i :: 0 <= i < |acts[1..]| ==> acts[1..][i] == acts[i + 1];
      OldIsStragglingStep(w, s, s', acts[0], cutoff);
      OldKeepsStraggling(w, s, Next(w, s', acts[0]), acts[1..], cutoff);
    }
  }

  lemma EntriesAreRecentOrStraggling(s: State, end: State, cutoff: int)
    requires FollowsLastAccept(end) && OldIsStraggling(s, end, cutoff)
    ensures Bounded(s, end, cutoff)
  {
    var recent, straggling := RecentKeys(end.accepts, cutoff), StragglerKeys(s, cutoff);
    forall k | k in end.table
      ensures k in recent + straggling
    {
      if end.table[k].firstSeen > cutoff {
        LastAcceptedIsRecent(end.accepts, k, cutoff);
      }
    }
    SubsetSize(end.table.Keys, recent + straggling);
    RecentKeysCounted(end.accepts, cutoff);
    ImageSize(Stragglers(s, cutoff), s.callers);
  }

  ghost predicate AllYoung(s: State, cutoff: int) {
    forall k :: k in s.table ==> s.table[k].firstSeen > cutoff
  }

  // No more entries than recent accepts and stragglers of s; without stragglers only young ones.
  ghost predicate Bounded(s: State, end: State, cutoff: int) {
    && |end.table| <= RecentAccepts(end.accepts, cutoff) + |Stragglers(s, cutoff)|
    && (Stragglers(s, cutoff) == {} ==> AllYoung(end, cutoff))
  }

  lemma EvictionLeavesNoOld(w: nat, s: State, u: int)
    ensures OldIsStraggling(s, Next(w, s, EvictAll(u)), u - w)
  {
  }

  lemma BoundedSince(w: nat, s: State, s': State, acts: seq<Action>, cutoff: int)
    requires FollowsLastAccept(s') && OldIsStraggling(s, s', cutoff)
    requires Runs(w, s', acts) && NoneEnteredBy(acts, cutoff)
    ensures Bounded(s, Exec(w, s', acts), cutoff)
  {
    OldKeepsStraggling(w, s, s', acts, cutoff);
    EntryIsLastAccept(w, s', acts);
    EntriesAreRecentOrStraggling(s, Exec(w, s', acts), cutoff);
  }

  // Main result: after an eviction at time u, however callers interleave, the cache has no more
  // entries than accepts whose callers entered less than a window before u, plus the callers that
  // were already in flight at u and entered earlier still. Without such a straggler no entry is
  // older than a window before u.
  lemma MemoryBoundedInterleaved(w: nat, s: State, u: int, acts: seq<Action>)
    requires FollowsLastAccept(s) && Runs(w, Next(w, s, EvictAll(u)), acts)
    requires NoneEnteredBy(acts, u - w)
    ensures Bounded(s, Exec(w, Next(w, s, EvictAll(u)), acts), u - w)
  {
    var s' := Next(w, s, EvictAll(u));
    EvictionLeavesNoOld(w, s, u);
    FollowsLastAcceptStep(w, s, EvictAll(u));
    BoundedSince(w, s, s', acts, u - w);
  }

  // Stragglers are the exact condition: every run after the eviction leaves only young entries
  // exactly when there are none.
  lemma YoungInEveryRunIff(w: nat, s: State, u: int)
    requires FollowsLastAccept(s)
    ensures var s' := Next(w, s, EvictAll(u));
            (forall acts :: Runs(w, s', acts) && NoneEnteredBy(acts, u - w) ==> AllYoung(Exec(w, s', acts), u - w))
            <==> Stragglers(s, u - w) == {}
  {
    var s' := Next(w, s, EvictAll(u));
    if Stragglers(s, u - w) == {} {
      forall acts | Runs(w, s', acts) && NoneEnteredBy(acts, u - w)
        ensures AllYoung(Exec(w, s', acts), u - w)
      {
        MemoryBoundedInterleaved(w, s, u, acts);
      }
    } else {
      var id :| id in Stragglers(s, u - w);
      var acts := StragglerInserts(w, s', id);
      assert !AllYoung(Exec(w, s', acts), u - w);
    }
  }

  // A caller in flight can always come to insert.
  lemma StragglerInserts(w: nat, s: State, id: nat) returns (acts: seq<Action>)
    requires id in s.callers && !s.callers[id].Idle?
    ensures Runs(w, s, acts) && forall a :: a in acts ==> !a.Enter?
    ensures s.callers[id].key in Exec(w, s, acts).table
    ensures Exec(w, s, acts).table[s.callers[id].key].firstSeen == s.callers[id].now
  {
    if s.callers[id].AtInsert? {
      acts := [InsertSection(id)] + [];
      ExecCons(w, s, InsertSection(id), []);
    } else {
      var s1 := Next(w, s, ClearAll);
      var s2 := Next(w, s1, LookupSection(id));
      var rest: seq<Action> := [InsertSection(id)] + [];
      ExecCons(w, s2, InsertSection(id), []);
      ExecCons(w, s1, LookupSection(id), rest);
      ExecCons(w, s, ClearAll, [LookupSection(id)] + rest);
      acts := [ClearAll] + ([LookupSection(id)] + rest);
    }
  }

  // ----- What interleaving breaks, and what it does not --------------------------------------------

  lemma ExecCons(w: nat, s: State, a: Action, rest: seq<Action>)
    requires Enabled(s, a) && Runs(w, Next(w, s, a), rest)
    ensures Runs(w, s, [a] + rest) && Exec(w, s, [a] + rest) == Exec(w, Next(w, s, a), rest)
  {
    assert ([a] + rest)[1..] == rest;
  }

  function Race(k: DpdKey, now: int): seq<Action> {
    [Enter(0, k, 64, now)] + ([Enter(1, k, 32, now)] + ([LookupSection(0)] + ([LookupSection(1)]
    + ([InsertSection(0)] + ([InsertSection(1)] + [])))))
  }

  // Two first calls on one key can both be accepted, the second lowering the TTL, so that the
  // first one's TTL would be accepted once more.
  lemma RaceLowersTtl(w: nat, k: DpdKey, now: int)
    ensures && Runs(w, START, Race(k, now))
            && Exec(w, START, Race(k, now)).accepts == [Accept(k, 64, now), Accept(k, 32, now)]
            && Exec(w, START, Race(k, now)).table == map[k := Entry(now, 32)]
            && Check(Exec(w, START, Race(k, now)).table, k, 64, now).1 == Ok(true)
  {
    var s1 := Next(w, START, Enter(0, k, 64, now));
    var s2 := Next(w, s1, Enter(1, k, 32, now));
    var s3 := Next(w, s2, LookupSection(0));
    var s4 := Next(w, s3, LookupSection(1));
    var s5 := Next(w, s4, InsertSection(0));
    var s6 := Next(w, s5, InsertSection(1));
    assert s6.table == map[k := Entry(now, 32)];
    var r6: seq<Action> := [];
    var r5 := [InsertSection(1)] + r6;
    var r4 := [InsertSection(0)] + r5;
    var r3 := [LookupSection(1)] + r4;
    var r2 := [LookupSection(0)] + r3;
    var r1 := [Enter(1, k, 32, now)] + r2;
    ExecCons(w, s5, InsertSection(1), r6);
    ExecCons(w, s4, InsertSection(0), r5);
    ExecCons(w, s3, LookupSection(1), r4);
    ExecCons(w, s2, LookupSection(0), r3);
    ExecCons(w, s1, Enter(1, k, 32, now), r2);
    ExecCons(w, START, Enter(0, k, 64, now), r1);
  }

  function LateCaller(w: nat, k: DpdKey, t: int): seq<Action> {
    [Enter(0, k, 64, t)] + ([Enter(1, k, 32, t + 1)] + ([LookupSection(1)] + ([InsertSection(1)]
    + ([LookupSection(0)] + ([EvictAll(t + w)] + ([Enter(2, k, 32, t + w)] + ([LookupSection(2)]
    + ([InsertSection(2)] + []))))))))
  }

  // A harmful caller at work: it entered earlier, raises a quiet entry and moves its time back, so
  // that an eviction takes it and the TTL accepted less than a window ago is accepted again.
  lemma LateCallerBreaksWindow(w: nat, k: DpdKey, t: int)
    requires w > 0
    ensures && Runs(w, START, LateCaller(w, k, t))
            && Exec(w, START, LateCaller(w, k, t)).accepts ==
                 [Accept(k, 32, t + 1), Accept(k, 64, t), Accept(k, 32, t + w)]
  {
    var s1 := Next(w, START, Enter(0, k, 64, t));
    var s2 := Next(w, s1, Enter(1, k, 32, t + 1));
    var s3 := Next(w, s2, LookupSection(1));
    var s4 := Next(w, s3, InsertSection(1));
    var s5 := Next(w, s4, LookupSection(0));
    var s6 := Next(w, s5, EvictAll(t + w));
    var s7 := Next(w, s6, Enter(2, k, 32, t + w));
    var s8 := Next(w, s7, LookupSection(2));
    var s9 := Next(w, s8, InsertSection(2));
    var r9: seq<Action> := [];
    var r8 := [InsertSection(2)] + r9;
    var r7 := [LookupSection(2)] + r8;
    var r6 := [Enter(2, k, 32, t + w)] + r7;
    var r5 := [EvictAll(t + w)] + r6;
    var r4 := [LookupSection(0)] + r5;
    var r3 := [InsertSection(1)] + r4;
    var r2 := [LookupSection(1)] + r3;
    var r1 := [Enter(1, k, 32, t + 1)] + r2;
    ExecCons(w, s8, InsertSection(2), r9);
    ExecCons(w, s7, LookupSection(2), r8);
    ExecCons(w, s6, Enter(2, k, 32, t + w), r7);
    ExecCons(w, s5, EvictAll(t + w), r6);
    ExecCons(w, s4, LookupSection(0), r5);
    ExecCons(w, s3, InsertSection(1), r4);
    ExecCons(w, s2, LookupSection(1), r3);
    ExecCons(w, s1, Enter(1, k, 32, t + 1), r2);
    ExecCons(w, START, Enter(0, k, 64, t), r1);
  }

  // A call whose two sections run back to back is the sequential check_and_insert.
  lemma UninterruptedIsSequential(w: nat, s: State, id: nat, key: DpdKey, ttl: byte, now: int)
    requires CallerOf(s, id) == Idle
    ensures var s1 := Next(w, s, Enter(id, key, ttl, now));
            var s2 := Next(w, s1, LookupSection(id));
            var s3 := if CallerOf(s2, id).AtInsert? then Next(w, s2, InsertSection(id)) else s2;
            && s3.table == Check(s.table, key, ttl, now).0
            && CallerOf(s3, id) == Idle
            && (s3.accepts == if Check(s.table, key, ttl, now).1 == Ok(true)
                              then s.accepts + [Accept(key, ttl, now)] else s.accepts)
  {
  }
}
