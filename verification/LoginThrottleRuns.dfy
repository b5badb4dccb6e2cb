/**
 Whole runs of the two login-throttle stores: both refine one per-key history while they hold
 no more keys than they may, the throttle bounds counted failures, and only the SQLite store
 keeps every lock when there are more keys.
 */
module LoginThrottleRuns {
  import opened Common
  import opened LoginThrottle

  /** Event times never decrease. */
  predicate Ordered(events: seq<Event>) {
    forall i, j | 0 <= i < j < |events| :: events[i].now <= events[j].now
  }

  function FailingKeys(events: seq<Event>): set<string> {
    set i | 0 <= i < |events| && events[i].op.Fail? :: events[i].op.key
  }

  ghost predicate MemoryRun(limits: Limits, events: seq<Event>, states: seq<Memory>, shown: seq<Observation>) {
    && |states| == |events| + 1 && |shown| == |events| && states[0] == map[]
    && forall i {:trigger shown[i]} | 0 <= i < |events| :: MemoryStep(limits, states[i], events[i], states[i + 1], shown[i])
  }

  ghost predicate TableRun(limits: Limits, events: seq<Event>, states: seq<Table>, shown: seq<Observation>) {
    && |states| == |events| + 1 && |shown| == |events| && states[0] == map[]
    && forall i {:trigger shown[i]} | 0 <= i < |events| :: TableStep(limits, states[i], events[i], states[i + 1], shown[i])
  }

  /** One event's effect on what is remembered about `key`. */
  function Remember(limits: Limits, before: Option<Attempt>, event: Event, key: string): Option<Attempt> {
    match event.op
    case Fail(k) => if k == key then Some(AfterFailure(limits, before, event.now)) else before
    case Reset(k) => if k == key then None else before
    case _ => before
  }

  /** What the events say about `key`: no store, no clean-up, no eviction. */
  function History(limits: Limits, events: seq<Event>, key: string): Option<Attempt> {
    if events == [] then None
    else
      var last := |events| - 1;
      Remember(limits, History(limits, events[..last], key), events[last], key)
  }

  lemma HistoryStep(limits: Limits, events: seq<Event>, n: nat, key: string)
    requires 0 < n <= |events|
    ensures History(limits, events[..n], key)
         == Remember(limits, History(limits, events[..n - 1], key), events[n - 1], key)
  {
    assert events[..n][..n - 1] == events[..n - 1];
  }

  /******* A burst of failures *******/

  function FailuresAt(key: string, times: seq<Time>): seq<Event> {
    seq(|times|, i requires 0 <= i < |times| => Event(Fail(key), times[i]))
  }

  /** Each failure comes within a window of the one before. */
  predicate InQuickSuccession(limits: Limits, times: seq<Time>) {
    forall i | 0 < i < |times| :: times[i - 1] <= times[i] < times[i - 1] + limits.windowSeconds * 1_000_000
  }

  lemma OneMoreFailure(key: string, earlier: seq<Event>, times: seq<Time>, n: nat)
    requires n < |times|
    ensures
      var all := earlier + FailuresAt(key, times[..n + 1]);
      && all[..|all| - 1] == earlier + FailuresAt(key, times[..n]) && all[|all| - 1] == Event(Fail(key), times[n])
  {
  }

  /**
   A burst after whatever is over counts from one; with the last allowed failure the key is locked,
   from that moment on and for exactly the lockout.
   */
  lemma {:induction false} BurstLocks(limits: Limits, earlier: seq<Event>, key: string, times: seq<Time>, n: nat)
    requires limits.Valid() && 0 < n <= |times| && n <= limits.maxFailures && InQuickSuccession(limits, times)
    requires History(limits, earlier, key).Some? ==> IsOver(limits, History(limits, earlier, key).value, times[0])
    ensures History(limits, earlier + FailuresAt(key, times[..n]), key) ==
      Some(Attempt(n, times[0], times[n - 1],
                   if n == limits.maxFailures then Some(times[n - 1] + limits.lockoutSeconds * 1_000_000) else None))
    decreases n
  {
    OneMoreFailure(key, earlier, times, n - 1);
    if n == 1 {
      assert earlier + FailuresAt(key, times[..0]) == earlier;
      FailureInFields(limits, History(limits, earlier, key), times[0]);
    } else {
      BurstLocks(limits, earlier, key, times, n - 1);
      FailureInFields(limits, History(limits, earlier + FailuresAt(key, times[..n - 1]), key), times[n - 1]);
    }
  }

  /******* Both stores refine the history *******/

  ghost predicate SameWhileLive(limits: Limits, a: Option<Attempt>, b: Option<Attempt>, now: Time) {
    Live(limits, a, now) == Live(limits, b, now)
  }

  lemma LaterIsSameToo(limits: Limits, a: Option<Attempt>, b: Option<Attempt>, now: Time, later: Time)
    requires SameWhileLive(limits, a, b, now) && now <= later
    ensures SameWhileLive(limits, a, b, later)
  {
  }

  lemma NothingDropped<K(!new)>(before: map<K, Attempt>, after: map<K, Attempt>, removable: set<K>)
    requires DropsOldest(before, after, removable, 0)
    ensures after == before
  {
    assert before.Keys - after.Keys == {};
  }

  lemma MemoryKeepsAll(limits: Limits, before: Memory, event: Event, after: Memory, shown: Observation)
    requires MemoryStep(limits, before, event, after, shown) && event.op.Fail?
    requires |before.Keys + {event.op.key}| <= limits.maxKeys
    ensures after == before[event.op.key := AfterFailure(limits, Find(before, event.op.key), event.now)]
  {
    var stored := before[event.op.key := AfterFailure(limits, Find(before, event.op.key), event.now)];
    assert stored.Keys == before.Keys + {event.op.key};
    NothingDropped(stored, after, stored.Keys);
  }

  lemma PruneKeepsAll(limits: Limits, before: Table, event: Event, after: Table, shown: Observation)
    requires TableStep(limits, before, event, after, shown) && event.op.Prune? && |before| <= limits.maxKeys
    ensures after == before
  {
    NothingDropped(before, after, Unlocked(before, event.now));
  }

  /** One memory step, seen through one key: it follows `Remember` and shows what the history shows. */
  lemma MemoryStepRemembers(
    limits: Limits, before: Memory, event: Event, after: Memory, shown: Observation, key: string, known: Option<Attempt>)
    requires MemoryStep(limits, before, event, after, shown)
    requires event.op.Fail? ==> |before.Keys + {event.op.key}| <= limits.maxKeys
    requires SameWhileLive(limits, Find(before, key), known, event.now)
    ensures SameWhileLive(limits, Find(after, key), Remember(limits, known, event, key), event.now)
    ensures Shows(event.op) && event.op.key == key ==> shown == Shown(limits, known, event.op, event.now)
  {
    match event.op
    case Fail(_) => MemoryKeepsAll(limits, before, event, after, shown);
    case IsLocked(_) => MemoryQueryRemembers(limits, before, event, after, shown, key, known);
    case SecondsUntilUnlock(_) => MemoryQueryRemembers(limits, before, event, after, shown, key, known);
    case FailureCount(_) => MemoryQueryRemembers(limits, before, event, after, shown, key, known);
    case Reset(_) =>
    case Purge =>
    case Prune =>
  }

  lemma MemoryQueryRemembers(
    limits: Limits, before: Memory, event: Event, after: Memory, shown: Observation, key: string, known: Option<Attempt>)
    requires MemoryStep(limits, before, event, after, shown)
    requires IsQuery(event.op)
    requires SameWhileLive(limits, Find(before, key), known, event.now)
    ensures SameWhileLive(limits, Find(after, key), Remember(limits, known, event, key), event.now)
    ensures event.op.key == key ==> shown == Shown(limits, known, event.op, event.now)
  {
    assert after == before || after == before - {event.op.key};
  }

  lemma TableStepRemembers(
    limits: Limits, before: Table, event: Event, after: Table, shown: Observation, key: string, known: Option<Attempt>)
    requires TableStep(limits, before, event, after, shown)
    requires event.op.Prune? ==> |before| <= limits.maxKeys
    requires SameWhileLive(limits, Find(before, Digest(key)), known, event.now)
    ensures SameWhileLive(limits, Find(after, Digest(key)), Remember(limits, known, event, key), event.now)
    ensures Shows(event.op) && event.op.key == key ==> shown == Shown(limits, known, event.op, event.now)
  {
    match event.op
    case Fail(_) =>
    case IsLocked(_) => TableQueryRemembers(limits, before, event, after, shown, key, known);
    case SecondsUntilUnlock(_) => TableQueryRemembers(limits, before, event, after, shown, key, known);
    case FailureCount(_) => TableQueryRemembers(limits, before, event, after, shown, key, known);
    case Reset(_) =>
    case Purge =>
    case Prune => PruneKeepsAll(limits, before, event, after, shown);
  }

  lemma TableQueryRemembers(
    limits: Limits, before: Table, event: Event, after: Table, shown: Observation, key: string, known: Option<Attempt>)
    requires TableStep(limits, before, event, after, shown)
    requires IsQuery(event.op)
    requires SameWhileLive(limits, Find(before, Digest(key)), known, event.now)
    ensures SameWhileLive(limits, Find(after, Digest(key)), Remember(limits, known, event, key), event.now)
    ensures event.op.key == key ==> shown == Shown(limits, known, event.op, event.now)
  {
    assert after == before || after == LiveEntries(limits, before, event.now);
  }

  function Digests(keys: set<string>): set<Digest> {
    set k | k in keys :: Digest(k)
  }

  lemma {:induction false} DigestsAreAsMany(keys: set<string>)
    ensures |Digests(keys)| == |keys|
    decreases |keys|
  {
    if keys == {} {
      assert Digests(keys) == {};
    } else {
      var k :| k in keys;
      DigestsAreAsMany(keys - {k});
      assert Digests(keys) == Digests(keys - {k}) + {Digest(k)};
    }
  }

  lemma MemoryStepKeys(limits: Limits, before: Memory, event: Event, after: Memory, shown: Observation)
    requires MemoryStep(limits, before, event, after, shown)
    ensures after.Keys <= before.Keys + if event.op.Fail? then {event.op.key} else {}
  {
  }

  lemma {:induction false} MemoryKeysHaveFailed(
    limits: Limits, events: seq<Event>, states: seq<Memory>, shown: seq<Observation>, n: nat)
    requires MemoryRun(limits, events, states, shown) && n <= |events|
    ensures states[n].Keys <= FailingKeys(events)
    decreases n
  {
    if n > 0 {
      MemoryKeysHaveFailed(limits, events, states, shown, n - 1);
      MemoryStepKeys(limits, states[n - 1], events[n - 1], states[n], shown[n - 1]);
      assert events[n - 1].op.Fail? ==> events[n - 1].op.key in FailingKeys(events);
    }
  }

  lemma MemoryHasRoom(limits: Limits, events: seq<Event>, states: seq<Memory>, shown: seq<Observation>, n: nat)
    requires MemoryRun(limits, events, states, shown) && n < |events|
    requires |FailingKeys(events)| <= limits.maxKeys && events[n].op.Fail?
    ensures |states[n].Keys + {events[n].op.key}| <= limits.maxKeys
  {
    MemoryKeysHaveFailed(limits, events, states, shown, n);
    assert events[n].op.key in FailingKeys(events);
    SubsetIsSmaller(states[n].Keys + {events[n].op.key}, FailingKeys(events));
  }

  lemma TableStepKeys(limits: Limits, before: Table, event: Event, after: Table, shown: Observation)
    requires TableStep(limits, before, event, after, shown)
    ensures after.Keys <= before.Keys + if event.op.Fail? then {Digest(event.op.key)} else {}
  {
  }

  lemma {:induction false} TableKeysHaveFailed(
    limits: Limits, events: seq<Event>, states: seq<Table>, shown: seq<Observation>, n: nat)
    requires TableRun(limits, events, states, shown) && n <= |events|
    ensures states[n].Keys <= Digests(FailingKeys(events))
    decreases n
  {
    if n > 0 {
      TableKeysHaveFailed(limits, events, states, shown, n - 1);
      TableStepKeys(limits, states[n - 1], events[n - 1], states[n], shown[n - 1]);
      assert events[n - 1].op.Fail? ==> events[n - 1].op.key in FailingKeys(events);
    }
  }

  lemma TableHasRoom(limits: Limits, events: seq<Event>, states: seq<Table>, shown: seq<Observation>, n: nat)
    requires TableRun(limits, events, states, shown) && n <= |events|
    requires |FailingKeys(events)| <= limits.maxKeys
    ensures |states[n]| <= limits.maxKeys
  {
    TableKeysHaveFailed(limits, events, states, shown, n);
    DigestsAreAsMany(FailingKeys(events));
    SubsetIsSmaller(states[n].Keys, Digests(FailingKeys(events)));
  }

  /** After any `n` events the memory store holds, for every key, its history as far as it is live. */
  lemma {:induction false} MemoryHoldsHistory(
    limits: Limits, events: seq<Event>, states: seq<Memory>, shown: seq<Observation>, n: nat, key: string, now: Time)
    requires MemoryRun(limits, events, states, shown) && Ordered(events)
    requires |FailingKeys(events)| <= limits.maxKeys
    requires n <= |events| && forall i | 0 <= i < n :: events[i].now <= now
    ensures SameWhileLive(limits, Find(states[n], key), History(limits, events[..n], key), now)
    decreases n
  {
    if n > 0 {
      var last := events[n - 1];
      MemoryHoldsHistory(limits, events, states, shown, n - 1, key, last.now);
      if last.op.Fail? {
        MemoryHasRoom(limits, events, states, shown, n - 1);
      }
      var known := History(limits, events[..n - 1], key);
      MemoryStepRemembers(limits, states[n - 1], last, states[n], shown[n - 1], key, known);
      HistoryStep(limits, events, n, key);
      LaterIsSameToo(limits, Find(states[n], key), Remember(limits, known, last, key), last.now, now);
    }
  }

  lemma {:induction false} TableHoldsHistory(
    limits: Limits, events: seq<Event>, states: seq<Table>, shown: seq<Observation>, n: nat, key: string, now: Time)
    requires TableRun(limits, events, states, shown) && Ordered(events)
    requires |FailingKeys(events)| <= limits.maxKeys
    requires n <= |events| && forall i | 0 <= i < n :: events[i].now <= now
    ensures SameWhileLive(limits, Find(states[n], Digest(key)), History(limits, events[..n], key), now)
    decreases n
  {
    if n > 0 {
      var last := events[n - 1];
      TableHoldsHistory(limits, events, states, shown, n - 1, key, last.now);
      TableHasRoom(limits, events, states, shown, n - 1);
      var known := History(limits, events[..n - 1], key);
      TableStepRemembers(limits, states[n - 1], last, states[n], shown[n - 1], key, known);
      HistoryStep(limits, events, n, key);
      LaterIsSameToo(limits, Find(states[n], Digest(key)), Remember(limits, known, last, key), last.now, now);
    }
  }

  /**
   The SQLite throttle refines the in-memory one. On any events with a non-decreasing clock and
   at most `maxKeys` failing keys, every failure, lock query, countdown and count shows the same
   in both, although the stores drop expired entries at different times.
   */
  lemma StoresAgree(
    limits: Limits, events: seq<Event>, memories: seq<Memory>, tables: seq<Table>,
    shownByMemory: seq<Observation>, shownByTable: seq<Observation>, i: nat)
    requires MemoryRun(limits, events, memories, shownByMemory)
    requires TableRun(limits, events, tables, shownByTable)
    requires Ordered(events) && |FailingKeys(events)| <= limits.maxKeys
    requires i < |events| && Shows(events[i].op)
    ensures shownByMemory[i] == shownByTable[i]
         == Shown(limits, History(limits, events[..i], events[i].op.key), events[i].op, events[i].now)
  {
    var event, key := events[i], events[i].op.key;
    var known := History(limits, events[..i], key);
    MemoryHoldsHistory(limits, events, memories, shownByMemory, i, key, event.now);
    TableHoldsHistory(limits, events, tables, shownByTable, i, key, event.now);
    if event.op.Fail? {
      MemoryHasRoom(limits, events, memories, shownByMemory, i);
    }
    MemoryStepRemembers(limits, memories[i], event, memories[i + 1], shownByMemory[i], key, known);
    TableStepRemembers(limits, tables[i], event, tables[i + 1], shownByTable[i], key, known);
  }

  lemma FailureFitsInMemory(limits: Limits, before: Memory, key: string, now: Time) returns (recorded: Attempt)
    requires |before.Keys + {key}| <= limits.maxKeys
    ensures recorded == AfterFailure(limits, Find(before, key), now)
    ensures MemoryStep(limits, before, Event(Fail(key), now), before[key := recorded], Recorded(recorded))
  {
    recorded := AfterFailure(limits, Find(before, key), now);
    var stored := before[key := recorded];
    assert stored.Keys == before.Keys + {key} && stored.Keys - stored.Keys == {};
  }

  lemma MemoryStepIsRemembered(
    limits: Limits, before: Memory, event: Event, after: Memory, shown: Observation, key: string, known: Option<Attempt>)
    requires MemoryStep(limits, before, event, after, shown) && (key in before ==> known.Some?)
    ensures key in after ==> Remember(limits, known, event, key).Some?
  {
    MemoryStepKeys(limits, before, event, after, shown);
  }

  lemma TableStepIsRemembered(
    limits: Limits, before: Table, event: Event, after: Table, shown: Observation, key: string, known: Option<Attempt>)
    requires TableStep(limits, before, event, after, shown) && (Digest(key) in before ==> known.Some?)
    ensures Digest(key) in after ==> Remember(limits, known, event, key).Some?
  {
    TableStepKeys(limits, before, event, after, shown);
    assert Digest(key) in after ==> Digest(key) in before || event.op == Fail(key);
  }

  /** A key is stored only while its history knows of a failure. */
  lemma {:induction false} MemoryIsRemembered(
    limits: Limits, events: seq<Event>, states: seq<Memory>, shown: seq<Observation>, n: nat, key: string)
    requires MemoryRun(limits, events, states, shown) && n <= |events|
    ensures key in states[n] ==> History(limits, events[..n], key).Some?
    decreases n
  {
    if n > 0 {
      MemoryIsRemembered(limits, events, states, shown, n - 1, key);
      MemoryStepIsRemembered(
        limits, states[n - 1], events[n - 1], states[n], shown[n - 1], key, History(limits, events[..n - 1], key));
      HistoryStep(limits, events, n, key);
    }
  }

  lemma {:induction false} TableIsRemembered(
    limits: Limits, events: seq<Event>, states: seq<Table>, shown: seq<Observation>, n: nat, key: string)
    requires TableRun(limits, events, states, shown) && n <= |events|
    ensures Digest(key) in states[n] ==> History(limits, events[..n], key).Some?
    decreases n
  {
    if n > 0 {
      TableIsRemembered(limits, events, states, shown, n - 1, key);
      TableStepIsRemembered(
        limits, states[n - 1], events[n - 1], states[n], shown[n - 1], key, History(limits, events[..n - 1], key));
      HistoryStep(limits, events, n, key);
    }
  }

  /** What is in the table is in memory, with the same attempts. */
  predicate RowIsInMemory(memory: Memory, table: Table, key: string) {
    Digest(key) in table ==> key in memory && memory[key] == table[Digest(key)]
  }

  lemma StepKeepsRowInMemory(
    limits: Limits, memory: Memory, table: Table, event: Event, memory': Memory, table': Table,
    inMemory: Observation, inTable: Observation, key: string)
    requires MemoryStep(limits, memory, event, memory', inMemory) && TableStep(limits, table, event, table', inTable)
    requires event.op.Fail? ==> |memory.Keys + {event.op.key}| <= limits.maxKeys
    requires event.op.Prune? ==> |table| <= limits.maxKeys
    requires Live(limits, Find(memory, key), event.now) == Live(limits, Find(table, Digest(key)), event.now)
    requires RowIsInMemory(memory, table, key)
    ensures RowIsInMemory(memory', table', key)
  {
    match event.op
    case Fail(_) => FailureKeepsRowInMemory(limits, memory, table, event, memory', table', inMemory, inTable, key);
    case Prune => PruneKeepsAll(limits, table, event, table', inTable);
    case IsLocked(_) => QueryKeepsRowInMemory(limits, memory, table, event, memory', table', key);
    case SecondsUntilUnlock(_) => QueryKeepsRowInMemory(limits, memory, table, event, memory', table', key);
    case FailureCount(_) => QueryKeepsRowInMemory(limits, memory, table, event, memory', table', key);
    case Reset(_) =>
    case Purge =>
  }

  lemma FailureKeepsRowInMemory(
    limits: Limits, memory: Memory, table: Table, event: Event, memory': Memory, table': Table,
    inMemory: Observation, inTable: Observation, key: string)
    requires MemoryStep(limits, memory, event, memory', inMemory) && TableStep(limits, table, event, table', inTable)
    requires event.op.Fail? && |memory.Keys + {event.op.key}| <= limits.maxKeys
    requires Live(limits, Find(memory, key), event.now) == Live(limits, Find(table, Digest(key)), event.now)
    requires RowIsInMemory(memory, table, key)
    ensures RowIsInMemory(memory', table', key)
  {
    MemoryKeepsAll(limits, memory, event, memory', inMemory);
  }

  lemma QueryKeepsRowInMemory(
    limits: Limits, memory: Memory, table: Table, event: Event, memory': Memory, table': Table, key: string)
    requires IsQuery(event.op) && RowIsInMemory(memory, table, key)
    requires memory' == memory || memory' == memory - {event.op.key}
    requires memory' != memory ==> event.op.key in memory && ClearsUp(limits, memory[event.op.key], event.op, event.now)
    requires
      var digest := Digest(event.op.key);
      table' == if digest in table && ClearsUp(limits, table[digest], event.op, event.now)
                then LiveEntries(limits, table, event.now) else table
    ensures RowIsInMemory(memory', table', key)
  {
  }

  /** In every pair of runs over the same events the table holds nothing that memory does not hold. */
  lemma {:induction false} TableIsInMemory(
    limits: Limits, events: seq<Event>, memories: seq<Memory>, tables: seq<Table>,
    shownByMemory: seq<Observation>, shownByTable: seq<Observation>, n: nat, key: string)
    requires MemoryRun(limits, events, memories, shownByMemory)
    requires TableRun(limits, events, tables, shownByTable)
    requires Ordered(events) && |FailingKeys(events)| <= limits.maxKeys && n <= |events|
    ensures RowIsInMemory(memories[n], tables[n], key)
    decreases n
  {
    if n > 0 {
      var last := events[n - 1];
      TableIsInMemory(limits, events, memories, tables, shownByMemory, shownByTable, n - 1, key);
      MemoryHoldsHistory(limits, events, memories, shownByMemory, n - 1, key, last.now);
      TableHoldsHistory(limits, events, tables, shownByTable, n - 1, key, last.now);
      if last.op.Fail? { MemoryHasRoom(limits, events, memories, shownByMemory, n - 1); }
      TableHasRoom(limits, events, tables, shownByTable, n - 1);
      assert MemoryStep(limits, memories[n - 1], last, memories[n], shownByMemory[n - 1]);
      assert TableStep(limits, tables[n - 1], last, tables[n], shownByTable[n - 1]);
      StepKeepsRowInMemory(limits, memories[n - 1], tables[n - 1], last, memories[n], tables[n],
                           shownByMemory[n - 1], shownByTable[n - 1], key);
    }
  }

  /** A query meets an entry of its key that is over. */
  predicate MeetsOver(limits: Limits, table: Table, event: Event) {
    && IsQuery(event.op) && Digest(event.op.key) in table
    && ClearsUp(limits, table[Digest(event.op.key)], event.op, event.now)
  }

  /**
   Exactly when one event takes a row from the table and leaves the entry in memory: the row has
   expired, and the query of another key meets an entry that is over, on which the table drops
   every expired row and memory only the entry of that key.
   */
  lemma RowGoesAloneExactly(
    limits: Limits, memory: Memory, table: Table, event: Event, memory': Memory, table': Table,
    inMemory: Observation, inTable: Observation, key: string)
    requires MemoryStep(limits, memory, event, memory', inMemory) && TableStep(limits, table, event, table', inTable)
    requires event.op.Fail? ==> |memory.Keys + {event.op.key}| <= limits.maxKeys
    requires event.op.Prune? ==> |table| <= limits.maxKeys
    requires Digest(key) in table && RowIsInMemory(memory, table, key)
    ensures Digest(key) !in table' && key in memory' <==>
      MeetsOver(limits, table, event) && event.op.key != key && Expired(limits, table[Digest(key)], event.now)
  {
    match event.op
    case Fail(_) => MemoryKeepsAll(limits, memory, event, memory', inMemory);
    case Prune => PruneKeepsAll(limits, table, event, table', inTable);
    case IsLocked(_) => QueryTakesRowExactly(limits, memory, table, event, memory', table', key);
    case SecondsUntilUnlock(_) => QueryTakesRowExactly(limits, memory, table, event, memory', table', key);
    case FailureCount(_) => QueryTakesRowExactly(limits, memory, table, event, memory', table', key);
    case Reset(_) =>
    case Purge =>
  }

  lemma QueryTakesRowExactly(
    limits: Limits, memory: Memory, table: Table, event: Event, memory': Memory, table': Table, key: string)
    requires IsQuery(event.op) && Digest(key) in table && RowIsInMemory(memory, table, key)
    requires memory' == if event.op.key in memory && ClearsUp(limits, memory[event.op.key], event.op, event.now)
                        then memory - {event.op.key} else memory
    requires table' == if MeetsOver(limits, table, event) then LiveEntries(limits, table, event.now) else table
    ensures Digest(key) !in table' && key in memory' <==>
      MeetsOver(limits, table, event) && event.op.key != key && Expired(limits, table[Digest(key)], event.now)
  {
  }

  /**
   A reset reports a key without a failure since its last reset as absent, and one whose failures
   are live as removed, in both stores. So their reports can differ only for expired failures, and
   only in one way: removed from memory, absent from the table.
   */
  lemma ResetsAgreeUnlessExpired(
    limits: Limits, events: seq<Event>, memories: seq<Memory>, tables: seq<Table>,
    shownByMemory: seq<Observation>, shownByTable: seq<Observation>, i: nat)
    requires MemoryRun(limits, events, memories, shownByMemory)
    requires TableRun(limits, events, tables, shownByTable)
    requires Ordered(events) && |FailingKeys(events)| <= limits.maxKeys
    requires i < |events| && events[i].op.Reset?
    ensures
      var known := History(limits, events[..i], events[i].op.key);
      && (known.None? ==> shownByMemory[i] == shownByTable[i] == Answer(false))
      && (Live(limits, known, events[i].now).Some? ==> shownByMemory[i] == shownByTable[i] == Answer(true))
      && (shownByMemory[i] != shownByTable[i] ==>
            && known.Some? && Expired(limits, known.value, events[i].now)
            && shownByMemory[i] == Answer(true) && shownByTable[i] == Answer(false))
  {
    var key, now := events[i].op.key, events[i].now;
    MemoryHoldsHistory(limits, events, memories, shownByMemory, i, key, now);
    TableHoldsHistory(limits, events, tables, shownByTable, i, key, now);
    MemoryIsRemembered(limits, events, memories, shownByMemory, i, key);
    TableIsRemembered(limits, events, tables, shownByTable, i, key);
    TableIsInMemory(limits, events, memories, tables, shownByMemory, shownByTable, i, key);
    assert MemoryStep(limits, memories[i], events[i], memories[i + 1], shownByMemory[i]);
    assert TableStep(limits, tables[i], events[i], tables[i + 1], shownByTable[i]);
  }

  /** Such a run: after another key's query purged the table, only memory reports the key as removed. */
  lemma ResetResultsMayDiffer(limits: Limits, a: string, b: string)
    returns (events: seq<Event>, memories: seq<Memory>, tables: seq<Table>, inMemory: seq<Observation>, inTable: seq<Observation>)
    requires limits == Limits(10, 5, 10, 2) && a != b
    ensures MemoryRun(limits, events, memories, inMemory) && TableRun(limits, events, tables, inTable) && Ordered(events)
    ensures |events| == 6 && events[5].op == Reset(a) && inMemory[5] == Answer(true) && inTable[5] == Answer(false)
  {
    var once, late := Attempt(1, 0, 0, None), 20 * SECOND;
    events := [Event(Fail(a), 0), Event(Prune, 0), Event(Fail(b), 0), Event(Prune, 0),
               Event(IsLocked(b), late), Event(Reset(a), late)];
    memories, inMemory := MemoryKeepsExpired(limits, events, once, a, b);
    tables, inTable := TableDropsExpired(limits, events, once, a, b);
  }

  lemma TwoFailuresInMemory(limits: Limits, once: Attempt, a: string, b: string)
    requires limits == Limits(10, 5, 10, 2) && once == Attempt(1, 0, 0, None) && a != b
    ensures MemoryStep(limits, map[], Event(Fail(a), 0), map[a := once], Recorded(once))
    ensures MemoryStep(limits, map[a := once], Event(Fail(b), 0), map[a := once, b := once], Recorded(once))
  {
    var empty: Memory, one: Memory := map[], map[a := once];
    assert empty.Keys + {a} == {a} && one.Keys + {b} == {a, b};
    var _ := FailureFitsInMemory(limits, empty, a, 0);
    var _ := FailureFitsInMemory(limits, one, b, 0);
    assert one[b := once] == map[a := once, b := once];
  }

  lemma MemoryDropsOneExpired(limits: Limits, once: Attempt, a: string, b: string)
    requires limits == Limits(10, 5, 10, 2) && once == Attempt(1, 0, 0, None) && a != b
    ensures MemoryStep(limits, map[a := once, b := once], Event(IsLocked(b), 20 * SECOND), map[a := once], Answer(false))
    ensures MemoryStep(limits, map[a := once], Event(Reset(a), 20 * SECOND), map[], Answer(true))
  {
    var one: Memory, two: Memory := map[a := once], map[a := once, b := once];
    assert two - {b} == one && one - {a} == map[];
  }

  lemma MemoryKeepsExpired(limits: Limits, events: seq<Event>, once: Attempt, a: string, b: string)
    returns (states: seq<Memory>, shown: seq<Observation>)
    requires limits == Limits(10, 5, 10, 2) && once == Attempt(1, 0, 0, None) && a != b
    requires events == [Event(Fail(a), 0), Event(Prune, 0), Event(Fail(b), 0), Event(Prune, 0),
                        Event(IsLocked(b), 20 * SECOND), Event(Reset(a), 20 * SECOND)]
    ensures MemoryRun(limits, events, states, shown) && shown[5] == Answer(true)
  {
    states := [map[], map[a := once], map[a := once], map[a := once, b := once], map[a := once, b := once], map[a := once], map[]];
    shown := [Recorded(once), Number(0), Recorded(once), Number(0), Answer(false), Answer(true)];
    TwoFailuresInMemory(limits, once, a, b);
    MemoryDropsOneExpired(limits, once, a, b);
  }

  lemma TwoFailuresInTable(limits: Limits, once: Attempt, a: string, b: string)
    requires limits == Limits(10, 5, 10, 2) && once == Attempt(1, 0, 0, None) && a != b
    ensures TableStep(limits, map[], Event(Fail(a), 0), map[Digest(a) := once], Recorded(once))
    ensures TableStep(limits, map[Digest(a) := once], Event(Fail(b), 0),
                      map[Digest(a) := once, Digest(b) := once], Recorded(once))
  {
    var one: Table := map[Digest(a) := once];
    assert one[Digest(b) := once] == map[Digest(a) := once, Digest(b) := once];
  }

  lemma PruneFits(limits: Limits, table: Table, now: Time)
    requires |table| <= limits.maxKeys
    ensures TableStep(limits, table, Event(Prune, now), table, Number(0))
  {
    assert table.Keys - table.Keys == {};
  }

  lemma TwoPrunes(limits: Limits, once: Attempt, a: string, b: string)
    requires limits == Limits(10, 5, 10, 2) && a != b
    ensures TableStep(limits, map[Digest(a) := once], Event(Prune, 0), map[Digest(a) := once], Number(0))
    ensures TableStep(limits, map[Digest(a) := once, Digest(b) := once], Event(Prune, 0),
                      map[Digest(a) := once, Digest(b) := once], Number(0))
  {
    var one: Table, two: Table := map[Digest(a) := once], map[Digest(a) := once, Digest(b) := once];
    assert one.Keys == {Digest(a)} && two.Keys == {Digest(a), Digest(b)};
    PruneFits(limits, one, 0);
    PruneFits(limits, two, 0);
  }

  lemma TableDropsAllExpired(limits: Limits, once: Attempt, a: string, b: string)
    requires limits == Limits(10, 5, 10, 2) && once == Attempt(1, 0, 0, None) && a != b
    ensures TableStep(limits, map[Digest(a) := once, Digest(b) := once], Event(IsLocked(b), 20 * SECOND), map[], Answer(false))
    ensures TableStep(limits, map[], Event(Reset(a), 20 * SECOND), map[], Answer(false))
  {
    var two: Table := map[Digest(a) := once, Digest(b) := once];
    assert LiveEntries(limits, two, 20 * SECOND) == map[];
  }

  lemma TableDropsExpired(limits: Limits, events: seq<Event>, once: Attempt, a: string, b: string)
    returns (states: seq<Table>, shown: seq<Observation>)
    requires limits == Limits(10, 5, 10, 2) && once == Attempt(1, 0, 0, None) && a != b
    requires events == [Event(Fail(a), 0), Event(Prune, 0), Event(Fail(b), 0), Event(Prune, 0),
                        Event(IsLocked(b), 20 * SECOND), Event(Reset(a), 20 * SECOND)]
    ensures TableRun(limits, events, states, shown) && shown[5] == Answer(false)
  {
    var one: Table, two: Table := map[Digest(a) := once], map[Digest(a) := once, Digest(b) := once];
    states := [map[], one, one, two, two, map[], map[]];
    shown := [Recorded(once), Number(0), Recorded(once), Number(0), Answer(false), Answer(false)];
    TwoFailuresInTable(limits, once, a, b);
    TwoPrunes(limits, once, a, b);
    TableDropsAllExpired(limits, once, a, b);
  }

  /******* More keys than the stores may hold *******/

  lemma TableStepKeepsLock(limits: Limits, before: Table, event: Event, after: Table, shown: Observation, digest: Digest)
    requires TableStep(limits, before, event, after, shown)
    requires digest in before && Locked(before[digest], event.now) && event.op != Reset(digest.key)
    ensures digest in after && after[digest] == before[digest]
  {
    if event.op.Prune? { assert digest !in before.Keys - after.Keys; }
  }

  /**
   In the SQLite store a lock outlives everything but a reset: whatever other keys do, and
   however often the table is pruned, the locked row stays as it is until its time is up.
   */
  lemma {:induction false} TableKeepsLock(
    limits: Limits, events: seq<Event>, states: seq<Table>, shown: seq<Observation>, key: string, i: nat, j: nat)
    requires TableRun(limits, events, states, shown)
    requires i <= j <= |events|
    requires Digest(key) in states[i] && states[i][Digest(key)].lockedUntil.Some?
    requires forall k | i <= k < j ::
      events[k].now < states[i][Digest(key)].lockedUntil.value && events[k].op != Reset(key)
    ensures Digest(key) in states[j] && states[j][Digest(key)] == states[i][Digest(key)]
    decreases j
  {
    if i < j {
      TableKeepsLock(limits, events, states, shown, key, i, j - 1);
      TableStepKeepsLock(limits, states[j - 1], events[j - 1], states[j], shown[j - 1], Digest(key));
    }
  }

  /** The in-memory store is full, the failing key is new, and the entry of `key` is the first to go. */
  ghost predicate IsFirstOut(limits: Limits, before: Store, event: Event, key: string) {
    && event.op.Fail? && event.op.key !in before.records && |before.records| >= limits.maxKeys
    && key in before.records && before.records[key].last <= event.now
    && forall other | other in before.records && other != key :: Older(before, key, other)
  }

  lemma OnlyOneDropped(before: Memory, after: Memory, gone: string)
    requires DropsOldest(before, after, before.Keys, 1) && gone in before.Keys - after.Keys
    ensures before.Keys - after.Keys == {gone}
  {
    SubsetIsSmaller({gone}, before.Keys - after.Keys);
  }

  /** The new key comes last in the order. */
  lemma PlacedPrecedes(order: seq<string>, key: string, a: string, b: string)
    requires key !in order
    ensures b != key ==> (Precedes(Placed(order, key), a, b) <==> Precedes(order, a, b))
    ensures a in order ==> Precedes(Placed(order, key), a, key)
  {
    var placed := Placed(order, key);
    if b != key && Precedes(placed, a, b) {
      var i, j :| 0 <= i < j < |placed| && placed[i] == a && placed[j] == b;
      assert j < |order|;
    }
    if Precedes(order, a, b) {
      var i, j :| 0 <= i < j < |order| && order[i] == a && order[j] == b;
      assert placed[i] == a && placed[j] == b;
    }
    if a in order {
      var i :| 0 <= i < |order| && order[i] == a;
      assert placed[i] == a && placed[|order|] == key;
    }
  }

  lemma NewEntry(limits: Limits, before: Store, event: Event)
    requires event.op.Fail? && event.op.key !in before.records
    ensures
      var written := WithFailure(limits, before, event.op.key, event.now);
      && written.records[event.op.key].last == event.now
      && (forall k | k in before.records :: k in written.records && written.records[k] == before.records[k])
      && written.records.Keys == before.records.Keys + {event.op.key} && |written.records| == |before.records| + 1
  {
  }

  lemma OlderBefore(limits: Limits, before: Store, event: Event, a: string, b: string)
    requires Listed(before) && event.op.Fail? && event.op.key !in before.records
    requires a in before.records && b in before.records
    ensures
      var written := WithFailure(limits, before, event.op.key, event.now);
      Older(written, a, b) <==> Older(before, a, b)
  {
    PlacedPrecedes(before.order, event.op.key, a, b);
  }

  lemma EvictedIsOlder(before: Store, after: Memory, gone: string, kept: string)
    requires EvictsOldest(before, after) && gone in before.records && gone !in after
    requires kept in before.records && kept in after
    ensures Older(before, gone, kept)
  {
  }

  lemma GoneIsFirstOut(limits: Limits, before: Store, event: Event, after: Store, shown: Observation, key: string)
    requires Listed(before) && |before.records| <= limits.maxKeys && StoreStep(limits, before, event, after, shown)
    requires event.op.Fail? && event.op.key !in before.records && key in before.records && key !in after.records
    ensures IsFirstOut(limits, before, event, key)
  {
    var written := WithFailure(limits, before, event.op.key, event.now);
    NewEntry(limits, before, event);
    assert key in written.records.Keys - after.records.Keys;
    OnlyOneDropped(written.records, after.records, key);
    assert forall other | other in written.records && other != key :: other in after.records;
    EvictedIsOlder(written, after.records, key, event.op.key);
    forall other | other in before.records && other != key
      ensures Older(before, key, other)
    {
      EvictedIsOlder(written, after.records, key, other);
      OlderBefore(limits, before, event, key, other);
    }
  }

  lemma FirstOutIsGone(limits: Limits, before: Store, event: Event, after: Store, shown: Observation, key: string)
    requires Listed(before) && |before.records| <= limits.maxKeys && StoreStep(limits, before, event, after, shown)
    requires IsFirstOut(limits, before, event, key)
    ensures key !in after.records
  {
    var written := WithFailure(limits, before, event.op.key, event.now);
    NewEntry(limits, before, event);
    var dropped := written.records.Keys - after.records.Keys;
    assert |dropped| == 1;
    var gone :| gone in dropped;
    if gone != key && key in after.records {
      assert written.records[gone].last <= written.records[key].last;
      if gone in before.records {
        EvictedIsOlder(written, after.records, gone, key);
        OlderBefore(limits, before, event, gone, key);
        NotBothWays(before, key, gone);
      } else {
        assert gone == event.op.key && Older(written, gone, key);
        PlacedIsLast(before.order, gone, key);
      }
    }
  }

  lemma NotBothWays(store: Store, a: string, b: string)
    requires Listed(store) && a in store.records && b in store.records && Older(store, a, b)
    ensures !Older(store, b, a)
  {
  }

  lemma PlacedIsLast(order: seq<string>, key: string, other: string)
    requires key !in order
    ensures !Precedes(Placed(order, key), key, other)
  {
  }

  /**
   The exact condition under which one event costs the in-memory store a lock: a reset of the key,
   or the failure of a new key while the store is full and this entry is the first to go, by its
   last failure and, among equals, by its insertion.
   */
  lemma LockIsKeptExactly(limits: Limits, before: Store, event: Event, after: Store, shown: Observation, key: string)
    requires Listed(before) && |before.records| <= limits.maxKeys && StoreStep(limits, before, event, after, shown)
    requires key in before.records && Locked(before.records[key], event.now)
    ensures Find(after.records, key) == Find(before.records, key) <==>
      event.op != Reset(key) && !IsFirstOut(limits, before, event, key)
  {
    if event.op.Fail? {
      FailureKeepsLockExactly(limits, before, event, after, shown, key);
    } else {
      OthersKeepLock(limits, before.records, event, after.records, shown, key);
    }
  }

  lemma OthersKeepLock(limits: Limits, before: Memory, event: Event, after: Memory, shown: Observation, key: string)
    requires MemoryStep(limits, before, event, after, shown) && !event.op.Fail?
    requires key in before && Locked(before[key], event.now)
    ensures Find(after, key) == Find(before, key) <==> event.op != Reset(key)
  {
  }

  lemma FailureKeepsLockExactly(limits: Limits, before: Store, event: Event, after: Store, shown: Observation, key: string)
    requires Listed(before) && |before.records| <= limits.maxKeys && StoreStep(limits, before, event, after, shown)
    requires event.op.Fail? && key in before.records && Locked(before.records[key], event.now)
    ensures Find(after.records, key) == Find(before.records, key) <==> !IsFirstOut(limits, before, event, key)
  {
    var written := WithFailure(limits, before, event.op.key, event.now);
    assert written.records[key] == before.records[key];
    if event.op.key in before.records {
      assert written.records.Keys == before.records.Keys;
      NothingDropped(written.records, after.records, written.records.Keys);
    } else if IsFirstOut(limits, before, event, key) {
      FirstOutIsGone(limits, before, event, after, shown, key);
    } else if key !in after.records {
      GoneIsFirstOut(limits, before, event, after, shown, key);
    }
  }

  lemma MemoryStepFits(limits: Limits, before: Memory, event: Event, after: Memory, shown: Observation)
    requires MemoryStep(limits, before, event, after, shown) && |before| <= limits.maxKeys
    ensures |after| <= limits.maxKeys
  {
    if event.op.Fail? {
      var stored := before[event.op.key := AfterFailure(limits, Find(before, event.op.key), event.now)];
      assert stored.Keys == after.Keys + (stored.Keys - after.Keys);
    } else {
      SubsetIsSmaller(after.Keys, before.Keys);
    }
  }

  lemma {:induction false} MemoryStaysSmall(
    limits: Limits, events: seq<Event>, states: seq<Memory>, shown: seq<Observation>, n: nat)
    requires limits.Valid() && MemoryRun(limits, events, states, shown) && n <= |events|
    ensures |states[n]| <= limits.maxKeys
    decreases n
  {
    if n > 0 {
      MemoryStaysSmall(limits, events, states, shown, n - 1);
      MemoryStepFits(limits, states[n - 1], events[n - 1], states[n], shown[n - 1]);
    }
  }

  ghost predicate StoreRun(limits: Limits, events: seq<Event>, states: seq<Store>, shown: seq<Observation>) {
    && |states| == |events| + 1 && |shown| == |events| && states[0] == Store(map[], [])
    && forall i {:trigger shown[i]} | 0 <= i < |events| :: StoreStep(limits, states[i], events[i], states[i + 1], shown[i])
  }

  function RecordsOf(states: seq<Store>): (memories: seq<Memory>)
    ensures |memories| == |states| && forall i | 0 <= i < |states| :: memories[i] == states[i].records
  {
    seq(|states|, i requires 0 <= i < |states| => states[i].records)
  }

  /** So all that holds of the entries holds of the dictionary. */
  lemma StoreRunIsMemoryRun(limits: Limits, events: seq<Event>, states: seq<Store>, shown: seq<Observation>)
    requires StoreRun(limits, events, states, shown)
    ensures MemoryRun(limits, events, RecordsOf(states), shown)
  {
    var memories := RecordsOf(states);
    forall i {:trigger shown[i]} | 0 <= i < |events|
      ensures MemoryStep(limits, memories[i], events[i], memories[i + 1], shown[i])
    {
      assert StoreStep(limits, states[i], events[i], states[i + 1], shown[i]);
    }
  }

  lemma StoreStepStaysListed(limits: Limits, before: Store, event: Event, after: Store, shown: Observation)
    requires Listed(before) && StoreStep(limits, before, event, after, shown)
    ensures Listed(after)
  {
    if event.op.Fail? {
      var written := WithFailure(limits, before, event.op.key, event.now);
      RemainingIsListed(written, after.records);
    } else {
      MemoryStepKeys(limits, before.records, event, after.records, shown);
      RemainingIsListed(before, after.records);
    }
  }

  lemma {:induction false} StoreStaysListed(
    limits: Limits, events: seq<Event>, states: seq<Store>, shown: seq<Observation>, n: nat)
    requires StoreRun(limits, events, states, shown) && n <= |events|
    ensures Listed(states[n])
    decreases n
  {
    if n > 0 {
      StoreStaysListed(limits, events, states, shown, n - 1);
      StoreStepStaysListed(limits, states[n - 1], events[n - 1], states[n], shown[n - 1]);
    }
  }

  /** A lock in any state of any run survives the next event exactly if that is neither of the two. */
  lemma NextEventKeepsLockExactly(
    limits: Limits, events: seq<Event>, states: seq<Store>, shown: seq<Observation>, key: string, j: nat)
    requires limits.Valid() && StoreRun(limits, events, states, shown) && j < |events|
    requires key in states[j].records && Locked(states[j].records[key], events[j].now)
    ensures Find(states[j + 1].records, key) == Find(states[j].records, key) <==>
      events[j].op != Reset(key) && !IsFirstOut(limits, states[j], events[j], key)
  {
    StoreRunIsMemoryRun(limits, events, states, shown);
    MemoryStaysSmall(limits, events, RecordsOf(states), shown, j);
    StoreStaysListed(limits, events, states, shown, j);
    assert StoreStep(limits, states[j], events[j], states[j + 1], shown[j]);
    LockIsKeptExactly(limits, states[j], events[j], states[j + 1], shown[j], key);
  }

  /** Over every run a lock stays in memory as it is, until its time, as long as neither of the two happens. */
  lemma {:induction false} MemoryKeepsLock(
    limits: Limits, events: seq<Event>, states: seq<Store>, shown: seq<Observation>, key: string, i: nat, j: nat)
    requires limits.Valid() && StoreRun(limits, events, states, shown) && i <= j <= |events|
    requires key in states[i].records && states[i].records[key].lockedUntil.Some?
    requires forall k {:trigger events[k]} | i <= k < j ::
      && events[k].now < states[i].records[key].lockedUntil.value
      && events[k].op != Reset(key) && !IsFirstOut(limits, states[k], events[k], key)
    ensures Find(states[j].records, key) == Find(states[i].records, key)
    decreases j
  {
    if i < j {
      MemoryKeepsLock(limits, events, states, shown, key, i, j - 1);
      assert events[j - 1].op != Reset(key) && !IsFirstOut(limits, states[j - 1], events[j - 1], key);
      NextEventKeepsLockExactly(limits, events, states, shown, key, j - 1);
    }
  }

  lemma FirstKeyIsStored(limits: Limits, a: string, first: Attempt)
    requires limits == Limits(10, 1, 10, 1) && first == Attempt(1, 0, 0, Some(10 * SECOND))
    ensures StoreStep(limits, Store(map[], []), Event(Fail(a), 0), Store(map[a := first], [a]), Recorded(first))
  {
    var empty: Memory, one: Memory := map[], map[a := first];
    assert empty.Keys + {a} == {a};
    var recorded := FailureFitsInMemory(limits, empty, a, 0);
    RemainingIsAll([a], one);
  }

  lemma OtherRemains(a: string, b: string, second: Attempt)
    requires a != b
    ensures Remaining(Placed([a], b), map[b := second]) == [b]
  {
    assert [a] + [b] == [a, b] && [a, b][1..] == [b];
    RemainingIsAll([b], map[b := second]);
    assert [] + [b] == [b];
  }

  /** With room for one key, the second failure evicts the first key, locked as it is. */
  lemma LockedKeyIsEvicted(limits: Limits, a: string, b: string, first: Attempt, second: Attempt)
    requires limits == Limits(10, 1, 10, 1) && a != b
    requires first == Attempt(1, 0, 0, Some(10 * SECOND)) && second == Attempt(1, 1, 1, Some(1 + 10 * SECOND))
    ensures StoreStep(limits, Store(map[a := first], [a]), Event(Fail(b), 1), Store(map[b := second], [b]), Recorded(second))
  {
    var one: Memory, other: Memory := map[a := first], map[b := second];
    var stored := one[b := second];
    assert stored.Keys == {a, b} && stored.Keys - other.Keys == {a};
    OtherRemains(a, b, second);
  }

  /** A run with one more step. */
  lemma Grown(
    limits: Limits, events: seq<Event>, states: seq<Store>, shown: seq<Observation>, event: Event, after: Store, seen: Observation)
    returns (events': seq<Event>, states': seq<Store>, shown': seq<Observation>)
    requires StoreRun(limits, events, states, shown) && StoreStep(limits, states[|events|], event, after, seen)
    ensures events' == events + [event] && states' == states + [after] && shown' == shown + [seen]
    ensures StoreRun(limits, events', states', shown')
  {
    events', states', shown' := events + [event], states + [after], shown + [seen];
    forall i {:trigger shown'[i]} | 0 <= i < |events'|
      ensures StoreStep(limits, states'[i], events'[i], states'[i + 1], shown'[i])
    {
      if i < |events| { assert shown'[i] == shown[i]; }
    }
  }

  lemma SoleKeyStays(limits: Limits, key: string, attempt: Attempt, now: Time)
    ensures
      var store := Store(map[key := attempt], [key]);
      StoreStep(limits, store, Event(Prune, now), store, Number(0))
  {
    RemainingIsAll([key], map[key := attempt]);
  }

  lemma OtherKeyIsNotLocked(limits: Limits, key: string, attempt: Attempt, other: string, now: Time)
    requires other != key
    ensures
      var store := Store(map[key := attempt], [key]);
      StoreStep(limits, store, Event(IsLocked(other), now), store, Answer(false))
  {
    RemainingIsAll([key], map[key := attempt]);
  }

  lemma FirstKeyFails(limits: Limits, a: string, first: Attempt)
    returns (events: seq<Event>, states: seq<Store>, shown: seq<Observation>)
    requires limits == Limits(10, 1, 10, 1) && first == Attempt(1, 0, 0, Some(10 * SECOND))
    ensures events == [Event(Fail(a), 0), Event(Prune, 0)] && |states| == 3 && |shown| == 2
    ensures StoreRun(limits, events, states, shown) && states[2] == Store(map[a := first], [a])
  {
    var one := Store(map[a := first], [a]);
    assert StoreRun(limits, [], [Store(map[], [])], []);
    FirstKeyIsStored(limits, a, first);
    events, states, shown := Grown(limits, [], [Store(map[], [])], [], Event(Fail(a), 0), one, Recorded(first));
    SoleKeyStays(limits, a, first, 0);
    events, states, shown := Grown(limits, events, states, shown, Event(Prune, 0), one, Number(0));
  }

  lemma SecondKeyFails(
    limits: Limits, a: string, b: string, first: Attempt, second: Attempt,
    events: seq<Event>, states: seq<Store>, shown: seq<Observation>)
    returns (events': seq<Event>, states': seq<Store>, shown': seq<Observation>)
    requires limits == Limits(10, 1, 10, 1) && a != b
    requires first == Attempt(1, 0, 0, Some(10 * SECOND)) && second == Attempt(1, 1, 1, Some(1 + 10 * SECOND))
    requires StoreRun(limits, events, states, shown) && states[|events|] == Store(map[a := first], [a])
    ensures events' == events + [Event(Fail(b), 1)] + [Event(Prune, 1)]
    ensures StoreRun(limits, events', states', shown') && states'[|events'|] == Store(map[b := second], [b])
  {
    var two := Store(map[b := second], [b]);
    LockedKeyIsEvicted(limits, a, b, first, second);
    events', states', shown' := Grown(limits, events, states, shown, Event(Fail(b), 1), two, Recorded(second));
    SoleKeyStays(limits, b, second, 1);
    events', states', shown' := Grown(limits, events', states', shown', Event(Prune, 1), two, Number(0));
  }

  lemma MemoryForgets(limits: Limits, a: string, b: string)
    returns (events: seq<Event>, states: seq<Store>, shown: seq<Observation>)
    requires limits == Limits(10, 1, 10, 1) && a != b
    ensures events == [Event(Fail(a), 0), Event(Prune, 0), Event(Fail(b), 1), Event(Prune, 1), Event(IsLocked(a), 2)]
    ensures StoreRun(limits, events, states, shown) && shown[4] == Answer(false)
  {
    var first: Attempt, second := Attempt(1, 0, 0, Some(10 * SECOND)), Attempt(1, 1, 1, Some(1 + 10 * SECOND));
    events, states, shown := FirstKeyFails(limits, a, first);
    events, states, shown := SecondKeyFails(limits, a, b, first, second, events, states, shown);
    OtherKeyIsNotLocked(limits, b, second, a, 2);
    events, states, shown := Grown(limits, events, states, shown, Event(IsLocked(a), 2), states[4], Answer(false));
  }

  /** So the same events can leave a key unlocked in memory and locked in every SQLite run. */
  lemma MemoryMayForgetALock(limits: Limits, a: string, b: string)
    returns (events: seq<Event>, states: seq<Store>, shown: seq<Observation>)
    requires limits == Limits(10, 1, 10, 1) && a != b
    ensures Ordered(events) && StoreRun(limits, events, states, shown)
    ensures |events| == 5 && events[4].op == IsLocked(a) && shown[4] == Answer(false)
    ensures forall tables, shown' | TableRun(limits, events, tables, shown') :: shown'[4] == Answer(true)
  {
    events, states, shown := MemoryForgets(limits, a, b);
    forall tables, shown' | TableRun(limits, events, tables, shown')
      ensures shown'[4] == Answer(true)
    {
      TableStillLocked(limits, events, tables, shown', a, b);
    }
  }

  lemma TableStillLocked(limits: Limits, events: seq<Event>, tables: seq<Table>, shown: seq<Observation>, a: string, b: string)
    requires a != b && limits == Limits(10, 1, 10, 1) && TableRun(limits, events, tables, shown)
    requires events == [Event(Fail(a), 0), Event(Prune, 0), Event(Fail(b), 1), Event(Prune, 1), Event(IsLocked(a), 2)]
    ensures shown[4] == Answer(true)
  {
    assert TableStep(limits, tables[0], events[0], tables[1], shown[0]);
    TableKeepsLock(limits, events, tables, shown, a, 1, 4);
    assert TableStep(limits, tables[4], events[4], tables[5], shown[4]);
  }

  /******* The throttle bound *******/

  /** A failure counts unless the key is locked when it happens. */
  predicate Counts(limits: Limits, known: Option<Attempt>, event: Event, key: string) {
    event.op == Fail(key) && !(known.Some? && Locked(known.value, event.now))
  }

  /** How many failures of `key` were counted from `from` to `until`. */
  function Counted(limits: Limits, events: seq<Event>, key: string, from: Time, until: Time): nat {
    if events == [] then 0
    else
      var last := |events| - 1;
      Counted(limits, events[..last], key, from, until)
      + if from <= events[last].now <= until && Counts(limits, History(limits, events[..last], key), events[last], key)
        then 1 else 0
  }

  function Gap(limits: Limits): int {
    Minimum(limits.Window(), limits.Lockout())
  }

  /** An attempt that the throttle itself produced: locked exactly at the limit. */
  predicate Sound(limits: Limits, attempt: Attempt) {
    && 1 <= attempt.count <= limits.maxFailures
    && attempt.first <= attempt.last
    && attempt.lockedUntil ==
       if attempt.count == limits.maxFailures then Some(attempt.last + limits.Lockout()) else None
  }

  /** `k` earlier bursts and the current one cover the `counted` failures since `from`. */
  ghost predicate CoveredBy(limits: Limits, attempt: Attempt, counted: nat, from: Time, k: nat) {
    k * Gap(limits) <= BurstStart(attempt, from) && counted <= limits.maxFailures * k + attempt.count
  }

  ghost predicate WithinBursts(limits: Limits, known: Option<Attempt>, counted: nat, from: Time) {
    match known
    case None => counted == 0
    case Some(attempt) =>
      && Sound(limits, attempt)
      && (attempt.last < from ==> counted == 0)
      && (attempt.last >= from ==> exists k: nat :: CoveredBy(limits, attempt, counted, from, k))
  }

  function BurstStart(attempt: Attempt, from: Time): nat {
    if attempt.first > from then attempt.first - from else 0
  }

  lemma NextBurst(max: int, gap: int, k: nat, start: int, counted: int, now: int)
    requires k * gap <= start && start + gap <= now && counted <= max * k + max
    ensures (k + 1) * gap <= now && counted + 1 <= max * (k + 1) + 1
  {
  }

  lemma {:induction false} HistoryIsSound(limits: Limits, events: seq<Event>, key: string, now: Time)
    requires limits.Valid() && Ordered(events)
    requires forall i | 0 <= i < |events| :: events[i].now <= now
    ensures History(limits, events, key).Some? ==>
      Sound(limits, History(limits, events, key).value) && History(limits, events, key).value.last <= now
    decreases |events|
  {
    if events != [] {
      var last := |events| - 1;
      HistoryIsSound(limits, events[..last], key, events[last].now);
    }
  }

  /** One counted failure: it continues the current burst or, a gap later, starts the next one. */
  lemma CountKeepsWithinBursts(limits: Limits, known: Option<Attempt>, counted: nat, from: Time, now: Time)
    requires limits.Valid() && WithinBursts(limits, known, counted, from)
    requires known.Some? ==> known.value.last <= now && !Locked(known.value, now)
    ensures WithinBursts(limits, Some(AfterFailure(limits, known, now)), counted + (if from <= now then 1 else 0), from)
  {
    var next := AfterFailure(limits, known, now);
    if from <= now {
      var total := counted + 1;
      if known.None? || known.value.last < from {
        assert CoveredBy(limits, next, total, from, 0);
      } else {
        var k: nat :| CoveredBy(limits, known.value, counted, from, k);
        if Expired(limits, known.value, now) {
          NextBurst(limits.maxFailures, Gap(limits), k, BurstStart(known.value, from), counted, now - from);
          assert CoveredBy(limits, next, total, from, k + 1);
        } else {
          assert CoveredBy(limits, next, total, from, k);
        }
      }
    }
  }

  lemma {:induction false} CountingStaysWithinBursts(limits: Limits, events: seq<Event>, key: string, from: Time, until: Time)
    requires limits.Valid() && Ordered(events)
    requires forall i | 0 <= i < |events| :: events[i].op != Reset(key) && events[i].now <= until
    ensures WithinBursts(limits, History(limits, events, key), Counted(limits, events, key, from, until), from)
    decreases |events|
  {
    if events != [] {
      var last := |events| - 1;
      var earlier, event := events[..last], events[last];
      CountingStaysWithinBursts(limits, earlier, key, from, until);
      HistoryIsSound(limits, earlier, key, event.now);
      var known := History(limits, earlier, key);
      if Counts(limits, known, event, key) {
        CountKeepsWithinBursts(limits, known, Counted(limits, earlier, key, from, until), from, event.now);
      }
    }
  }

  lemma FactorIsSmall(gap: int, factor: int)
    requires gap > 0 && gap * factor < gap
    ensures factor <= 0
  {
  }

  lemma BurstsFit(max: int, gap: int, k: nat, counted: int, span: nat)
    requires max >= 1 && gap > 0 && k * gap <= span && counted <= max * k + max
    ensures counted <= max * (1 + span / gap)
  {
    var spans := span / gap;
    assert span == gap * spans + span % gap;
    assert gap * (k - spans) < gap;
    FactorIsSmall(gap, k - spans);
    assert max * k <= max * spans;
  }

  /**
   The throttle bound: without a reset, the failures counted for one key in any interval are at
   most `maxFailures` for each started span of min(window, lockout).
   */
  lemma {:induction false} CountedFailuresAreBounded(limits: Limits, events: seq<Event>, key: string, from: Time, until: Time)
    requires limits.Valid() && Ordered(events) && from <= until
    requires forall i | 0 <= i < |events| :: events[i].op != Reset(key)
    ensures Counted(limits, events, key, from, until) <= limits.maxFailures * (1 + (until - from) / Gap(limits))
    decreases |events|
  {
    if events != [] && events[|events| - 1].now > until {
      CountedFailuresAreBounded(limits, events[..|events| - 1], key, from, until);
    } else {
      CountingStaysWithinBursts(limits, events, key, from, until);
      HistoryIsSound(limits, events, key, until);
      var known, counted := History(limits, events, key), Counted(limits, events, key, from, until);
      if known.Some? && known.value.last >= from {
        var k: nat :| CoveredBy(limits, known.value, counted, from, k);
        BurstsFit(limits.maxFailures, Gap(limits), k, counted, until - from);
      } else {
        BurstsFit(limits.maxFailures, Gap(limits), 0, counted, until - from);
      }
    }
  }
}
