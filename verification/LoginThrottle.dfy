/**
 The login throttle: what one client key's history means, the in-memory store, the SQLite
 store, and the relations between the three.

 Clocks are integers counting microseconds. SHA-256 of a client key is the injective
 constructor `Digest`. Rows carry one `last` instant because `updated_at` is always written
 together with, and equal to, `last_failed_at`.
 */
module LoginThrottle {
  import opened Common

  type Time = int

  datatype Limits = Limits(windowSeconds: int, maxFailures: int, lockoutSeconds: int, maxKeys: int) {
    predicate Valid() {
      windowSeconds >= 1 && maxFailures >= 1 && lockoutSeconds >= 1 && maxKeys >= 1
    }

    function Window(): int {
      windowSeconds * SECOND
    }

    function Lockout(): int {
      lockoutSeconds * SECOND
    }
  }

  datatype Attempt = Attempt(count: nat, first: Time, last: Time, lockedUntil: Option<Time>)

  predicate Expired(limits: Limits, attempt: Attempt, now: Time) {
    match attempt.lockedUntil
    case Some(until) => until <= now
    case None => attempt.last + limits.Window() <= now
  }

  predicate Locked(attempt: Attempt, now: Time) {
    attempt.lockedUntil.Some? && attempt.lockedUntil.value > now
  }

  function Live(limits: Limits, attempt: Option<Attempt>, now: Time): Option<Attempt> {
    if attempt.Some? && !Expired(limits, attempt.value, now) then attempt else None
  }

  function Find<K, V>(entries: map<K, V>, key: K): Option<V> {
    if key in entries then Some(entries[key]) else None
  }

  /** What one failure makes of a key's previous attempts. */
  function AfterFailure(limits: Limits, existing: Option<Attempt>, now: Time): Attempt {
    match Live(limits, existing, now)
    case None => Attempt(1, now, now, if limits.maxFailures <= 1 then Some(now + limits.Lockout()) else None)
    case Some(live) =>
      if Locked(live, now) then live
      else
        var count := live.count + 1;
        Attempt(count, live.first, now, if count >= limits.maxFailures then Some(now + limits.Lockout()) else None)
  }

  /** Attempts that count no longer: their lock is over, or without a lock the last is a window old. */
  predicate IsOver(limits: Limits, attempt: Attempt, now: Time) {
    if attempt.lockedUntil.Some? then attempt.lockedUntil.value <= now
    else attempt.last + limits.windowSeconds * 1_000_000 <= now
  }

  /** One more failure: ignored under a lock, the first one again if what there was is over, otherwise counted; the last allowed one locks. */
  lemma FailureInFields(limits: Limits, existing: Option<Attempt>, now: Time)
    requires limits.Valid()
    ensures
      var after, known := AfterFailure(limits, existing, now), existing.Some? && !IsOver(limits, existing.value, now);
      if known && existing.value.lockedUntil.Some? then after == existing.value
      else
        && after.count == (if known then existing.value.count + 1 else 1)
        && after.first == (if known then existing.value.first else now) && after.last == now
        && after.lockedUntil ==
             if limits.maxFailures <= after.count then Some(now + limits.lockoutSeconds * 1_000_000) else None
  {
  }

  /******* Operations and what they show *******/

  /** `Prune` is the second half of a failure in the SQLite store, a transaction of its own. */
  datatype Operation =
    | Fail(key: string) | IsLocked(key: string) | SecondsUntilUnlock(key: string)
    | FailureCount(key: string) | Reset(key: string) | Purge | Prune

  /** A failure or a query of one key. */
  predicate Shows(op: Operation) {
    op.Fail? || IsQuery(op)
  }

  datatype Observation = Recorded(attempt: Attempt) | Answer(yes: bool) | Number(value: int)

  datatype Event = Event(op: Operation, now: Time)

  function CeilSeconds(ticks: int): int {
    (ticks + SECOND - 1) / SECOND
  }

  /** What a query shows of a key whose attempts are `attempt`. */
  function Shown(limits: Limits, attempt: Option<Attempt>, op: Operation, now: Time): Observation
    requires Shows(op)
  {
    match op
    case Fail(_) => Recorded(AfterFailure(limits, attempt, now))
    case IsLocked(_) => Answer(attempt.Some? && Locked(attempt.value, now))
    case SecondsUntilUnlock(_) =>
      Number(if attempt.Some? && Locked(attempt.value, now)
             then CeilSeconds(attempt.value.lockedUntil.value - now) else 0)
    case FailureCount(_) =>
      Number(if Live(limits, attempt, now).Some? then Live(limits, attempt, now).value.count else 0)
  }

  /**
   The countdown of a locked key is exact to the second: a second before its end the key still is
   locked, and at its end it is not.
   */
  lemma CountdownIsExact(limits: Limits, attempt: Attempt, key: string, now: Time)
    ensures
      var seconds := Shown(limits, Some(attempt), SecondsUntilUnlock(key), now).value;
      if attempt.lockedUntil.Some? && now < attempt.lockedUntil.value then
        && 1 <= seconds
        && now + (seconds - 1) * SECOND < attempt.lockedUntil.value <= now + seconds * SECOND
        && Shown(limits, Some(attempt), IsLocked(key), now + (seconds - 1) * SECOND) == Answer(true)
        && Shown(limits, Some(attempt), IsLocked(key), now + seconds * SECOND) == Answer(false)
      else seconds == 0
  {
  }

  /** Dropping entries oldest first: `after` is `before` without `count` oldest `removable` keys. */
  ghost predicate DropsOldest<K(!new)>(before: map<K, Attempt>, after: map<K, Attempt>, removable: set<K>, count: nat) {
    && after.Keys <= before.Keys
    && (forall k | k in after :: after[k] == before[k])
    && before.Keys - after.Keys <= removable
    && |before.Keys - after.Keys| == count
    && (forall gone, kept | gone in before.Keys - after.Keys && kept in removable && kept in after ::
          before[gone].last <= before[kept].last)
  }

  function Excess(size: int, limit: int): nat {
    if size > limit then size - limit else 0
  }

  function LiveEntries<K>(limits: Limits, entries: map<K, Attempt>, now: Time): map<K, Attempt> {
    map k | k in entries && !Expired(limits, entries[k], now) :: entries[k]
  }

  function Unlocked<K>(entries: map<K, Attempt>, now: Time): set<K> {
    set k | k in entries && !Locked(entries[k], now)
  }

  function Minimum(a: int, b: int): int {
    if a < b then a else b
  }

  /** A query clears up when it meets an entry that is over; the countdown looks at locks only. */
  predicate ClearsUp(limits: Limits, attempt: Attempt, op: Operation, now: Time) {
    if op.SecondsUntilUnlock? then attempt.lockedUntil.Some? && !Locked(attempt, now) else Expired(limits, attempt, now)
  }

  predicate IsQuery(op: Operation) {
    op.IsLocked? || op.SecondsUntilUnlock? || op.FailureCount?
  }

  type Memory = map<string, Attempt>

  predicate MemoryQuery(limits: Limits, before: Memory, event: Event, after: Memory, shown: Observation)
    requires IsQuery(event.op)
  {
    var key := event.op.key;
    && shown == Shown(limits, Find(before, key), event.op, event.now)
    && after == if key in before && ClearsUp(limits, before[key], event.op, event.now) then before - {key} else before
  }

  /** The in-memory store drops only the queried key when it has expired, and evicts any oldest key. */
  ghost predicate MemoryStep(limits: Limits, before: Memory, event: Event, after: Memory, shown: Observation) {
    var now := event.now;
    match event.op
    case Fail(key) =>
      var recorded := AfterFailure(limits, Find(before, key), now);
      var stored := before[key := recorded];
      shown == Recorded(recorded) && DropsOldest(stored, after, stored.Keys, Excess(|stored|, limits.maxKeys))
    case IsLocked(key) => MemoryQuery(limits, before, event, after, shown)
    case SecondsUntilUnlock(key) => MemoryQuery(limits, before, event, after, shown)
    case FailureCount(key) => MemoryQuery(limits, before, event, after, shown)
    case Reset(key) => shown == Answer(key in before) && after == before - {key}
    case Purge =>
      && after == LiveEntries(limits, before, now)
      && shown == Number(|before| - |after|)
    case Prune => after == before && shown == Number(0)
  }

  /******* The order in which the in-memory store evicts *******/

  /** The dictionary of the in-memory store, which remembers the order in which its keys were inserted. */
  datatype Store = Store(records: Memory, order: seq<string>)

  ghost predicate Listed(store: Store) {
    && (forall key :: key in store.order <==> key in store.records)
    && (forall i, j | 0 <= i < j < |store.order| :: store.order[i] != store.order[j])
  }

  ghost predicate Precedes(order: seq<string>, a: string, b: string) {
    exists i, j | 0 <= i < j < |order| :: order[i] == a && order[j] == b
  }

  function Placed(order: seq<string>, key: string): seq<string> {
    if key in order then order else order + [key]
  }

  /** The order without the keys that are gone. */
  function Remaining(order: seq<string>, records: Memory): seq<string> {
    if order == [] then []
    else (if order[0] in records then [order[0]] else []) + Remaining(order[1..], records)
  }

  /** `a` is evicted before `b`: it failed longer ago, or at the same time and was inserted first. */
  ghost predicate Older(store: Store, a: string, b: string)
    requires a in store.records && b in store.records
  {
    || store.records[a].last < store.records[b].last
    || (store.records[a].last == store.records[b].last && Precedes(store.order, a, b))
  }

  ghost predicate EvictsOldest(before: Store, after: Memory) {
    forall gone, kept | gone in before.records && gone !in after && kept in after && kept in before.records ::
      Older(before, gone, kept)
  }

  /** What the failure makes of the dictionary, before any eviction. */
  function WithFailure(limits: Limits, before: Store, key: string, now: Time): Store {
    Store(before.records[key := AfterFailure(limits, Find(before.records, key), now)], Placed(before.order, key))
  }

  /** The step of the dictionary: that of its entries, with the order kept and ties broken by it. */
  ghost predicate StoreStep(limits: Limits, before: Store, event: Event, after: Store, shown: Observation) {
    var written := if event.op.Fail? then WithFailure(limits, before, event.op.key, event.now) else before;
    && MemoryStep(limits, before.records, event, after.records, shown)
    && after.order == Remaining(written.order, after.records)
    && (event.op.Fail? ==> EvictsOldest(written, after.records))
  }

  lemma {:induction false} RemainingIsPart(order: seq<string>, records: Memory)
    ensures forall key :: key in Remaining(order, records) <==> key in order && key in records
    decreases |order|
  {
    if order != [] {
      RemainingIsPart(order[1..], records);
      assert order == [order[0]] + order[1..];
    }
  }

  lemma {:induction false} RemainingKeepsOrder(order: seq<string>, records: Memory, i: nat, j: nat) returns (m: nat, n: nat)
    requires i < j < |Remaining(order, records)|
    ensures m < n < |order| && order[m] == Remaining(order, records)[i] && order[n] == Remaining(order, records)[j]
    decreases |order|
  {
    var head, rest := if order[0] in records then [order[0]] else [], Remaining(order[1..], records);
    if i < |head| {
      m := 0;
      RemainingIsPart(order[1..], records);
      assert rest[j - 1] in rest && rest[j - 1] in order[1..];
      n :| 0 < n < |order| && order[n] == rest[j - 1];
    } else {
      m, n := RemainingKeepsOrder(order[1..], records, i - |head|, j - |head|);
      m, n := m + 1, n + 1;
    }
  }

  lemma RemainingPrecedes(order: seq<string>, records: Memory, a: string, b: string)
    requires Precedes(Remaining(order, records), a, b)
    ensures Precedes(order, a, b)
  {
    var i, j :| 0 <= i < j < |Remaining(order, records)| && Remaining(order, records)[i] == a && Remaining(order, records)[j] == b;
    var m, n := RemainingKeepsOrder(order, records, i, j);
  }

  lemma {:induction false} RemainingTwice(order: seq<string>, some: Memory, fewer: Memory)
    requires fewer.Keys <= some.Keys
    ensures Remaining(Remaining(order, some), fewer) == Remaining(order, fewer)
    decreases |order|
  {
    if order != [] {
      RemainingTwice(order[1..], some, fewer);
      var rest := Remaining(order[1..], some);
      assert ([order[0]] + rest)[1..] == rest;
      assert [] + rest == rest;
    }
  }

  lemma {:induction false} RemainingIsAll(order: seq<string>, records: Memory)
    requires forall key | key in order :: key in records
    ensures Remaining(order, records) == order
    decreases |order|
  {
    if order != [] { RemainingIsAll(order[1..], records); }
  }

  lemma {:induction false} RemainingIsOnce(order: seq<string>, records: Memory)
    requires forall i, j | 0 <= i < j < |order| :: order[i] != order[j]
    ensures
      var rest := Remaining(order, records);
      forall i, j | 0 <= i < j < |rest| :: rest[i] != rest[j]
  {
    var rest := Remaining(order, records);
    forall i, j | 0 <= i < j < |rest|
      ensures rest[i] != rest[j]
    {
      var m, n := RemainingKeepsOrder(order, records, i, j);
    }
  }

  /** Removing entries keeps the dictionary listed. */
  lemma RemainingIsListed(before: Store, fewer: Memory)
    requires Listed(before) && fewer.Keys <= before.records.Keys
    ensures Listed(Store(fewer, Remaining(before.order, fewer)))
  {
    RemainingIsPart(before.order, fewer);
    RemainingIsOnce(before.order, fewer);
  }

  // SHA-256 of a normalized client key.
  datatype Digest = Digest(key: string)

  type Table = map<Digest, Attempt>

  predicate TableQuery(limits: Limits, before: Table, event: Event, after: Table, shown: Observation)
    requires IsQuery(event.op)
  {
    var digest := Digest(event.op.key);
    && shown == Shown(limits, Find(before, digest), event.op, event.now)
    && after == if digest in before && ClearsUp(limits, before[digest], event.op, event.now)
                then LiveEntries(limits, before, event.now) else before
  }

  /** The SQLite store drops every expired row on such a query, and prunes unlocked rows only, behind the failure. */
  ghost predicate TableStep(limits: Limits, before: Table, event: Event, after: Table, shown: Observation) {
    var now := event.now;
    match event.op
    case Fail(key) =>
      var recorded := AfterFailure(limits, Find(before, Digest(key)), now);
      shown == Recorded(recorded) && after == before[Digest(key) := recorded]
    case IsLocked(key) => TableQuery(limits, before, event, after, shown)
    case SecondsUntilUnlock(key) => TableQuery(limits, before, event, after, shown)
    case FailureCount(key) => TableQuery(limits, before, event, after, shown)
    case Reset(key) => shown == Answer(Digest(key) in before) && after == before - {Digest(key)}
    case Purge =>
      && after == LiveEntries(limits, before, now)
      && shown == Number(|before| - |after|)
    case Prune =>
      var removable := Unlocked(before, now);
      && DropsOldest(before, after, removable, Minimum(Excess(|before|, limits.maxKeys), |removable|))
      && shown == Number(|before| - |after|)
  }

  /******* The stores *******/

  predicate IsSpace(c: char) {
    || c == ' ' || '\t' <= c <= '\r' || '\U{1c}' <= c <= '\U{1f}' || c == '\U{85}' || c == '\U{a0}'
    || c == '\U{1680}' || '\U{2000}' <= c <= '\U{200a}' || c == '\U{2028}' || c == '\U{2029}' || c == '\U{202f}'
    || c == '\U{205f}' || c == '\U{3000}'
  }

  function Strip(text: string): string {
    if text != "" && IsSpace(text[0]) then Strip(text[1..])
    else if text != "" && IsSpace(text[|text| - 1]) then Strip(text[..|text| - 1])
    else text
  }

  lemma FirstIsTrimmed(text: string, from: nat, to: nat)
    requires text != "" && IsSpace(text[0]) && from <= to < |text|
    requires forall i | 0 <= i < from || to <= i < |text| - 1 :: IsSpace(text[1..][i])
    ensures text[1..][from..to] == text[from + 1..to + 1]
    ensures forall i | 0 <= i < from + 1 || to + 1 <= i < |text| :: IsSpace(text[i])
  {
    forall i | 0 <= i < from + 1 || to + 1 <= i < |text|
      ensures IsSpace(text[i])
    {
      if i > 0 { assert text[i] == text[1..][i - 1]; }
    }
  }

  /** A key is stripped of the spaces around it and of nothing else. */
  lemma {:induction false} StripTrims(text: string) returns (from: nat, to: nat)
    ensures from <= to <= |text| && Strip(text) == text[from..to]
    ensures forall i | 0 <= i < from || to <= i < |text| :: IsSpace(text[i])
    ensures from < to ==> !IsSpace(text[from]) && !IsSpace(text[to - 1])
    decreases |text|
  {
    if text != "" && IsSpace(text[0]) {
      from, to := StripTrims(text[1..]);
      FirstIsTrimmed(text, from, to);
      from, to := from + 1, to + 1;
    } else if text != "" && IsSpace(text[|text| - 1]) {
      from, to := StripTrims(text[..|text| - 1]);
    } else {
      from, to := 0, |text|;
    }
  }

  function ClientKey(raw: string): string {
    if Strip(raw) == "" then "unknown" else Strip(raw)
  }

  lemma {:induction false} OldestExists<K(!new)>(entries: map<K, Attempt>, keys: set<K>)
    requires keys != {} && keys <= entries.Keys
    ensures exists k :: k in keys && forall other | other in keys :: entries[k].last <= entries[other].last
    decreases |keys|
  {
    var candidate :| candidate in keys;
    var rest := keys - {candidate};
    if rest == {} {
      assert keys == rest + {candidate};
    } else {
      OldestExists(entries, rest);
      var k :| k in rest && forall other | other in rest :: entries[k].last <= entries[other].last;
      var oldest := if entries[candidate].last < entries[k].last then candidate else k;
      assert forall other | other in keys :: other == candidate || other in rest;
      assert oldest in keys && forall other | other in keys :: entries[oldest].last <= entries[other].last;
    }
  }

  /** One more oldest entry may go. */
  lemma DropOneMore<K(!new)>(before: map<K, Attempt>, after: map<K, Attempt>, removable: set<K>, count: nat, oldest: K)
    requires DropsOldest(before, after, removable, count)
    requires oldest in after && oldest in removable
    requires forall other | other in removable && other in after :: before[oldest].last <= before[other].last
    ensures DropsOldest(before, after - {oldest}, removable, count + 1)
  {
    var gone := before.Keys - after.Keys;
    assert before.Keys - (after - {oldest}).Keys == gone + {oldest};
  }

  /** One more entry goes, older than all that stay. */
  lemma EvictOneMore(before: Store, store: Store, oldest: string)
    requires store.records.Keys <= before.records.Keys && store.order == Remaining(before.order, store.records)
    requires forall key | key in store.records :: store.records[key] == before.records[key]
    requires EvictsOldest(before, store.records) && oldest in store.records
    requires forall other | other in store.records && other != oldest :: Older(store, oldest, other)
    ensures EvictsOldest(before, store.records - {oldest})
    ensures Remaining(store.order, store.records - {oldest}) == Remaining(before.order, store.records - {oldest})
  {
    RemainingTwice(before.order, store.records, store.records - {oldest});
    forall gone, kept
      | gone in before.records && gone !in store.records - {oldest} && kept in store.records - {oldest} && kept in before.records
      ensures Older(before, gone, kept)
    {
      if gone == oldest && Precedes(store.order, oldest, kept) {
        RemainingPrecedes(before.order, store.records, oldest, kept);
      }
    }
  }

  /** What `dropped` evictions have made of a dictionary. */
  ghost predicate Evicted(before: Store, store: Store, dropped: nat) {
    && Listed(store) && store.order == Remaining(before.order, store.records)
    && EvictsOldest(before, store.records)
    && DropsOldest(before.records, store.records, before.records.Keys, dropped)
    && |store.records| == |before.records| - dropped
  }

  lemma NoneEvicted(store: Store)
    requires Listed(store)
    ensures Evicted(store, store, 0)
  {
    assert store.records.Keys - store.records.Keys == {};
    RemainingIsAll(store.order, store.records);
  }

  lemma OneMoreEvicted(before: Store, store: Store, dropped: nat, oldest: string)
    requires Evicted(before, store, dropped) && oldest in store.records
    requires forall other | other in store.records && other != oldest :: Older(store, oldest, other)
    ensures
      var fewer := store.records - {oldest};
      Evicted(before, Store(fewer, Remaining(store.order, fewer)), dropped + 1)
  {
    DropOneMore(before.records, store.records, before.records.Keys, dropped, oldest);
    EvictOneMore(before, store, oldest);
    RemainingIsListed(store, store.records - {oldest});
    assert (store.records - {oldest}).Keys == store.records.Keys - {oldest};
  }

  lemma SomeKeyIsListed(store: Store)
    requires Listed(store) && |store.records| > 0
    ensures store.order != []
  {
    var key :| key in store.records;
  }

  lemma LiveIsRest(limits: Limits, records: Memory, expired: set<string>, now: Time)
    requires expired == set k | k in records && Expired(limits, records[k], now)
    ensures records - expired == LiveEntries(limits, records, now)
  {
  }

  /** Whole seconds until a later instant, rounded up. */
  method SecondsLeft(until: Time, now: Time) returns (seconds: int)
    requires now < until
    ensures seconds == CeilSeconds(until - now)
  {
    seconds := CeilSeconds(until - now);
    if seconds < 0 {
      seconds := 0;
    }
  }

  /** A query that meets nothing to clear up. */
  lemma QueryStays(limits: Limits, store: Store, event: Event)
    requires IsQuery(event.op) && Remaining(store.order, store.records) == store.order
    requires event.op.key in store.records ==> !ClearsUp(limits, store.records[event.op.key], event.op, event.now)
    ensures StoreStep(limits, store, event, store, Shown(limits, Find(store.records, event.op.key), event.op, event.now))
  {
  }

  lemma QueryClears(limits: Limits, store: Store, event: Event, fewer: Memory)
    requires IsQuery(event.op) && event.op.key in store.records && fewer == store.records - {event.op.key}
    requires ClearsUp(limits, store.records[event.op.key], event.op, event.now)
    ensures StoreStep(limits, store, event, Store(fewer, Remaining(store.order, fewer)),
                      Shown(limits, Find(store.records, event.op.key), event.op, event.now))
  {
  }

  lemma CountdownShows(limits: Limits, attempt: Option<Attempt>, key: string, now: Time)
    ensures Shown(limits, attempt, SecondsUntilUnlock(key), now) ==
      Number(if attempt.Some? && Locked(attempt.value, now) then CeilSeconds(attempt.value.lockedUntil.value - now) else 0)
  {
  }

  /** The step of a query, as its key's entry decides it. */
  lemma QuerySteps(limits: Limits, store: Store, event: Event)
    requires IsQuery(event.op) && Listed(store)
    ensures
      var key, fewer := event.op.key, store.records - {event.op.key};
      var shown := Shown(limits, Find(store.records, key), event.op, event.now);
      if key in store.records && ClearsUp(limits, store.records[key], event.op, event.now)
      then StoreStep(limits, store, event, Store(fewer, Remaining(store.order, fewer)), shown)
      else StoreStep(limits, store, event, store, shown)
  {
    RemainingIsAll(store.order, store.records);
    if event.op.key in store.records && ClearsUp(limits, store.records[event.op.key], event.op, event.now) {
      QueryClears(limits, store, event, store.records - {event.op.key});
    } else {
      QueryStays(limits, store, event);
    }
  }

  class LoginAttemptStore {
    const limits: Limits
    var records: Memory
    /** The keys of the dictionary in the order in which it yields them. */
    var order: seq<string>

    function Value(): Store
      reads this
    {
      Store(records, order)
    }

    constructor (windowSeconds: int, maxFailures: int, lockoutSeconds: int, maxKeys: int)
      ensures limits.Valid() && Value() == Store(map[], [])
    {
      limits := Limits(
        if windowSeconds < 1 then 1 else windowSeconds, if maxFailures < 1 then 1 else maxFailures,
        if lockoutSeconds < 1 then 1 else lockoutSeconds, if maxKeys < 1 then 1 else maxKeys);
      records, order := map[], [];
    }

    method RecordFailure(clientKey: string, now: Time) returns (record: Attempt)
      requires limits.Valid() && Listed(Value())
      modifies this
      ensures Listed(Value())
      ensures StoreStep(limits, old(Value()), Event(Fail(ClientKey(clientKey)), now), Value(), Recorded(record))
    {
      var key := ClientKey(clientKey);
      record := NextAttempt(key, now);
      records := records[key := record];
      order := Placed(order, key);
      EvictOldestKeys();
    }

    method NextAttempt(key: string, now: Time) returns (record: Attempt)
      ensures record == AfterFailure(limits, Find(records, key), now)
    {
      if key !in records || Expired(limits, records[key], now) {
        var lockedUntil := None;
        if limits.maxFailures <= 1 {
          lockedUntil := Some(now + limits.Lockout());
        }
        record := Attempt(1, now, now, lockedUntil);
      } else if Locked(records[key], now) {
        record := records[key];
      } else {
        var failureCount := records[key].count + 1;
        var lockedUntil := None;
        if failureCount >= limits.maxFailures {
          lockedUntil := Some(now + limits.Lockout());
        }
        record := Attempt(failureCount, records[key].first, now, lockedUntil);
      }
    }

    /** The first of the keys, in their order, whose entry is least recent. */
    method OldestKey() returns (oldest: string)
      requires Listed(Value()) && order != []
      ensures oldest in records && forall other | other in records && other != oldest :: Older(Value(), oldest, other)
    {
      oldest := order[0];
      ghost var at := 0;
      for i := 1 to |order|
        invariant at < i && order[at] == oldest && oldest in records
        invariant forall j | 0 <= j < at :: records[oldest].last < records[order[j]].last
        invariant forall j | at <= j < i :: records[oldest].last <= records[order[j]].last
      {
        if records[order[i]].last < records[oldest].last {
          oldest, at := order[i], i;
        }
      }
      forall other | other in records && other != oldest
        ensures Older(Value(), oldest, other)
      {
        var j :| 0 <= j < |order| && order[j] == other;
        if at < j { assert Precedes(order, oldest, other); }
      }
    }

    /** Removes one key. */
    method Pop(key: string)
      requires Listed(Value())
      modifies this
      ensures Listed(Value()) && Value() == Store(old(records) - {key}, Remaining(old(order), old(records) - {key}))
    {
      RemainingIsListed(Value(), records - {key});
      records := records - {key};
      order := Remaining(order, records);
    }

    method EvictOldestKeys()
      requires limits.Valid() && Listed(Value())
      modifies this
      ensures Evicted(old(Value()), Value(), Excess(|old(records)|, limits.maxKeys))
    {
      ghost var dropped := 0;
      NoneEvicted(Value());
      while |records| > limits.maxKeys
        invariant Evicted(old(Value()), Value(), dropped)
        invariant dropped <= Excess(|old(records)|, limits.maxKeys)
      {
        SomeKeyIsListed(Value());
        var oldest := OldestKey();
        OneMoreEvicted(old(Value()), Value(), dropped, oldest);
        Pop(oldest);
        dropped := dropped + 1;
      }
    }

    method IsLocked(clientKey: string, now: Time) returns (locked: bool)
      requires Listed(Value())
      modifies this
      ensures Listed(Value())
      ensures StoreStep(limits, old(Value()), Event(Operation.IsLocked(ClientKey(clientKey)), now), Value(), Answer(locked))
    {
      var key := ClientKey(clientKey);
      QuerySteps(limits, Value(), Event(Operation.IsLocked(key), now));
      if key !in records {
        return false;
      }
      var record := records[key];
      if record.lockedUntil.None? {
        if Expired(limits, record, now) {
          Pop(key);
        }
        return false;
      }
      if record.lockedUntil.value <= now {
        Pop(key);
        return false;
      }
      return true;
    }

    method SecondsUntilUnlock(clientKey: string, now: Time) returns (seconds: int)
      requires Listed(Value())
      modifies this
      ensures Listed(Value())
      ensures StoreStep(limits, old(Value()), Event(Operation.SecondsUntilUnlock(ClientKey(clientKey)), now), Value(), Number(seconds))
    {
      var key := ClientKey(clientKey);
      ghost var store, event := Value(), Event(Operation.SecondsUntilUnlock(key), now);
      QuerySteps(limits, store, event);
      CountdownShows(limits, Find(records, key), key, now);
      seconds := 0;
      if key in records && records[key].lockedUntil.Some? {
        var until := records[key].lockedUntil.value;
        if until <= now {
          Pop(key);
        } else {
          seconds := SecondsLeft(until, now);
        }
      }
      assert StoreStep(limits, store, event, Value(), Number(seconds));
    }

    method FailureCount(clientKey: string, now: Time) returns (count: int)
      requires Listed(Value())
      modifies this
      ensures Listed(Value())
      ensures StoreStep(limits, old(Value()), Event(Operation.FailureCount(ClientKey(clientKey)), now), Value(), Number(count))
    {
      var key := ClientKey(clientKey);
      QuerySteps(limits, Value(), Event(Operation.FailureCount(key), now));
      if key !in records {
        return 0;
      }
      if Expired(limits, records[key], now) {
        Pop(key);
        return 0;
      }
      return records[key].count;
    }

    method ResetSuccess(clientKey: string, now: Time) returns (removed: bool)
      requires Listed(Value())
      modifies this
      ensures Listed(Value())
      ensures StoreStep(limits, old(Value()), Event(Reset(ClientKey(clientKey)), now), Value(), Answer(removed))
    {
      removed := ClientKey(clientKey) in records;
      Pop(ClientKey(clientKey));
    }

    method PurgeExpired(now: Time) returns (removed: int)
      requires Listed(Value())
      modifies this
      ensures Listed(Value())
      ensures StoreStep(limits, old(Value()), Event(Purge, now), Value(), Number(removed))
    {
      var expired := set k | k in records && Expired(limits, records[k], now);
      RemainingIsListed(Value(), records - expired);
      LiveIsRest(limits, records, expired, now);
      removed := |records|;
      records := records - expired;
      order := Remaining(order, records);
      removed := removed - |records|;
    }
  }

  class SQLiteLoginAttemptStore {
    const limits: Limits
    var rows: Table

    constructor (windowSeconds: int, maxFailures: int, lockoutSeconds: int, maxKeys: int)
      ensures limits.Valid() && rows == map[]
    {
      limits := Limits(
        if windowSeconds < 1 then 1 else windowSeconds, if maxFailures < 1 then 1 else maxFailures,
        if lockoutSeconds < 1 then 1 else lockoutSeconds, if maxKeys < 1 then 1 else maxKeys);
      rows := map[];
    }

    method RecordFailure(clientKey: string, now: Time) returns (record: Attempt)
      requires limits.Valid()
      modifies this
      ensures
        var recorded := old(rows)[Digest(ClientKey(clientKey)) := record];
        && TableStep(limits, old(rows), Event(Fail(ClientKey(clientKey)), now), recorded, Recorded(record))
        && TableStep(limits, recorded, Event(Prune, now), rows, Number(|recorded| - |rows|))
    {
      var digest := Digest(ClientKey(clientKey));
      record := RecordLoginFailure(digest, now);
      PruneLoginAttempts(now);
    }

    method RecordLoginFailure(digest: Digest, now: Time) returns (record: Attempt)
      modifies this
      ensures record == AfterFailure(limits, Find(old(rows), digest), now)
      ensures rows == old(rows)[digest := record]
    {
      var failureCount, first := 1, now;
      if digest !in rows || Expired(limits, rows[digest], now) {
      } else if Locked(rows[digest], now) {
        return rows[digest];
      } else {
        failureCount, first := rows[digest].count + 1, rows[digest].first;
      }
      var lockedUntil := if failureCount >= limits.maxFailures then Some(now + limits.Lockout()) else None;
      record := Attempt(failureCount, first, now, lockedUntil);
      rows := rows[digest := record];
    }

    // Deletes the rows that `ORDER BY updated_at LIMIT excess` selects among the unlocked ones.
    method PruneLoginAttempts(now: Time)
      requires limits.Valid()
      modifies this
      ensures var removable := Unlocked(old(rows), now);
              DropsOldest(old(rows), rows, removable, Minimum(Excess(|old(rows)|, limits.maxKeys), |removable|))
    {
      assert rows.Keys - rows.Keys == {};
      if |rows| <= limits.maxKeys {
        return;
      }
      var excess := |rows| - limits.maxKeys;
      var removable := Unlocked(rows, now);
      var candidates := removable;
      var deleted := 0;
      while deleted < excess && candidates != {}
        invariant DropsOldest(old(rows), rows, removable, deleted)
        invariant forall k :: k in candidates <==> k in removable && k in rows
        invariant |candidates| == |removable| - deleted
        invariant 0 <= deleted <= excess
      {
        OldestExists(rows, candidates);
        var oldest :| oldest in candidates && forall other | other in candidates :: rows[oldest].last <= rows[other].last;
        assert forall other | other in removable && other in rows :: other in candidates && old(rows)[other] == rows[other];
        DropOneMore(old(rows), rows, removable, deleted, oldest);
        rows := rows - {oldest};
        candidates := candidates - {oldest};
        deleted := deleted + 1;
      }
    }

    method CleanupLoginAttempts(now: Time) returns (removed: int)
      modifies this
      ensures rows == LiveEntries(limits, old(rows), now) && removed == |old(rows)| - |rows|
    {
      removed := |rows|;
      rows := map k | k in rows && !Expired(limits, rows[k], now) :: rows[k];
      removed := removed - |rows|;
    }

    method IsLocked(clientKey: string, now: Time) returns (locked: bool)
      modifies this
      ensures TableStep(limits, old(rows), Event(Operation.IsLocked(ClientKey(clientKey)), now), rows, Answer(locked))
    {
      var digest := Digest(ClientKey(clientKey));
      if digest !in rows {
        return false;
      }
      var record := rows[digest];
      if Expired(limits, record, now) {
        var _ := CleanupLoginAttempts(now);
        return false;
      }
      return record.lockedUntil.Some? && record.lockedUntil.value > now;
    }

    method SecondsUntilUnlock(clientKey: string, now: Time) returns (seconds: int)
      modifies this
      ensures TableStep(limits, old(rows), Event(Operation.SecondsUntilUnlock(ClientKey(clientKey)), now), rows, Number(seconds))
    {
      var digest := Digest(ClientKey(clientKey));
      if digest !in rows || rows[digest].lockedUntil.None? {
        return 0;
      }
      var until := rows[digest].lockedUntil.value;
      if until <= now {
        var _ := CleanupLoginAttempts(now);
        return 0;
      }
      seconds := SecondsLeft(until, now);
    }

    method FailureCount(clientKey: string, now: Time) returns (count: int)
      modifies this
      ensures TableStep(limits, old(rows), Event(Operation.FailureCount(ClientKey(clientKey)), now), rows, Number(count))
    {
      var digest := Digest(ClientKey(clientKey));
      if digest !in rows {
        return 0;
      }
      var record := rows[digest];
      if Expired(limits, record, now) {
        var _ := CleanupLoginAttempts(now);
        return 0;
      }
      return record.count;
    }

    method ResetSuccess(clientKey: string, now: Time) returns (removed: bool)
      modifies this
      ensures TableStep(limits, old(rows), Event(Reset(ClientKey(clientKey)), now), rows, Answer(removed))
    {
      removed := Digest(ClientKey(clientKey)) in rows;
      rows := rows - {Digest(ClientKey(clientKey))};
    }

    method PurgeExpired(now: Time) returns (removed: int)
      modifies this
      ensures TableStep(limits, old(rows), Event(Purge, now), rows, Number(removed))
    {
      removed := CleanupLoginAttempts(now);
    }
  }
}
