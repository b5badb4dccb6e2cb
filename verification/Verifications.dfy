/**
 Verification challenges of assets: starting, completing, revoking, and the query for assets whose
 latest verification needs attention. One organization; times are microseconds.

 An operation reads the clock as `now` before it takes the storage lock and again, as `read`, when
 it judges what has expired. Readings taken under the lock never decrease; `now` may lag behind.
 */
module Verifications {
  import opened Common
  import opened Keyset

  datatype Status = Pending | Verified | Failed | Expired | Revoked

  datatype Record = Record(
    id: string, asset: string, status: Status, challenge: string, created: int, challengeExpires: int,
    validDays: nat, verificationExpires: Option<int>)

  type Records = map<string, Record>

  const TIME_TO_LIVE := 900 * SECOND
  const MAX_STARTS_PER_HOUR := 5
  const MAX_ASSETS: nat := 500

  /** What a stored record means at `now`. */
  function Materialized(record: Record, now: int): Record {
    if (record.status.Pending? && record.challengeExpires <= now)
       || (record.status.Verified? && record.verificationExpires.Some? && record.verificationExpires.value <= now)
    then record.(status := Expired) else record
  }

  predicate IsPending(record: Record, now: int) {
    Materialized(record, now).status.Pending?
  }

  /******* Operations *******/

  function Recent(records: Records, asset: string, now: int): set<string> {
    set id | id in records && records[id].asset == asset && records[id].created > now - HOUR
  }

  function Supersede(record: Record, asset: string, read: int): Record {
    if record.asset == asset && IsPending(record, read) then record.(status := Revoked) else record
  }

  function Superseded(records: Records, asset: string, read: int): Records {
    map id | id in records :: Supersede(records[id], asset, read)
  }

  function NewRecord(id: string, asset: string, challenge: string, validDays: nat, now: int): Record {
    Record(id, asset, Pending, challenge, now, now + TIME_TO_LIVE, validDays, None)
  }

  function Completed(record: Record, matched: bool, assetExpires: int, now: int): Record {
    var expiry := now + record.validDays * DAY;
    if matched then record.(status := Verified, verificationExpires := Some(if assetExpires < expiry then assetExpires else expiry))
    else record.(status := Failed)
  }

  datatype Action =
    | Start(id: string, asset: string, challenge: string, validDays: nat)
    | SupersedeOnly(asset: string, ids: set<string>)
    | Complete(id: string, asset: string, challenge: string, matched: bool, assetExpires: int)
    | Revoke(id: string, asset: string)
    | DeleteAsset(asset: string)

  /** `SupersedeOnly` is a start cut short by a crash, with some of the older challenges revoked. */
  datatype Event = Event(now: int, read: int, action: Action)

  predicate Completes(records: Records, event: Event) {
    && event.action.Complete? && event.action.id in records && records[event.action.id].asset == event.action.asset
    && IsPending(records[event.action.id], event.read)
  }

  function Step(records: Records, event: Event): Records {
    match event.action
    case Start(id, asset, challenge, validDays) =>
      if |Recent(records, asset, event.now)| >= MAX_STARTS_PER_HOUR then records
      else Superseded(records, asset, event.read)[id := NewRecord(id, asset, challenge, validDays, event.now)]
    case SupersedeOnly(asset, ids) =>
      map id | id in records :: if id in ids then Supersede(records[id], asset, event.read) else records[id]
    case Complete(id, asset, challenge, matched, assetExpires) =>
      if Completes(records, event)
      then records[id := Completed(records[id], matched && records[id].challenge == challenge, assetExpires, event.now)]
      else records
    case Revoke(id, asset) =>
      if id in records && records[id].asset == asset && !records[id].status.Revoked?
      then records[id := records[id].(status := Revoked)] else records
    case DeleteAsset(asset) => map id | id in records && records[id].asset != asset :: records[id]
  }

  /******* What every step keeps *******/

  predicate OnePending(records: Records, now: int) {
    forall a, b | a in records && b in records && records[a].asset == records[b].asset
      && IsPending(records[a], now) && IsPending(records[b], now) :: a == b
  }

  function InHour(records: Records, asset: string, start: int): set<string> {
    set id | id in records && records[id].asset == asset && start <= records[id].created < start + HOUR
  }

  /** In any hour at most five challenges of an asset were started. */
  ghost predicate StartsAreLimited(records: Records) {
    forall asset, start :: |InHour(records, asset, start)| <= MAX_STARTS_PER_HOUR
  }

  /** Steps that start nothing keep the starts. */
  lemma FewerStartsAreLimited(before: Records, after: Records)
    requires StartsAreLimited(before)
    requires forall id | id in after ::
      id in before && after[id].asset == before[id].asset && after[id].created == before[id].created
    ensures StartsAreLimited(after)
  {
    forall asset, start
      ensures |InHour(after, asset, start)| <= MAX_STARTS_PER_HOUR
    {
      SubsetIsSmaller(InHour(after, asset, start), InHour(before, asset, start));
    }
  }

  /** A start is admitted only if every hour around it has room, whenever its clock reading was taken. */
  lemma StartKeepsLimit(before: Records, middle: Records, record: Record)
    requires StartsAreLimited(before) && record.id !in before && |Recent(before, record.asset, record.created)| < MAX_STARTS_PER_HOUR
    requires middle.Keys == before.Keys
    requires forall id | id in middle :: middle[id].asset == before[id].asset && middle[id].created == before[id].created
    ensures StartsAreLimited(middle[record.id := record])
  {
    var after := middle[record.id := record];
    forall asset, start
      ensures |InHour(after, asset, start)| <= MAX_STARTS_PER_HOUR
    {
      var others := InHour(after, asset, start) - {record.id};
      if record.id in InHour(after, asset, start) {
        SubsetIsSmaller(others, Recent(before, record.asset, record.created));
      } else {
        SubsetIsSmaller(others, InHour(before, asset, start));
      }
    }
  }

  /** Judging later never makes a second challenge pending. */
  lemma LaterIsExpired(records: Records, now: int, later: int)
    requires OnePending(records, now) && now <= later
    ensures OnePending(records, later)
  {
    forall a, b | a in records && b in records && records[a].asset == records[b].asset
      && IsPending(records[a], later) && IsPending(records[b], later)
      ensures a == b
    {
      assert IsPending(records[a], now) && IsPending(records[b], now);
    }
  }

  predicate FreshId(records: Records, event: Event) {
    event.action.Start? ==> event.action.id !in records
  }

  lemma StepKeepsOnePending(records: Records, event: Event)
    requires OnePending(records, event.read) && FreshId(records, event)
    ensures OnePending(Step(records, event), event.read)
  {
    var after := Step(records, event);
    forall a, b | a in after && b in after && after[a].asset == after[b].asset
      && IsPending(after[a], event.read) && IsPending(after[b], event.read)
      ensures a == b
    {
      if a in records && b in records { assert IsPending(records[a], event.read) && IsPending(records[b], event.read); }
    }
  }

  lemma StepKeepsLimit(records: Records, event: Event)
    requires StartsAreLimited(records) && FreshId(records, event)
    ensures StartsAreLimited(Step(records, event))
  {
    var after := Step(records, event);
    if event.action.Start? && after != records {
      StartKeepsLimit(records, Superseded(records, event.action.asset, event.read), after[event.action.id]);
    } else {
      FewerStartsAreLimited(records, after);
    }
  }

  /******* Whole runs *******/

  ghost predicate Next(states: seq<Records>, events: seq<Event>, i: nat)
    requires i < |events| && |states| == |events| + 1
  {
    FreshId(states[i], events[i]) && states[i + 1] == Step(states[i], events[i])
  }

  predicate NewIds(events: seq<Event>) {
    forall i, j | 0 <= i < j < |events| && events[i].action.Start? && events[j].action.Start? ::
      events[i].action.id != events[j].action.id
  }

  /** From an empty store, with readings under the lock that never decrease and identifiers that never repeat. */
  ghost predicate Run(states: seq<Records>, events: seq<Event>) {
    && |states| == |events| + 1 && states[0] == map[]
    && (forall i, j | 0 <= i <= j < |events| :: events[i].read <= events[j].read)
    && NewIds(events)
    && forall i | 0 <= i < |events| :: Next(states, events, i)
  }

  /** In every run an asset has at most one pending challenge, now and at any later moment. */
  lemma {:induction false} AtMostOnePending(states: seq<Records>, events: seq<Event>, n: nat, now: int)
    requires Run(states, events) && n <= |events|
    requires n > 0 ==> events[n - 1].read <= now
    ensures OnePending(states[n], now)
    decreases n
  {
    if n > 0 {
      AtMostOnePending(states, events, n - 1, events[n - 1].read);
      assert Next(states, events, n - 1);
      StepKeepsOnePending(states[n - 1], events[n - 1]);
      LaterIsExpired(states[n], events[n - 1].read, now);
    }
  }

  lemma {:induction false} RunsKeepLimit(states: seq<Records>, events: seq<Event>, n: nat)
    requires Run(states, events) && n <= |events|
    ensures StartsAreLimited(states[n])
    decreases n
  {
    if n > 0 {
      RunsKeepLimit(states, events, n - 1);
      assert Next(states, events, n - 1);
      StepKeepsLimit(states[n - 1], events[n - 1]);
    }
  }

  /** Of any six stored challenges of an asset two were started at least an hour apart. */
  lemma SixStartsSpanAnHour(states: seq<Records>, events: seq<Event>, n: nat, asset: string, six: set<string>, first: int)
    requires Run(states, events) && n <= |events|
    requires |six| == 6 && forall id | id in six :: id in states[n] && states[n][id].asset == asset && first <= states[n][id].created
    ensures exists id :: id in six && first + HOUR <= states[n][id].created
  {
    RunsKeepLimit(states, events, n);
    if forall id | id in six :: states[n][id].created < first + HOUR {
      SubsetIsSmaller(six, InHour(states[n], asset, first));
    }
  }

  /** A challenge that was settled is never pending again, and no other takes its identifier. */
  lemma {:induction false} SettledStaysSettled(states: seq<Records>, events: seq<Event>, m: nat, n: nat, id: string)
    requires Run(states, events) && m <= n <= |events|
    requires exists i :: 0 <= i < m && events[i].action.Start? && events[i].action.id == id
    requires id in states[m] ==> !states[m][id].status.Pending?
    ensures id in states[n] ==> !states[n][id].status.Pending?
    decreases n
  {
    if m < n {
      SettledStaysSettled(states, events, m, n - 1, id);
      assert Next(states, events, n - 1);
      var i :| 0 <= i < m && events[i].action.Start? && events[i].action.id == id;
      SettledStep(states[n - 1], events[n - 1], id);
    }
  }

  lemma SettledStep(records: Records, event: Event, id: string)
    requires id in records ==> !records[id].status.Pending?
    requires !(event.action.Start? && event.action.id == id)
    ensures id in Step(records, event) ==> !Step(records, event)[id].status.Pending?
  {
  }

  lemma {:induction false} StoredWasStarted(states: seq<Records>, events: seq<Event>, n: nat, id: string)
    requires Run(states, events) && n <= |events| && id in states[n]
    ensures exists i :: 0 <= i < n && events[i].action.Start? && events[i].action.id == id
    decreases n
  {
    assert n > 0;
    assert Next(states, events, n - 1);
    if id in states[n - 1] {
      StoredWasStarted(states, events, n - 1, id);
    } else {
      assert events[n - 1].action.Start? && events[n - 1].action.id == id;
    }
  }

  /** Over every run each challenge is completed at most once. */
  lemma CompletedOnce(states: seq<Records>, events: seq<Event>, i: nat, j: nat)
    requires Run(states, events) && i <= j < |events|
    requires Completes(states[i], events[i]) && Completes(states[j], events[j])
    requires events[i].action.id == events[j].action.id
    ensures i == j
  {
    var id := events[i].action.id;
    assert Next(states, events, i);
    if i < j {
      StoredWasStarted(states, events, i, id);
      var k :| 0 <= k < i && events[k].action.Start? && events[k].action.id == id;
      assert 0 <= k < i + 1;
      SettledStaysSettled(states, events, i + 1, j, id);
    }
  }

  /******* How long a challenge and a verification last *******/

  /** A stored record means what its status says, except that a time that is over makes it expired. */
  lemma MaterializedExactly(record: Record, now: int)
    ensures Materialized(record, now) == record.(status := Materialized(record, now).status)
    ensures Materialized(record, now).status.Pending? <==> record.status.Pending? && now < record.challengeExpires
    ensures Materialized(record, now).status.Verified? <==>
      record.status.Verified? && (record.verificationExpires.None? || now < record.verificationExpires.value)
    ensures Materialized(record, now).status.Failed? <==> record.status.Failed?
    ensures Materialized(record, now).status.Revoked? <==> record.status.Revoked?
  {
  }

  /** An event that puts an end to the challenge, whether pending or verified, or may settle it. */
  predicate Touches(event: Event, id: string) {
    (event.action.Revoke? || event.action.Complete?) && event.action.id == id
  }

  predicate Supersedes(event: Event, asset: string) {
    (event.action.Start? || event.action.SupersedeOnly?) && event.action.asset == asset
  }

  lemma StepKeepsVerified(records: Records, event: Event, id: string)
    requires id in records && records[id].status.Verified? && !(event.action.Start? && event.action.id == id)
    requires !(event.action.Revoke? && event.action.id == id)
    ensures id in Step(records, event) ==> Step(records, event)[id] == records[id]
  {
  }

  lemma StepAddsNoOther(records: Records, event: Event, id: string)
    requires id !in records && !(event.action.Start? && event.action.id == id)
    ensures id !in Step(records, event)
  {
  }

  lemma {:induction false} VerifiedStays(states: seq<Records>, events: seq<Event>, m: nat, n: nat, id: string)
    requires Run(states, events) && m <= n <= |events|
    requires id in states[m] && states[m][id].status.Verified?
    requires forall i {:trigger events[i]} | m <= i < n :: !(events[i].action.Revoke? && events[i].action.id == id)
    ensures id in states[n] ==> states[n][id] == states[m][id]
    decreases n
  {
    if m < n {
      VerifiedStays(states, events, m, n - 1, id);
      StoredWasStarted(states, events, m, id);
      var k :| 0 <= k < m && events[k].action.Start? && events[k].action.id == id;
      assert Next(states, events, n - 1);
      if id in states[n - 1] {
        StepKeepsVerified(states[n - 1], events[n - 1], id);
      } else {
        StepAddsNoOther(states[n - 1], events[n - 1], id);
      }
    }
  }

  /**
   Over every run: a challenge that was completed with a match counts as verified, for as long as it
   is kept and not revoked, exactly until the asset expires or the requested days are over.
   */
  lemma VerifiedUntilExactly(states: seq<Records>, events: seq<Event>, i: nat, n: nat, now: int)
    requires Run(states, events) && i < n <= |events| && Completes(states[i], events[i])
    requires events[i].action.matched && states[i][events[i].action.id].challenge == events[i].action.challenge
    requires forall k {:trigger events[k]} | i < k < n :: !(events[k].action.Revoke? && events[k].action.id == events[i].action.id)
    requires events[i].action.id in states[n]
    ensures Materialized(states[n][events[i].action.id], now).status.Verified? <==>
      now < events[i].action.assetExpires && now < events[i].now + states[i][events[i].action.id].validDays * DAY
  {
    assert Next(states, events, i);
    VerifiedStays(states, events, i + 1, n, events[i].action.id);
  }

  lemma StepKeepsPending(records: Records, event: Event, id: string)
    requires id in records && records[id].status.Pending? && !(event.action.Start? && event.action.id == id)
    requires !Touches(event, id) && !Supersedes(event, records[id].asset)
    ensures id in Step(records, event) ==> Step(records, event)[id] == records[id]
  {
  }

  lemma {:induction false} PendingStays(states: seq<Records>, events: seq<Event>, m: nat, n: nat, id: string)
    requires Run(states, events) && m <= n <= |events|
    requires id in states[m] && states[m][id].status.Pending?
    requires forall i {:trigger events[i]} | m <= i < n :: !Touches(events[i], id) && !Supersedes(events[i], states[m][id].asset)
    ensures id in states[n] ==> states[n][id] == states[m][id]
    decreases n
  {
    if m < n {
      PendingStays(states, events, m, n - 1, id);
      StoredWasStarted(states, events, m, id);
      var k :| 0 <= k < m && events[k].action.Start? && events[k].action.id == id;
      assert Next(states, events, n - 1);
      if id in states[n - 1] {
        StepKeepsPending(states[n - 1], events[n - 1], id);
      } else {
        StepAddsNoOther(states[n - 1], events[n - 1], id);
      }
    }
  }

  /**
   Over every run: a challenge that was started is pending, for as long as it is kept and nothing
   settles or replaces it, exactly for the fifteen minutes after its start.
   */
  lemma PendingForAQuarter(states: seq<Records>, events: seq<Event>, i: nat, n: nat, now: int)
    requires Run(states, events) && i < n <= |events| && events[i].action.Start?
    requires events[i].action.id in states[i + 1] && events[i].action.id in states[n]
    requires forall k {:trigger events[k]} | i < k < n ::
      !Touches(events[k], events[i].action.id) && !Supersedes(events[k], events[i].action.asset)
    ensures Materialized(states[n][events[i].action.id], now).status.Pending? <==> now < events[i].now + 900 * SECOND
  {
    assert Next(states, events, i);
    PendingStays(states, events, i + 1, n, events[i].action.id);
  }
}
