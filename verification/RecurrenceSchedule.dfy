/**
 The recurrence schedules of one organization: what each operation writes, and what holds over
 every interleaving of the dispatcher with pauses, resumes and suspensions.

 `updatedAt` is the token that an operation must name to change a schedule. The dispatcher names
 the token of a schedule that it listed as due earlier, so what it writes may be out of date.
 */
module RecurrenceSchedule {
  import opened Common
  import opened RecurrenceWindow

  datatype Status = Active | Paused | Suspended

  /**
   `target` stands for asset, capability and port, `grant` for the authorization revision, the
   verification and the actor, `zone` for the name of a time zone.
   */
  datatype Schedule = Schedule(
    id: string, asset: string, target: string, grant: string, intervalDays: nat, zone: string, window: Window, digest: nat,
    expiresAt: Option<int>, status: Status, nextRun: int, nextRetry: Option<int>, failures: nat,
    lastScheduled: Option<int>, updatedAt: int)

  type Schedules = map<string, Schedule>

  const MAX_SCHEDULES := 500

  const INTERVAL_DAYS: set<nat> := {7, 14, 30}

  /** The time zones, and the spread of each schedule's retries. */
  datatype Setting = Setting(zones: string -> Zone, spread: string -> (nat -> nat))

  /** A schedule of the older format has no expiry; reading it never leaves it active. */
  function Migrated(schedule: Schedule): (read: Schedule)
    ensures read.status.Active? ==> read == schedule && read.expiresAt.Some?
    ensures schedule.expiresAt.Some? || !schedule.status.Active? ==> read == schedule
    ensures schedule.expiresAt.None? && schedule.status.Active? ==> read.status.Suspended? && read.nextRetry.None?
  {
    if schedule.expiresAt.None? && schedule.status.Active? then schedule.(status := Suspended, nextRetry := None)
    else schedule
  }

  /** The next run is the first window time from one interval and the schedule's jitter after `observed`. */
  ghost predicate IsNextRun(zones: string -> Zone, schedule: Schedule, observed: int, next: int) {
    IsWindowTime(zones(schedule.zone), schedule.window, schedule.digest,
                 observed + schedule.intervalDays * DAY + JitterSeconds(schedule.digest) * SECOND, next)
  }

  lemma NextRunIsAnIntervalAway(zones: string -> Zone, schedule: Schedule, observed: int, next: int)
    requires IsNextRun(zones, schedule, observed, next)
    ensures observed + schedule.intervalDays * DAY + SECOND <= next
  {
    WindowTimeIsNotBefore(zones(schedule.zone), schedule.window, schedule.digest,
      observed + schedule.intervalDays * DAY + JitterSeconds(schedule.digest) * SECOND, next);
  }

  lemma NextRunIsMinutesAway(zones: string -> Zone, schedule: Schedule, observed: int, next: int)
    requires IsNextRun(zones, schedule, observed, next) && schedule.intervalDays in INTERVAL_DAYS
    ensures observed + 300 * SECOND <= next
  {
    NextRunIsAnIntervalAway(zones, schedule, observed, next);
  }

  /** A schedule has one next run at most. */
  lemma NextRunIsUnique(zones: string -> Zone, schedule: Schedule, observed: int, one: int, other: int)
    requires IsNextRun(zones, schedule, observed, one) && IsNextRun(zones, schedule, observed, other)
    ensures one == other
  {
    WindowTimeIsUnique(zones(schedule.zone), schedule.window, schedule.digest,
      observed + schedule.intervalDays * DAY + JitterSeconds(schedule.digest) * SECOND, one, other);
  }

  /** The retry time of a failure is the first window time behind the backed-off delay. */
  ghost predicate IsRetryTime(zones: string -> Zone, schedule: Schedule, digests: nat -> nat, observed: int, retry: int) {
    IsWindowTime(zones(schedule.zone), schedule.window, schedule.digest,
                 observed + RetrySeconds(NextFailureCount(schedule.failures), digests) * SECOND, retry)
  }

  /** A retry is at least five minutes away. */
  lemma RetryIsMinutesAway(zones: string -> Zone, schedule: Schedule, digests: nat -> nat, observed: int, retry: int)
    requires IsRetryTime(zones, schedule, digests, observed, retry)
    ensures observed + 300 * SECOND <= retry
  {
    RetriesBackOff(NextFailureCount(schedule.failures), digests);
    WindowTimeIsNotBefore(zones(schedule.zone), schedule.window, schedule.digest,
      observed + RetrySeconds(NextFailureCount(schedule.failures), digests) * SECOND, retry);
  }

  predicate IsDue(schedule: Schedule, now: int) {
    schedule.status.Active? && schedule.nextRun <= now && (schedule.nextRetry.None? || schedule.nextRetry.value <= now)
  }

  /******* Operations *******/

  predicate PastExpiry(schedule: Schedule, instant: int) {
    schedule.expiresAt.Some? && schedule.expiresAt.value <= instant
  }

  /** The stored schedule belongs to the asset and carries the token. */
  predicate Names(schedules: Schedules, id: string, asset: string, expected: int) {
    id in schedules && schedules[id].asset == asset && schedules[id].updatedAt == expected
  }

  /** The write of an operation that names asset and token; any other is refused. */
  function Mutated(schedules: Schedules, id: string, asset: string, expected: int, now: int, changed: Schedule): Schedules {
    if Names(schedules, id, asset, expected) then schedules[id := changed.(updatedAt := now)] else schedules
  }

  function Resumed(schedule: Schedule, grant: string, next: int, expiry: int): Schedule {
    Migrated(schedule).(
      status := Active, grant := grant, expiresAt := Some(expiry), nextRun := next, failures := 0, nextRetry := None)
  }

  /** Missed occurrences collapse into one: the next run counts from the dispatch. */
  function Dispatched(schedule: Schedule, next: int): Schedule {
    schedule.(
      status := if PastExpiry(schedule, next) then Suspended else Active,
      lastScheduled := Some(schedule.nextRun), failures := 0, nextRetry := None, nextRun := next)
  }

  function Failed(schedule: Schedule, retry: int): Schedule {
    schedule.(
      status := if PastExpiry(schedule, retry) then Suspended else Active,
      failures := NextFailureCount(schedule.failures),
      nextRetry := if PastExpiry(schedule, retry) then None else Some(retry))
  }

  /******* The same in fields: what an operation leaves of the schedule that it changes *******/

  predicate OnlyChanges(before: Schedules, after: Schedules, id: string) {
    after.Keys == before.Keys && forall other | other in before && other != id :: after[other] == before[other]
  }

  /** What no operation changes. */
  predicate SamePlan(before: Schedule, after: Schedule) {
    && after.id == before.id && after.asset == before.asset && after.target == before.target
    && after.intervalDays == before.intervalDays && after.zone == before.zone && after.window == before.window
    && after.digest == before.digest
  }

  predicate SameGrant(before: Schedule, after: Schedule) {
    after.grant == before.grant && after.expiresAt == before.expiresAt
  }

  /** A stop leaves grant, runs and failures as they are; a schedule of the older format loses its retry. */
  predicate IsStopped(before: Schedule, after: Schedule, status: Status, now: int) {
    && SamePlan(before, after) && SameGrant(before, after)
    && after.nextRun == before.nextRun && after.failures == before.failures && after.lastScheduled == before.lastScheduled
    && after.nextRetry == (if before.expiresAt.None? && before.status.Active? then None else before.nextRetry)
    && after.status == status && after.updatedAt == now
  }

  /** A resume brings a new grant with its expiry and a new run, and forgets the failures. */
  predicate IsResumed(before: Schedule, after: Schedule, grant: string, next: int, expiry: int, now: int) {
    && SamePlan(before, after) && after.lastScheduled == before.lastScheduled
    && after.grant == grant && after.expiresAt == Some(expiry) && after.nextRun == next
    && after.failures == 0 && after.nextRetry.None? && after.status.Active? && after.updatedAt == now
  }

  /** A dispatch moves the due time of the listed schedule to the past, unless its grant ends before the new one. */
  predicate IsDispatched(before: Schedule, after: Schedule, listed: Schedule, next: int, now: int) {
    && SamePlan(before, after) && SameGrant(before, after)
    && after.lastScheduled == Some(listed.nextRun) && after.nextRun == next
    && after.failures == 0 && after.nextRetry.None? && after.updatedAt == now
    && after.status == (if listed.expiresAt.Some? && listed.expiresAt.value <= next then Suspended else Active)
  }

  /** A failure adds one to the failures of the listed schedule, at most to eight, and sets the retry unless the grant ends before. */
  predicate IsFailed(before: Schedule, after: Schedule, listed: Schedule, retry: int, now: int) {
    && SamePlan(before, after) && SameGrant(before, after)
    && after.lastScheduled == before.lastScheduled && after.nextRun == before.nextRun && after.updatedAt == now
    && after.failures == (if listed.failures < 7 then listed.failures + 1 else 8)
    && (if listed.expiresAt.Some? && listed.expiresAt.value <= retry
        then after.status.Suspended? && after.nextRetry.None?
        else after.status.Active? && after.nextRetry == Some(retry))
  }

  datatype Action =
    | Create(schedule: Schedule)
    | ListDue(taken: set<string>, observed: int)
    | Pause(id: string, asset: string, expected: int)
    | Resume(id: string, asset: string, expected: int, observed: int, grant: string, next: int, expiry: int)
    | Suspend(snapshot: Schedule)
    | SuspendAsset(asset: string)
    | Dispatch(snapshot: Schedule, observed: int, next: int)
    | Fail(snapshot: Schedule, observed: int, retry: int)
    | Delete(id: string, asset: string)

  datatype Event = Event(now: int, action: Action)

  predicate IsActiveFor(schedule: Schedule, asset: string) {
    schedule.asset == asset && Migrated(schedule).status.Active?
  }

  function StopAsset(schedule: Schedule, asset: string, now: int): Schedule {
    if IsActiveFor(schedule, asset)
    then schedule.(status := Suspended, updatedAt := now) else schedule
  }

  function Written(schedules: Schedules, event: Event): Schedules {
    match event.action
    case Create(schedule) =>
      if schedule.id in schedules || |schedules| >= MAX_SCHEDULES || PastExpiry(schedule, schedule.nextRun)
         || (exists id :: id in schedules && schedules[id].target == schedule.target)
      then schedules else schedules[schedule.id := schedule]
    case ListDue(_, _) => schedules
    case Pause(id, asset, expected) =>
      if id in schedules
      then Mutated(schedules, id, asset, expected, event.now, Migrated(schedules[id]).(status := Paused))
      else schedules
    case Resume(id, asset, expected, _, grant, next, expiry) =>
      if id in schedules && next < expiry
      then Mutated(schedules, id, asset, expected, event.now, Resumed(schedules[id], grant, next, expiry))
      else schedules
    case Suspend(snapshot) =>
      if snapshot.id in schedules
      then Mutated(schedules, snapshot.id, snapshot.asset, snapshot.updatedAt, event.now,
                   Migrated(schedules[snapshot.id]).(status := Suspended))
      else schedules
    case SuspendAsset(asset) => map id | id in schedules :: StopAsset(schedules[id], asset, event.now)
    case Dispatch(snapshot, _, next) =>
      if snapshot.id in schedules
      then Mutated(schedules, snapshot.id, snapshot.asset, snapshot.updatedAt, event.now,
                   WithDispatch(Migrated(schedules[snapshot.id]), Dispatched(snapshot, next)))
      else schedules
    case Fail(snapshot, _, retry) =>
      if snapshot.id in schedules
      then Mutated(schedules, snapshot.id, snapshot.asset, snapshot.updatedAt, event.now,
                   WithFailure(Migrated(schedules[snapshot.id]), Failed(snapshot, retry)))
      else schedules
    case Delete(id, asset) =>
      if id in schedules && schedules[id].asset == asset then schedules - {id} else schedules
  }

  /** The fields that a dispatch writes come from the listed schedule, all others from the stored one. */
  function WithDispatch(current: Schedule, dispatched: Schedule): Schedule {
    current.(status := dispatched.status, lastScheduled := dispatched.lastScheduled, failures := dispatched.failures,
             nextRetry := dispatched.nextRetry, nextRun := dispatched.nextRun)
  }

  function WithFailure(current: Schedule, failed: Schedule): Schedule {
    current.(status := failed.status, failures := failed.failures, nextRetry := failed.nextRetry)
  }

  /** A dispatch is accepted when the token of the listed schedule still is the stored one. */
  predicate Accepted(schedules: Schedules, action: Action) {
    action.Dispatch? && Names(schedules, action.snapshot.id, action.snapshot.asset, action.snapshot.updatedAt)
  }

  /******* The store, the listings that the dispatcher holds, and the occurrences dispatched *******/

  datatype Listing = Listing(schedule: Schedule, at: int)

  /** `intervalDays` is the schedule's at the time of the dispatch. */
  datatype Occurrence = Occurrence(id: string, due: int, intervalDays: nat)

  function OccurrenceOf(schedule: Schedule): Occurrence {
    Occurrence(schedule.id, schedule.nextRun, schedule.intervalDays)
  }

  datatype System = System(schedules: Schedules, listed: set<Listing>, occurrences: seq<Occurrence>, clock: int)

  function Step(system: System, event: Event): System {
    System(
      Written(system.schedules, event),
      if event.action.ListDue?
      then system.listed + NewListings(system, event)
      else system.listed,
      if Accepted(system.schedules, event.action)
      then system.occurrences + [OccurrenceOf(event.action.snapshot)]
      else system.occurrences,
      event.now)
  }

  /** What the dispatcher acts on was listed, not later than it reads the clock for the result. */
  predicate WasListed(system: System, snapshot: Schedule, observed: int) {
    exists l :: l in system.listed && l.schedule == snapshot && l.at <= observed
  }

  /** The run, or the retry, that an operation computes for an active schedule. */
  predicate Computes(event: Event) {
    event.action.Resume? || event.action.Dispatch? || event.action.Fail?
  }

  function ComputedTime(event: Event): int
    requires Computes(event)
  {
    if event.action.Fail? then event.action.retry else event.action.next
  }

  /**
   The clock never runs backwards; what an operation computes comes from a reading between the
   version that it names and its own write.
   */
  ghost predicate Plausible(setting: Setting, system: System, event: Event) {
    && system.clock <= event.now
    && match event.action
       case Create(schedule) =>
         && schedule.status.Active? && schedule.expiresAt.Some? && schedule.nextRetry.None?
         && schedule.failures == 0 && schedule.lastScheduled.None?
         && schedule.intervalDays in INTERVAL_DAYS
         && schedule.updatedAt == event.now && IsNextRun(setting.zones, schedule, event.now, schedule.nextRun)
       case ListDue(_, observed) => observed <= event.now
       case Resume(id, _, expected, observed, _, next, _) =>
         && expected <= observed <= event.now
         && (id in system.schedules ==> IsNextRun(setting.zones, system.schedules[id], observed, next))
       case Suspend(snapshot) => WasListed(system, snapshot, event.now)
       case Dispatch(snapshot, observed, next) =>
         && WasListed(system, snapshot, observed) && observed <= event.now
         && IsNextRun(setting.zones, snapshot, observed, next)
       case Fail(snapshot, observed, retry) =>
         && WasListed(system, snapshot, observed) && observed <= event.now
         && IsRetryTime(setting.zones, snapshot, setting.spread(snapshot.id), observed, retry)
       case _ => true
  }

  /** An operation writes before the run or the retry that it computed. */
  predicate Timely(event: Event) {
    Computes(event) ==> event.now < ComputedTime(event)
  }

  ghost predicate Possible(setting: Setting, system: System, event: Event) {
    Plausible(setting, system, event) && Timely(event)
  }

  /******* What every step keeps *******/

  /** An active schedule is authorized beyond its next run and its next retry. */
  predicate Authorized(schedule: Schedule) {
    schedule.status.Active? ==>
      && schedule.expiresAt.Some? && schedule.nextRun < schedule.expiresAt.value
      && (schedule.nextRetry.None? || schedule.nextRetry.value < schedule.expiresAt.value)
  }

  /** The version of an active schedule is older than the time from which it is due. */
  predicate Sound(schedule: Schedule) {
    && Authorized(schedule) && schedule.intervalDays in INTERVAL_DAYS
    && !IsDue(schedule, schedule.updatedAt)
  }

  /** A listed schedule was due, after its last change; while its token is the stored one it is the stored schedule. */
  predicate Faithful(system: System, listing: Listing) {
    && IsDue(listing.schedule, listing.at) && Sound(listing.schedule) && listing.schedule.expiresAt.Some?
    && listing.schedule.updatedAt < listing.at <= system.clock
    && (listing.schedule.id in system.schedules ==>
          var current := system.schedules[listing.schedule.id];
          && listing.schedule.updatedAt <= current.updatedAt
          && (listing.schedule.updatedAt == current.updatedAt ==> current == listing.schedule))
  }

  /** Everything dispatched so far lies an interval before the next run. */
  predicate Spaced(system: System, occurrence: Occurrence) {
    && occurrence.due <= system.clock
    && (occurrence.id in system.schedules ==>
          var current := system.schedules[occurrence.id];
          occurrence.due + current.intervalDays * DAY + SECOND <= current.nextRun && occurrence.due <= current.updatedAt)
  }

  predicate Safe(system: System) {
    && (forall id | id in system.schedules ::
          && system.schedules[id].id == id && system.schedules[id].updatedAt <= system.clock
          && Sound(Migrated(system.schedules[id])))
    && (forall l | l in system.listed :: Faithful(system, l))
    && (forall i | 0 <= i < |system.occurrences| :: Spaced(system, system.occurrences[i]))
  }

  /******* Each kind of step *******/

  predicate Follows(occurrence: Occurrence, schedule: Schedule) {
    occurrence.id == schedule.id ==> occurrence.due + schedule.intervalDays * DAY + SECOND <= schedule.nextRun
  }

  /** A schedule is written with a fresh token before it is due, authorized, and an interval after every dispatch. */
  lemma ReplaceKeepsSafe(system: System, now: int, changed: Schedule)
    requires Safe(system) && system.clock <= now && changed.updatedAt == now
    requires Sound(Migrated(changed))
    requires forall i | 0 <= i < |system.occurrences| :: Follows(system.occurrences[i], changed)
    ensures Safe(system.(schedules := system.schedules[changed.id := changed], clock := now))
  {
    var after := system.(schedules := system.schedules[changed.id := changed], clock := now);
    forall l | l in after.listed
      ensures Faithful(after, l)
    {
      assert Faithful(system, l);
    }
    forall i | 0 <= i < |after.occurrences|
      ensures Spaced(after, after.occurrences[i])
    {
      assert Spaced(system, system.occurrences[i]);
      assert Follows(system.occurrences[i], changed);
    }
  }

  lemma AdvanceKeepsSafe(system: System, now: int)
    requires Safe(system) && system.clock <= now
    ensures Safe(system.(clock := now))
  {
    var after := system.(clock := now);
    forall l | l in after.listed
      ensures Faithful(after, l)
    {
      assert Faithful(system, l);
    }
    forall i | 0 <= i < |after.occurrences|
      ensures Spaced(after, after.occurrences[i])
    {
      assert Spaced(system, system.occurrences[i]);
    }
  }

  lemma DispatchIsLogged(system: System, occurrence: Occurrence)
    requires Safe(system) && Spaced(system, occurrence)
    ensures Safe(system.(occurrences := system.occurrences + [occurrence]))
  {
    var after := system.(occurrences := system.occurrences + [occurrence]);
    forall l | l in after.listed
      ensures Faithful(after, l)
    {
      assert Faithful(system, l);
    }
    forall i | 0 <= i < |after.occurrences|
      ensures Spaced(after, after.occurrences[i])
    {
      if i < |system.occurrences| { assert Spaced(system, system.occurrences[i]); }
    }
  }

  lemma DeleteKeepsSafe(system: System, id: string)
    requires Safe(system)
    ensures Safe(system.(schedules := system.schedules - {id}))
  {
    var after := system.(schedules := system.schedules - {id});
    forall l | l in after.listed
      ensures Faithful(after, l)
    {
      assert Faithful(system, l);
    }
    forall i | 0 <= i < |after.occurrences|
      ensures Spaced(after, after.occurrences[i])
    {
      assert Spaced(system, system.occurrences[i]);
    }
  }

  lemma SuspendAssetKeepsSafe(system: System, asset: string, now: int)
    requires Safe(system) && system.clock <= now
    ensures Safe(system.(schedules := Written(system.schedules, Event(now, SuspendAsset(asset))), clock := now))
  {
    var after := system.(schedules := Written(system.schedules, Event(now, SuspendAsset(asset))), clock := now);
    assert forall id | id in after.schedules :: after.schedules[id] == StopAsset(system.schedules[id], asset, now);
    forall l | l in after.listed
      ensures Faithful(after, l)
    {
      assert Faithful(system, l);
    }
    forall i | 0 <= i < |after.occurrences|
      ensures Spaced(after, after.occurrences[i])
    {
      assert Spaced(system, system.occurrences[i]);
    }
  }

  function NewListings(system: System, event: Event): set<Listing>
    requires event.action.ListDue?
  {
    set id | id in event.action.taken && id in system.schedules && IsDue(Migrated(system.schedules[id]), event.action.observed) ::
      Listing(Migrated(system.schedules[id]), event.action.observed)
  }

  lemma ListDueKeepsSafe(system: System, event: Event)
    requires Safe(system) && event.action.ListDue? && system.clock <= event.now && event.action.observed <= event.now
    ensures Safe(Step(system, event))
  {
    AdvanceKeepsSafe(system, event.now);
    var advanced, after := system.(clock := event.now), Step(system, event);
    forall l | l in after.listed
      ensures Faithful(after, l)
    {
      if l in system.listed { assert Faithful(advanced, l); }
    }
    forall i | 0 <= i < |after.occurrences|
      ensures Spaced(after, after.occurrences[i])
    {
      assert Spaced(advanced, advanced.occurrences[i]);
    }
  }

  /** A change that keeps interval and next run keeps the spacing. */
  lemma SameRunFollows(system: System, changed: Schedule)
    requires Safe(system) && changed.id in system.schedules
    requires
      var current := system.schedules[changed.id];
      changed.nextRun == current.nextRun && changed.intervalDays == current.intervalDays
    ensures forall i | 0 <= i < |system.occurrences| :: Follows(system.occurrences[i], changed)
  {
    forall i | 0 <= i < |system.occurrences|
      ensures Follows(system.occurrences[i], changed)
    {
      assert Spaced(system, system.occurrences[i]);
    }
  }

  /** A next run counted from a reading that no dispatch so far lies behind keeps the spacing. */
  lemma NextRunFollows(zones: string -> Zone, system: System, schedule: Schedule, observed: int, changed: Schedule)
    requires IsNextRun(zones, schedule, observed, changed.nextRun) && changed.intervalDays == schedule.intervalDays
    requires forall i | 0 <= i < |system.occurrences| && system.occurrences[i].id == changed.id ::
      system.occurrences[i].due <= observed
    ensures forall i | 0 <= i < |system.occurrences| :: Follows(system.occurrences[i], changed)
  {
    NextRunIsAnIntervalAway(zones, schedule, observed, changed.nextRun);
  }

  /** What was listed and still carries the stored token is the stored schedule, active and due. */
  lemma ListedIsCurrent(system: System, snapshot: Schedule, observed: int)
    requires Safe(system) && WasListed(system, snapshot, observed)
    requires snapshot.id in system.schedules && system.schedules[snapshot.id].updatedAt == snapshot.updatedAt
    ensures system.schedules[snapshot.id] == snapshot && Migrated(snapshot) == snapshot
    ensures snapshot.status.Active? && snapshot.nextRun <= observed
  {
    var l :| l in system.listed && l.schedule == snapshot && l.at <= observed;
    assert Faithful(system, l);
  }

  lemma ListedIsActive(system: System, snapshot: Schedule, observed: int)
    requires Safe(system) && WasListed(system, snapshot, observed)
    ensures Names(system.schedules, snapshot.id, snapshot.asset, snapshot.updatedAt) ==>
      Migrated(system.schedules[snapshot.id]).status.Active?
  {
    if Names(system.schedules, snapshot.id, snapshot.asset, snapshot.updatedAt) {
      ListedIsCurrent(system, snapshot, observed);
    }
  }

  lemma CreatedIsSound(setting: Setting, system: System, event: Event)
    requires event.action.Create? && Plausible(setting, system, event)
    requires Written(system.schedules, event) != system.schedules
    ensures
      var schedule := event.action.schedule;
      Sound(schedule) && Written(system.schedules, event) == system.schedules[schedule.id := schedule]
  {
    NextRunIsMinutesAway(setting.zones, event.action.schedule, event.now, event.action.schedule.nextRun);
  }

  lemma CreateKeepsSafe(setting: Setting, system: System, event: Event)
    requires Safe(system) && event.action.Create? && Possible(setting, system, event)
    ensures Safe(Step(system, event))
  {
    var schedule := event.action.schedule;
    if Written(system.schedules, event) == system.schedules {
      AdvanceKeepsSafe(system, event.now);
    } else {
      CreatedIsSound(setting, system, event);
      assert forall i | 0 <= i < |system.occurrences| :: Spaced(system, system.occurrences[i]);
      NextRunFollows(setting.zones, system, schedule, event.now, schedule);
      ReplaceKeepsSafe(system, event.now, schedule);
    }
  }

  lemma StopKeepsSafe(setting: Setting, system: System, event: Event)
    requires Safe(system) && (event.action.Pause? || event.action.Suspend?) && Possible(setting, system, event)
    ensures Safe(Step(system, event))
  {
    var id := if event.action.Pause? then event.action.id else event.action.snapshot.id;
    if Written(system.schedules, event) == system.schedules {
      AdvanceKeepsSafe(system, event.now);
    } else {
      var changed := Written(system.schedules, event)[id];
      SameRunFollows(system, changed);
      ReplaceKeepsSafe(system, event.now, changed);
    }
  }

  lemma ResumeKeepsSafe(setting: Setting, system: System, event: Event)
    requires Safe(system) && event.action.Resume? && Possible(setting, system, event)
    ensures Safe(Step(system, event))
  {
    var id := event.action.id;
    if Written(system.schedules, event) == system.schedules {
      AdvanceKeepsSafe(system, event.now);
    } else {
      var changed := Written(system.schedules, event)[id];
      assert forall i | 0 <= i < |system.occurrences| :: Spaced(system, system.occurrences[i]);
      NextRunFollows(setting.zones, system, system.schedules[id], event.action.observed, changed);
      ReplaceKeepsSafe(system, event.now, changed);
    }
  }

  lemma DispatchKeepsSafe(setting: Setting, system: System, event: Event)
    requires Safe(system) && event.action.Dispatch? && Possible(setting, system, event)
    ensures Safe(Step(system, event))
  {
    var snapshot := event.action.snapshot;
    if !Accepted(system.schedules, event.action) {
      AdvanceKeepsSafe(system, event.now);
    } else {
      ListedIsCurrent(system, snapshot, event.action.observed);
      var changed := Dispatched(snapshot, event.action.next).(updatedAt := event.now);
      assert Written(system.schedules, event) == system.schedules[snapshot.id := changed];
      forall i | 0 <= i < |system.occurrences| && system.occurrences[i].id == changed.id
        ensures system.occurrences[i].due <= event.action.observed
      {
        assert Spaced(system, system.occurrences[i]);
      }
      NextRunFollows(setting.zones, system, snapshot, event.action.observed, changed);
      ReplaceKeepsSafe(system, event.now, changed);
      NextRunIsAnIntervalAway(setting.zones, snapshot, event.action.observed, event.action.next);
      DispatchIsLogged(system.(schedules := system.schedules[snapshot.id := changed], clock := event.now),
                       OccurrenceOf(snapshot));
    }
  }

  lemma FailKeepsSafe(setting: Setting, system: System, event: Event)
    requires Safe(system) && event.action.Fail? && Possible(setting, system, event)
    ensures Safe(Step(system, event))
  {
    var snapshot := event.action.snapshot;
    if Written(system.schedules, event) == system.schedules {
      AdvanceKeepsSafe(system, event.now);
    } else {
      ListedIsCurrent(system, snapshot, event.action.observed);
      var changed := Failed(snapshot, event.action.retry).(updatedAt := event.now);
      assert Written(system.schedules, event) == system.schedules[snapshot.id := changed];
      SameRunFollows(system, changed);
      ReplaceKeepsSafe(system, event.now, changed);
    }
  }

  lemma StepKeepsSafe(setting: Setting, system: System, event: Event)
    requires Safe(system) && Possible(setting, system, event)
    ensures Safe(Step(system, event))
  {
    match event.action
    case Create(_) => CreateKeepsSafe(setting, system, event);
    case ListDue(_, _) => ListDueKeepsSafe(system, event);
    case Pause(_, _, _) => StopKeepsSafe(setting, system, event);
    case Suspend(_) => StopKeepsSafe(setting, system, event);
    case Resume(_, _, _, _, _, _, _) => ResumeKeepsSafe(setting, system, event);
    case SuspendAsset(asset) => SuspendAssetKeepsSafe(system, asset, event.now);
    case Dispatch(_, _, _) => DispatchKeepsSafe(setting, system, event);
    case Fail(_, _, _) => FailKeepsSafe(setting, system, event);
    case Delete(id, asset) =>
      if Written(system.schedules, event) == system.schedules {
        AdvanceKeepsSafe(system, event.now);
      } else {
        DeleteKeepsSafe(system, id);
        AdvanceKeepsSafe(system.(schedules := system.schedules - {id}), event.now);
      }
  }

  /******* Whole runs *******/

  ghost predicate Next(setting: Setting, systems: seq<System>, events: seq<Event>, i: nat)
    requires i < |events| && |systems| == |events| + 1
  {
    Possible(setting, systems[i], events[i]) && systems[i + 1] == Step(systems[i], events[i])
  }

  ghost predicate Run(setting: Setting, systems: seq<System>, events: seq<Event>) {
    && |systems| == |events| + 1
    && Safe(systems[0])
    && forall i | 0 <= i < |events| :: Next(setting, systems, events, i)
  }

  /** In every run an active schedule is authorized beyond its next run and its next retry. */
  lemma {:induction false} RunsStaySafe(setting: Setting, systems: seq<System>, events: seq<Event>, n: nat)
    requires Run(setting, systems, events) && n <= |events|
    ensures Safe(systems[n])
    decreases n
  {
    if n > 0 {
      RunsStaySafe(setting, systems, events, n - 1);
      assert Next(setting, systems, events, n - 1);
      StepKeepsSafe(setting, systems[n - 1], events[n - 1]);
    }
  }

  /** A dispatch or a failure writes only to a schedule that is active. */
  lemma DispatcherActivatesNone(setting: Setting, system: System, event: Event, id: string)
    requires Safe(system) && Possible(setting, system, event) && (event.action.Dispatch? || event.action.Fail?)
    requires id in system.schedules ==> !Migrated(system.schedules[id]).status.Active?
    ensures Written(system.schedules, event).Keys == system.schedules.Keys
    ensures id in system.schedules ==> Written(system.schedules, event)[id] == system.schedules[id]
  {
    ListedIsActive(system, event.action.snapshot, event.action.observed);
  }

  lemma StopsActivateNone(schedules: Schedules, event: Event, id: string)
    requires event.action.ListDue? || event.action.Pause? || event.action.Suspend? || event.action.SuspendAsset? || event.action.Delete?
    requires id in schedules ==> !Migrated(schedules[id]).status.Active?
    ensures id in Written(schedules, event) ==> !Migrated(Written(schedules, event)[id]).status.Active?
  {
  }

  /** Only a resume or a creation makes a schedule active that was not. */
  lemma OnlyResumeActivates(setting: Setting, system: System, event: Event, id: string)
    requires Safe(system) && Possible(setting, system, event)
    requires id in system.schedules ==> !Migrated(system.schedules[id]).status.Active?
    requires id in Step(system, event).schedules && Migrated(Step(system, event).schedules[id]).status.Active?
    ensures (event.action.Resume? && event.action.id == id) || (event.action.Create? && event.action.schedule.id == id)
  {
    if event.action.Dispatch? || event.action.Fail? {
      DispatcherActivatesNone(setting, system, event, id);
    } else if !event.action.Resume? && !event.action.Create? {
      StopsActivateNone(system.schedules, event, id);
    }
  }

  predicate Restarts(event: Event, id: string) {
    (event.action.Resume? && event.action.id == id) || (event.action.Create? && event.action.schedule.id == id)
  }

  /** A stop wins: whatever the dispatcher still holds, a stopped schedule stays stopped until it is resumed. */
  lemma {:induction false} StopWins(
    setting: Setting, systems: seq<System>, events: seq<Event>, m: nat, n: nat, id: string)
    requires Run(setting, systems, events) && m <= n <= |events|
    requires id in systems[m].schedules && !Migrated(systems[m].schedules[id]).status.Active?
    requires forall i | m <= i < n :: !Restarts(events[i], id)
    ensures id in systems[n].schedules ==> !Migrated(systems[n].schedules[id]).status.Active?
    decreases n
  {
    if m < n {
      StopWins(setting, systems, events, m, n - 1, id);
      RunsStaySafe(setting, systems, events, n - 1);
      assert Next(setting, systems, events, n - 1) && !Restarts(events[n - 1], id);
      if id in systems[n].schedules && Migrated(systems[n].schedules[id]).status.Active? {
        OnlyResumeActivates(setting, systems[n - 1], events[n - 1], id);
      }
    }
  }

  /** A dispatch is accepted only for the stored schedule, active, due and an interval after every earlier one. */
  lemma AcceptedDispatchIsDue(setting: Setting, system: System, event: Event, i: nat)
    requires Safe(system) && Possible(setting, system, event) && Accepted(system.schedules, event.action)
    requires i < |system.occurrences| && system.occurrences[i].id == event.action.snapshot.id
    ensures event.action.snapshot.status.Active? && event.action.snapshot.nextRun <= event.action.observed
    ensures system.schedules[event.action.snapshot.id] == event.action.snapshot
    ensures system.occurrences[i].due + event.action.snapshot.intervalDays * DAY + SECOND <= event.action.snapshot.nextRun
  {
    ListedIsCurrent(system, event.action.snapshot, event.action.observed);
    assert Spaced(system, system.occurrences[i]);
  }

  predicate IntervalApart(first: Occurrence, second: Occurrence) {
    first.id == second.id ==> first.due + second.intervalDays * DAY + SECOND <= second.due
  }

  /** Over every run the dispatched occurrences of a schedule lie at least its interval apart. */
  lemma {:induction false} DispatchesAreSpaced(
    setting: Setting, systems: seq<System>, events: seq<Event>, n: nat, i: nat, j: nat)
    requires Run(setting, systems, events) && n <= |events| && systems[0].occurrences == []
    requires i < j < |systems[n].occurrences|
    ensures IntervalApart(systems[n].occurrences[i], systems[n].occurrences[j])
    decreases n
  {
    if n > 0 {
      assert Next(setting, systems, events, n - 1);
      var before, event := systems[n - 1], events[n - 1];
      if j < |before.occurrences| {
        DispatchesAreSpaced(setting, systems, events, n - 1, i, j);
      } else {
        RunsStaySafe(setting, systems, events, n - 1);
        if before.occurrences[i].id == event.action.snapshot.id {
          AcceptedDispatchIsDue(setting, before, event, i);
        }
      }
    }
  }

  /** The key of an occurrence is a digest of the schedule and of the due time in whole seconds. */
  function OccurrenceKey(occurrence: Occurrence): (string, int) {
    (occurrence.id, occurrence.due / SECOND)
  }

  /** So no two dispatches of a run share a key, and the job store admits one job for each. */
  lemma OccurrenceKeysNeverRepeat(
    setting: Setting, systems: seq<System>, events: seq<Event>, n: nat, i: nat, j: nat)
    requires Run(setting, systems, events) && n <= |events| && systems[0].occurrences == []
    requires i < j < |systems[n].occurrences|
    ensures OccurrenceKey(systems[n].occurrences[i]) != OccurrenceKey(systems[n].occurrences[j])
  {
    DispatchesAreSpaced(setting, systems, events, n, i, j);
  }

  /******* The limit of that: late writes *******/

  /** What the dispatcher lists of a schedule at `at` is still accepted after a pause at `paused`. */
  predicate OutlivesPause(schedules: Schedules, schedule: Schedule, at: int, paused: int) {
    && schedule.updatedAt <= at <= paused && IsDue(schedule, at)
    && Accepted(Written(schedules, Event(paused, Pause(schedule.id, schedule.asset, schedule.updatedAt))),
                Dispatch(schedule, at, at))
  }

  /** Only a schedule that is due at its own token can be dispatched in spite of a pause. */
  lemma PauseIsOutlivedExactly(schedules: Schedules, schedule: Schedule)
    requires schedule.id in schedules && Migrated(schedules[schedule.id]) == schedule
    ensures (exists at, paused :: OutlivesPause(schedules, schedule, at, paused)) <==> IsDue(schedule, schedule.updatedAt)
  {
    if IsDue(schedule, schedule.updatedAt) {
      assert OutlivesPause(schedules, schedule, schedule.updatedAt, schedule.updatedAt);
    }
  }

  /** The schedule that an operation names. */
  function Named(event: Event): string
    requires Computes(event)
  {
    if event.action.Resume? then event.action.id else event.action.snapshot.id
  }

  /**
   The exact limit: the active version that an operation writes can be dispatched in spite of a
   later pause exactly if the operation wrote at or after the time that it had computed.
   */
  lemma LateWritesLoseStops(setting: Setting, system: System, event: Event)
    requires Safe(system) && Plausible(setting, system, event) && Computes(event)
    requires Written(system.schedules, event) != system.schedules
    requires Named(event) in Written(system.schedules, event)
    requires Migrated(Written(system.schedules, event)[Named(event)]).status.Active?
    ensures
      var written := Written(system.schedules, event);
      (exists at, paused :: OutlivesPause(written, Migrated(written[Named(event)]), at, paused)) <==> !Timely(event)
  {
    var written := Written(system.schedules, event);
    if !event.action.Resume? { ListedIsCurrent(system, event.action.snapshot, event.action.observed); }
    PauseIsOutlivedExactly(written, Migrated(written[Named(event)]));
  }

  /** Then the stop is lost: the pause is stored, the dispatch that follows makes the schedule active again. */
  lemma OutlivedPauseIsLost(schedules: Schedules, schedule: Schedule, at: int, paused: int, later: int, next: int)
    requires schedule.id in schedules && Migrated(schedules[schedule.id]) == schedule
    requires OutlivesPause(schedules, schedule, at, paused) && !PastExpiry(schedule, next)
    ensures
      var stopped := Written(schedules, Event(paused, Pause(schedule.id, schedule.asset, schedule.updatedAt)));
      var after := Written(stopped, Event(later, Dispatch(schedule, at, next)));
      Migrated(stopped[schedule.id]).status.Paused? && Migrated(after[schedule.id]).status.Active?
  {
  }

  lemma ListedIsSound(system: System, snapshot: Schedule, observed: int)
    requires Safe(system) && WasListed(system, snapshot, observed)
    ensures Sound(snapshot)
  {
    var l :| l in system.listed && l.schedule == snapshot && l.at <= observed;
    assert Faithful(system, l);
  }

  /** A write within five minutes of its reading is in time, for every operation. */
  lemma PromptWritesAreTimely(setting: Setting, system: System, event: Event)
    requires Safe(system) && Plausible(setting, system, event) && Computes(event) && Named(event) in system.schedules
    requires event.now < event.action.observed + 300 * SECOND
    ensures Timely(event)
  {
    match event.action
    case Resume(id, _, _, observed, _, next, _) =>
      NextRunIsMinutesAway(setting.zones, system.schedules[id], observed, next);
    case Dispatch(snapshot, observed, next) =>
      ListedIsSound(system, snapshot, observed);
      NextRunIsMinutesAway(setting.zones, snapshot, observed, next);
    case Fail(snapshot, observed, retry) =>
      RetryIsMinutesAway(setting.zones, snapshot, setting.spread(snapshot.id), observed, retry);
    case _ =>
  }

  /******* A late write that happens *******/

  /** A zone at UTC. */
  function Utc(): Zone {
    Zone(t => 0, t => 0, (w, f) => 0)
  }

  function AllWeek(): Window {
    Window({0, 1, 2, 3, 4, 5, 6}, 0, 24)
  }

  lemma AllWeekIsOpen(digest: nat, candidate: int)
    ensures IsWindowTime(Utc(), AllWeek(), digest, candidate, candidate)
  {
    var day := LocalDay(Utc(), candidate);
    FixedBounds(Utc(), 0, AllWeek(), day);
    LocalDayHolds(Utc(), candidate, day);
    assert Offer(Utc(), AllWeek(), digest, candidate, day + 0) == Some(candidate);
    assert IsFirstOffer(Utc(), AllWeek(), digest, candidate, 0, candidate);
  }

  function PlainSetting(): Setting {
    Setting(_ => Utc(), _ => _ => 0)
  }

  function FirstRun(digest: nat): int {
    7 * DAY + JitterSeconds(digest) * SECOND
  }

  function PlainSchedule(id: string, digest: nat): Schedule {
    Schedule(id, "asset", "target", "grant", 7, "UTC", AllWeek(), digest, Some(400 * DAY), Active, FirstRun(digest), None, 0, None, 0)
  }

  /** Created at zero and listed when it falls due. */
  function ListedSystem(id: string, digest: nat): System {
    System(map[id := PlainSchedule(id, digest)], {Listing(PlainSchedule(id, digest), FirstRun(digest))}, [], FirstRun(digest))
  }

  lemma PlainScheduleIsCreated(id: string, digest: nat)
    ensures
      var empty, event := System(map[], {}, [], 0), Event(0, Create(PlainSchedule(id, digest)));
      && Possible(PlainSetting(), empty, event)
      && Step(empty, event) == System(map[id := PlainSchedule(id, digest)], {}, [], 0)
  {
    PlainRunIsNext(id, digest);
  }

  lemma PlainRunIsNext(id: string, digest: nat)
    ensures IsNextRun(PlainSetting().zones, PlainSchedule(id, digest), 0, FirstRun(digest))
  {
    AllWeekIsOpen(digest, FirstRun(digest));
  }

  lemma PlainScheduleIsListed(id: string, digest: nat)
    ensures
      var created, due := System(map[id := PlainSchedule(id, digest)], {}, [], 0), FirstRun(digest);
      && Possible(PlainSetting(), created, Event(due, ListDue({id}, due)))
      && Step(created, Event(due, ListDue({id}, due))) == ListedSystem(id, digest)
  {
    var created, due := System(map[id := PlainSchedule(id, digest)], {}, [], 0), FirstRun(digest);
    assert NewListings(created, Event(due, ListDue({id}, due))) == {Listing(PlainSchedule(id, digest), due)};
  }

  /** The failure of that schedule, written exactly at the retry that it computed. */
  function LateFailure(id: string, digest: nat): Event {
    var retry := FirstRun(digest) + 300 * SECOND;
    Event(retry, Fail(PlainSchedule(id, digest), FirstRun(digest), retry))
  }

  lemma LateFailureIsPlausible(id: string, digest: nat)
    ensures Plausible(PlainSetting(), ListedSystem(id, digest), LateFailure(id, digest))
    ensures Computes(LateFailure(id, digest)) && !Timely(LateFailure(id, digest))
  {
    var schedule, observed := PlainSchedule(id, digest), FirstRun(digest);
    assert RetrySeconds(NextFailureCount(0), PlainSetting().spread(id)) == 300 by { assert TwoToThe(0) == 1; }
    AllWeekIsOpen(digest, observed + 300 * SECOND);
    assert Listing(schedule, observed) in ListedSystem(id, digest).listed;
    assert WasListed(ListedSystem(id, digest), schedule, observed);
  }

  lemma LateFailureIsWritten(id: string, digest: nat)
    ensures
      var schedules, written := ListedSystem(id, digest).schedules, Written(ListedSystem(id, digest).schedules, LateFailure(id, digest));
      && written != schedules && Named(LateFailure(id, digest)) == id && id in written
      && Migrated(written[id]).status.Active?
  {
    var written := Written(ListedSystem(id, digest).schedules, LateFailure(id, digest));
    assert written[id].updatedAt != PlainSchedule(id, digest).updatedAt;
  }

  lemma RunOfTwo(setting: Setting, start: System, first: Event, middle: System, second: Event, end: System)
    returns (systems: seq<System>, events: seq<Event>)
    requires Safe(start) && Possible(setting, start, first) && middle == Step(start, first)
    requires Possible(setting, middle, second) && end == Step(middle, second)
    ensures Run(setting, systems, events) && |events| == 2 && systems[0] == start && systems[2] == end
  {
    systems, events := [start, middle, end], [first, second];
    assert Next(setting, systems, events, 0) && Next(setting, systems, events, 1);
  }

  lemma ListedRun(id: string, digest: nat) returns (systems: seq<System>, events: seq<Event>)
    ensures Run(PlainSetting(), systems, events) && |events| == 2
    ensures systems[0] == System(map[], {}, [], 0) && systems[2] == ListedSystem(id, digest)
  {
    var due, schedule := FirstRun(digest), PlainSchedule(id, digest);
    PlainScheduleIsCreated(id, digest);
    PlainScheduleIsListed(id, digest);
    systems, events := RunOfTwo(
      PlainSetting(), System(map[], {}, [], 0), Event(0, Create(schedule)), System(map[id := schedule], {}, [], 0),
      Event(due, ListDue({id}, due)), ListedSystem(id, digest));
  }

  /** A run from the empty store that ends where a late write is plausible and loses a stop. */
  lemma LateWritesHappen(id: string, digest: nat) returns (systems: seq<System>, events: seq<Event>, late: Event)
    ensures Run(PlainSetting(), systems, events) && systems[0] == System(map[], {}, [], 0)
    ensures Plausible(PlainSetting(), systems[|events|], late) && Computes(late) && !Timely(late)
    ensures
      var written := Written(systems[|events|].schedules, late);
      id in written && exists at, paused :: OutlivesPause(written, Migrated(written[id]), at, paused)
  {
    systems, events := ListedRun(id, digest);
    late := LateFailure(id, digest);
    RunsStaySafe(PlainSetting(), systems, events, 2);
    LateFailureIsPlausible(id, digest);
    LateFailureIsWritten(id, digest);
    LateWritesLoseStops(PlainSetting(), ListedSystem(id, digest), late);
  }
}
