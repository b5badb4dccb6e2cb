/**
 The recurrence store as a class: each method does one write of `RecurrenceSchedule`, and the
 methods that compute a time search the windows with `RecurrenceWindow.NextWindowTime`.
 */
module RecurrenceStore {
  import opened Common
  import opened RecurrenceWindow
  import opened RecurrenceSchedule

  datatype Reply =
    | Changed(schedule: Schedule) | NotFound | StateChanged | WindowUnavailable | AuthorizationUnavailable
    | Replayed(existing: Schedule) | IdempotencyConflict | CapacityReached | Conflict | AssetUnavailable

  function Created(request: Schedule, next: int, expiry: int, now: int): Schedule {
    request.(status := Active, expiresAt := Some(expiry), nextRun := next, nextRetry := None, failures := 0,
             lastScheduled := None, updatedAt := now)
  }

  /** What a repeated request must have in common with the schedule that it created. */
  predicate SameCreation(left: Schedule, right: Schedule) {
    && left.asset == right.asset && left.target == right.target && left.grant == right.grant
    && left.intervalDays == right.intervalDays && left.zone == right.zone && left.window == right.window
    && left.expiresAt == right.expiresAt
  }

  /******* The same in fields *******/

  predicate OnlyAdds(before: Schedules, after: Schedules, id: string) {
    && id !in before && after.Keys == before.Keys + {id}
    && forall other | other in before :: after[other] == before[other]
  }

  /** A new schedule is active, due at its first run, and has neither failed nor run yet. */
  predicate IsCreated(request: Schedule, created: Schedule, next: int, expiry: int, now: int) {
    && SamePlan(request, created) && created.grant == request.grant && created.expiresAt == Some(expiry)
    && created.status.Active? && created.nextRun == next && created.nextRetry.None? && created.failures == 0
    && created.lastScheduled.None? && created.updatedAt == now
  }

  /** A repeated request asks for what the stored schedule is: neither its runs nor its digest matter, its grant and expiry do. */
  predicate RepeatsCreation(stored: Schedule, request: Schedule, expiry: int) {
    && stored.asset == request.asset && stored.target == request.target && stored.grant == request.grant
    && stored.intervalDays == request.intervalDays && stored.zone == request.zone && stored.window == request.window
    && stored.expiresAt == Some(expiry)
  }

  function ActiveFor(schedules: Schedules, asset: string): set<string> {
    set id | id in schedules && IsActiveFor(schedules[id], asset)
  }

  /** All of the asset's active schedules are stopped, and counted, except those still `left`. */
  ghost predicate StoppedBut(before: Schedules, after: Schedules, left: set<string>, asset: string, now: int, changed: nat) {
    && left <= before.Keys && after.Keys == before.Keys
    && (forall id | id in before :: after[id] == if id in left then before[id] else StopAsset(before[id], asset, now))
    && changed == |ActiveFor(before, asset) - left|
  }

  ghost predicate NeverRuns(zones: string -> Zone, schedule: Schedule, observed: int) {
    forall t :: !IsNextRun(zones, schedule, observed, t)
  }

  ghost predicate RunsBefore(zones: string -> Zone, schedule: Schedule, observed: int, expiry: int) {
    exists t :: IsNextRun(zones, schedule, observed, t) && t < expiry
  }

  ghost predicate RunsNotBefore(zones: string -> Zone, schedule: Schedule, observed: int, expiry: int) {
    exists t :: IsNextRun(zones, schedule, observed, t) && expiry <= t
  }

  lemma RunsCompared(zones: string -> Zone, schedule: Schedule, observed: int, next: Option<int>, expiry: int)
    requires if next.Some? then IsNextRun(zones, schedule, observed, next.value) else NeverRuns(zones, schedule, observed)
    ensures NeverRuns(zones, schedule, observed) <==> next.None?
    ensures RunsBefore(zones, schedule, observed, expiry) <==> next.Some? && next.value < expiry
    ensures RunsNotBefore(zones, schedule, observed, expiry) <==> next.Some? && expiry <= next.value
  {
    if next.Some? {
      forall t | IsNextRun(zones, schedule, observed, t)
        ensures t == next.value
      {
        NextRunIsUnique(zones, schedule, observed, t, next.value);
      }
    }
  }

  /** The stored schedule still is the version of the asset that was listed. */
  predicate IsUnchanged(schedules: Schedules, listed: Schedule) {
    listed.id in schedules && schedules[listed.id].asset == listed.asset && schedules[listed.id].updatedAt == listed.updatedAt
  }

  /** A schedule without expiry does not run, whatever its status says. */
  predicate IsRunningFor(schedule: Schedule, asset: string) {
    schedule.asset == asset && schedule.status.Active? && schedule.expiresAt.Some?
  }

  lemma StoppedInFields(before: Schedules, after: Schedules, asset: string, now: int)
    requires after == Written(before, Event(now, RecurrenceSchedule.SuspendAsset(asset)))
    ensures forall id | id in before ::
      if IsRunningFor(before[id], asset) then IsStopped(before[id], after[id], Suspended, now) else after[id] == before[id]
    ensures ActiveFor(before, asset) == set id | id in before && IsRunningFor(before[id], asset)
  {
  }

  lemma CreatedInFields(schedules: Schedules, request: Schedule, next: int, expiry: int, now: int)
    requires request.id !in schedules && |schedules| < MAX_SCHEDULES && next < expiry
    requires forall id | id in schedules :: schedules[id].target != request.target
    ensures
      var created := Created(request, next, expiry, now);
      var after := schedules[request.id := created];
      && after == Written(schedules, Event(now, RecurrenceSchedule.Create(created)))
      && OnlyAdds(schedules, after, request.id) && IsCreated(request, created, next, expiry, now)
  {
  }

  lemma RepetitionInFields(stored: Schedule, request: Schedule, next: int, expiry: int, now: int)
    ensures SameCreation(Migrated(stored), Created(request, next, expiry, now)) <==> RepeatsCreation(stored, request, expiry)
  {
  }

  lemma ResumedInFields(
    schedules: Schedules, id: string, asset: string, expected: int, observed: int, grant: string, next: int, expiry: int, now: int)
    requires Names(schedules, id, asset, expected) && next < expiry
    ensures
      var resumed := Resumed(schedules[id], grant, next, expiry);
      var after := Mutated(schedules, id, asset, expected, now, resumed);
      && after == Written(schedules, Event(now, RecurrenceSchedule.Resume(id, asset, expected, observed, grant, next, expiry)))
      && OnlyChanges(schedules, after, id) && IsResumed(schedules[id], after[id], grant, next, expiry, now)
  {
  }

  lemma NoneStopped(before: Schedules, asset: string, now: int)
    ensures StoppedBut(before, before, before.Keys, asset, now, 0)
  {
    assert ActiveFor(before, asset) - before.Keys == {};
  }

  lemma OneLessLeft(all: set<string>, left: set<string>, id: string)
    requires id in left
    ensures |all - (left - {id})| == |all - left| + if id in all then 1 else 0
  {
    assert all - (left - {id}) == if id in all then (all - left) + {id} else all - left;
  }

  lemma StopOne(before: Schedules, after: Schedules, left: set<string>, id: string, asset: string, now: int, changed: nat)
    requires StoppedBut(before, after, left, asset, now, changed) && id in left
    ensures after[id] == before[id]
    ensures IsActiveFor(before[id], asset) ==>
      StoppedBut(before, after[id := StopAsset(before[id], asset, now)], left - {id}, asset, now, changed + 1)
    ensures !IsActiveFor(before[id], asset) ==> StoppedBut(before, after, left - {id}, asset, now, changed)
  {
    OneLessLeft(ActiveFor(before, asset), left, id);
    StopOneWrites(before, after, left, id, asset, now);
  }

  lemma StopOneWrites(before: Schedules, after: Schedules, left: set<string>, id: string, asset: string, now: int)
    requires left <= before.Keys && after.Keys == before.Keys && id in left
    requires forall i | i in before :: after[i] == if i in left then before[i] else StopAsset(before[i], asset, now)
    ensures
      var next := after[id := StopAsset(before[id], asset, now)];
      && next.Keys == before.Keys
      && forall i | i in before :: next[i] == if i in left - {id} then before[i] else StopAsset(before[i], asset, now)
    ensures !IsActiveFor(before[id], asset) ==> after[id := StopAsset(before[id], asset, now)] == after
  {
  }

  lemma AllStopped(before: Schedules, after: Schedules, asset: string, now: int, changed: nat)
    requires StoppedBut(before, after, {}, asset, now, changed)
    ensures after == Written(before, Event(now, RecurrenceSchedule.SuspendAsset(asset)))
    ensures changed == |ActiveFor(before, asset)|
  {
    assert ActiveFor(before, asset) - {} == ActiveFor(before, asset);
  }

  class ActiveRecurrenceStore {
    var schedules: Schedules

    constructor ()
      ensures schedules == map[]
    {
      schedules := map[];
    }

    /** The one place where an existing schedule is changed: only for the caller that names its asset and token. */
    method Mutate(id: string, asset: string, expected: int, now: int, changed: Schedule) returns (reply: Reply)
      modifies this
      ensures schedules == Mutated(old(schedules), id, asset, expected, now, changed)
      ensures reply ==
        if id !in old(schedules) || old(schedules)[id].asset != asset then NotFound
        else if old(schedules)[id].updatedAt != expected then StateChanged
        else Changed(changed.(updatedAt := now))
    {
      if id !in schedules || schedules[id].asset != asset { return NotFound; }
      if schedules[id].updatedAt != expected { return StateChanged; }
      var written := changed.(updatedAt := now);
      schedules := schedules[id := written];
      return Changed(written);
    }

    /** An instant one interval and the schedule's jitter after `observed`, moved into a window. */
    method NextRun(zones: string -> Zone, schedule: Schedule, observed: int) returns (next: Option<int>)
      ensures next.Some? ==> IsNextRun(zones, schedule, observed, next.value)
      ensures next.None? ==> forall t :: !IsNextRun(zones, schedule, observed, t)
    {
      var candidate := observed + schedule.intervalDays * DAY + JitterSeconds(schedule.digest) * SECOND;
      ghost var offset;
      next, offset := NextWindowTime(zones(schedule.zone), schedule.window, schedule.digest, candidate);
      if next.None? { NoOfferNoWindowTime(zones(schedule.zone), schedule.window, schedule.digest, candidate); }
    }

    /** The first window time behind the delay that the failures so far call for. */
    method NextRetry(zones: string -> Zone, schedule: Schedule, digests: nat -> nat, observed: int) returns (retry: Option<int>)
      ensures retry.Some? ==> IsRetryTime(zones, schedule, digests, observed, retry.value)
      ensures retry.None? ==> forall t :: !IsRetryTime(zones, schedule, digests, observed, t)
    {
      var candidate := observed + RetrySeconds(NextFailureCount(schedule.failures), digests) * SECOND;
      ghost var offset;
      retry, offset := NextWindowTime(zones(schedule.zone), schedule.window, schedule.digest, candidate);
      if retry.None? { NoOfferNoWindowTime(zones(schedule.zone), schedule.window, schedule.digest, candidate); }
    }

    /** Answers a repeated request with the schedule it created; a new one needs room and an asset that stays. */
    method Create(zones: string -> Zone, request: Schedule, expiry: int, deletionPending: bool, now: int)
      returns (reply: Reply)
      modifies this
      ensures reply.Changed? <==>
        && RunsBefore(zones, request, now, expiry)
        && request.id !in old(schedules) && |old(schedules)| < 500 && !deletionPending
        && (forall id | id in old(schedules) :: old(schedules)[id].target != request.target)
      ensures reply.Replayed? <==>
        && RunsBefore(zones, request, now, expiry)
        && request.id in old(schedules)
        && RepeatsCreation(old(schedules)[request.id], request, expiry)
      ensures reply.Changed? ==>
        && IsNextRun(zones, request, now, reply.schedule.nextRun) && reply.schedule.nextRun < expiry
        && schedules == Written(old(schedules), Event(now, RecurrenceSchedule.Create(reply.schedule)))
        && request.id in schedules && schedules[request.id] == reply.schedule
      ensures reply.Replayed? ==> request.id in schedules && reply.existing == Migrated(schedules[request.id])
      ensures !reply.Changed? ==> schedules == old(schedules)
      ensures reply.Changed? ==>
        && OnlyAdds(old(schedules), schedules, request.id)
        && IsCreated(request, schedules[request.id], reply.schedule.nextRun, expiry, now)
      ensures reply.WindowUnavailable? <==> NeverRuns(zones, request, now)
      ensures reply.AuthorizationUnavailable? <==> RunsNotBefore(zones, request, now, expiry)
      ensures reply.IdempotencyConflict? <==>
        && RunsBefore(zones, request, now, expiry)
        && request.id in old(schedules) && !RepeatsCreation(old(schedules)[request.id], request, expiry)
      ensures reply.CapacityReached? <==>
        && RunsBefore(zones, request, now, expiry)
        && request.id !in old(schedules) && |old(schedules)| >= 500
      ensures reply.Conflict? <==>
        && RunsBefore(zones, request, now, expiry)
        && request.id !in old(schedules) && |old(schedules)| < 500
        && (exists id :: id in old(schedules) && old(schedules)[id].target == request.target)
    {
      var next := NextRun(zones, request, now);
      RunsCompared(zones, request, now, next, expiry);
      if next.None? {
        reply := WindowUnavailable;
      } else if expiry <= next.value {
        reply := AuthorizationUnavailable;
      } else {
        var created := Created(request, next.value, expiry, now);
        if request.id in schedules {
          var existing := Migrated(schedules[request.id]);
          RepetitionInFields(schedules[request.id], request, next.value, expiry, now);
          reply := if SameCreation(existing, created) then Replayed(existing) else IdempotencyConflict;
        } else if |schedules| >= MAX_SCHEDULES {
          reply := CapacityReached;
        } else if exists id :: id in schedules && schedules[id].target == request.target {
          reply := Conflict;
        } else if deletionPending {
          reply := AssetUnavailable;
        } else {
          CreatedInFields(schedules, request, next.value, expiry, now);
          schedules := schedules[request.id := created];
          reply := Changed(created);
        }
      }
    }

    method Pause(id: string, asset: string, expected: int, now: int) returns (reply: Reply)
      modifies this
      ensures schedules == Written(old(schedules), Event(now, RecurrenceSchedule.Pause(id, asset, expected)))
      ensures reply.Changed? <==> id in old(schedules) && old(schedules)[id].asset == asset && old(schedules)[id].updatedAt == expected
      ensures reply.NotFound? <==> id !in old(schedules) || old(schedules)[id].asset != asset
      ensures reply.Changed? ==>
        OnlyChanges(old(schedules), schedules, id) && IsStopped(old(schedules)[id], schedules[id], Paused, now)
      ensures !reply.Changed? ==> schedules == old(schedules)
    {
      if id !in schedules { return NotFound; }
      reply := Mutate(id, asset, expected, now, Migrated(schedules[id]).(status := Paused));
    }

    /** The only method that makes an existing schedule active whatever it was. */
    method Resume(zones: string -> Zone, id: string, asset: string, expected: int, observed: int, grant: string, expiry: int,
                  now: int)
      returns (reply: Reply, next: int)
      modifies this
      ensures reply.Changed? ==>
        schedules == Written(old(schedules), Event(now, RecurrenceSchedule.Resume(id, asset, expected, observed, grant, next, expiry)))
      ensures !reply.Changed? ==> schedules == old(schedules)
      ensures reply.Changed? <==>
        && id in old(schedules) && old(schedules)[id].asset == asset && old(schedules)[id].updatedAt == expected
        && RunsBefore(zones, old(schedules)[id], observed, expiry)
      ensures reply.Changed? ==>
        && id in old(schedules) && next < expiry && IsNextRun(zones, old(schedules)[id], observed, next)
        && OnlyChanges(old(schedules), schedules, id)
        && IsResumed(old(schedules)[id], schedules[id], grant, next, expiry, now)
      ensures reply.NotFound? <==> id !in old(schedules) || old(schedules)[id].asset != asset
      ensures reply.WindowUnavailable? <==>
        && id in old(schedules) && old(schedules)[id].asset == asset
        && NeverRuns(zones, old(schedules)[id], observed)
      ensures reply.AuthorizationUnavailable? <==>
        && id in old(schedules) && old(schedules)[id].asset == asset
        && RunsNotBefore(zones, old(schedules)[id], observed, expiry)
    {
      next := 0;
      if id !in schedules || schedules[id].asset != asset {
        reply := NotFound;
      } else {
        var found := NextRun(zones, schedules[id], observed);
        RunsCompared(zones, schedules[id], observed, found, expiry);
        if found.None? {
          reply := WindowUnavailable;
        } else if expiry <= found.value {
          reply := AuthorizationUnavailable;
        } else {
          next := found.value;
          if schedules[id].updatedAt == expected {
            ResumedInFields(schedules, id, asset, expected, observed, grant, next, expiry, now);
          }
          reply := Mutate(id, asset, expected, now, Resumed(schedules[id], grant, next, expiry));
        }
      }
    }

    method Suspend(snapshot: Schedule, now: int) returns (reply: Reply)
      modifies this
      ensures schedules == Written(old(schedules), Event(now, RecurrenceSchedule.Suspend(snapshot)))
      ensures reply.Changed? <==> IsUnchanged(old(schedules), snapshot)
      ensures reply.Changed? ==>
        && OnlyChanges(old(schedules), schedules, snapshot.id)
        && IsStopped(old(schedules)[snapshot.id], schedules[snapshot.id], Suspended, now)
      ensures !reply.Changed? ==> schedules == old(schedules)
    {
      if snapshot.id !in schedules { return NotFound; }
      reply := Mutate(snapshot.id, snapshot.asset, snapshot.updatedAt, now, Migrated(schedules[snapshot.id]).(status := Suspended));
    }

    /** Suspends every active schedule of an asset, whatever token it carries, and counts them. */
    method SuspendForAsset(asset: string, now: int) returns (changed: nat)
      modifies this
      ensures schedules == Written(old(schedules), Event(now, RecurrenceSchedule.SuspendAsset(asset)))
      ensures schedules.Keys == old(schedules).Keys
      ensures forall id | id in old(schedules) ::
        if IsRunningFor(old(schedules)[id], asset) then IsStopped(old(schedules)[id], schedules[id], Suspended, now)
        else schedules[id] == old(schedules)[id]
      ensures changed == |set id | id in old(schedules) && IsRunningFor(old(schedules)[id], asset)|
    {
      changed := 0;
      var ids := schedules.Keys;
      NoneStopped(schedules, asset, now);
      while ids != {}
        invariant StoppedBut(old(schedules), schedules, ids, asset, now, changed)
        decreases |ids|
      {
        var id :| id in ids;
        StopOne(old(schedules), schedules, ids, id, asset, now, changed);
        if IsActiveFor(schedules[id], asset) {
          schedules := schedules[id := schedules[id].(status := Suspended, updatedAt := now)];
          changed := changed + 1;
        }
        ids := ids - {id};
      }
      AllStopped(old(schedules), schedules, asset, now, changed);
      StoppedInFields(old(schedules), schedules, asset, now);
    }

    /** What the dispatcher records after the job of a listed schedule was admitted. */
    method RecordDispatch(zones: string -> Zone, snapshot: Schedule, observed: int, now: int) returns (reply: Reply)
      modifies this
      ensures reply.Changed? <==>
        && IsUnchanged(old(schedules), snapshot)
        && exists t :: IsNextRun(zones, snapshot, observed, t)
      ensures reply.Changed? ==>
        && IsNextRun(zones, snapshot, observed, reply.schedule.nextRun)
        && schedules == Written(old(schedules), Event(now, Dispatch(snapshot, observed, reply.schedule.nextRun)))
        && OnlyChanges(old(schedules), schedules, snapshot.id) && reply.schedule == schedules[snapshot.id]
        && IsDispatched(old(schedules)[snapshot.id], reply.schedule, snapshot, reply.schedule.nextRun, now)
      ensures reply.WindowUnavailable? <==> forall t :: !IsNextRun(zones, snapshot, observed, t)
      ensures !reply.Changed? ==> schedules == old(schedules)
    {
      var next := NextRun(zones, snapshot, observed);
      if next.None? { return WindowUnavailable; }
      if snapshot.id !in schedules { return NotFound; }
      reply := Mutate(snapshot.id, snapshot.asset, snapshot.updatedAt, now,
                      WithDispatch(Migrated(schedules[snapshot.id]), Dispatched(snapshot, next.value)));
    }

    /** What the dispatcher records when a listed schedule could not be dispatched. */
    method RecordFailure(zones: string -> Zone, snapshot: Schedule, digests: nat -> nat, observed: int, now: int)
      returns (reply: Reply, retry: int)
      modifies this
      ensures reply.Changed? <==>
        && IsUnchanged(old(schedules), snapshot)
        && exists t :: IsRetryTime(zones, snapshot, digests, observed, t)
      ensures reply.Changed? ==>
        && IsRetryTime(zones, snapshot, digests, observed, retry)
        && schedules == Written(old(schedules), Event(now, Fail(snapshot, observed, retry)))
        && OnlyChanges(old(schedules), schedules, snapshot.id)
        && IsFailed(old(schedules)[snapshot.id], schedules[snapshot.id], snapshot, retry, now)
      ensures reply.WindowUnavailable? <==> forall t :: !IsRetryTime(zones, snapshot, digests, observed, t)
      ensures !reply.Changed? ==> schedules == old(schedules)
    {
      var found := NextRetry(zones, snapshot, digests, observed);
      if found.None? { return WindowUnavailable, 0; }
      retry := found.value;
      if snapshot.id !in schedules { return NotFound, retry; }
      reply := Mutate(snapshot.id, snapshot.asset, snapshot.updatedAt, now,
                      WithFailure(Migrated(schedules[snapshot.id]), Failed(snapshot, retry)));
    }

    method Delete(id: string, asset: string) returns (reply: Reply)
      modifies this
      ensures schedules == Written(old(schedules), Event(0, RecurrenceSchedule.Delete(id, asset)))
      ensures reply.NotFound? <==> id !in old(schedules) || old(schedules)[id].asset != asset
      ensures reply.NotFound? || (reply.Changed? && id in old(schedules) && schedules == old(schedules) - {id})
    {
      if id !in schedules || schedules[id].asset != asset { return NotFound; }
      var gone := schedules[id];
      schedules := schedules - {id};
      return Changed(gone);
    }
  }
}
