/**
 Whole runs of one organization's approval collection, from empty, with any operations in any
 order at any clock readings: where an executing change comes from and how often it is consumed.
 */
module ChangeApprovalRuns {
  import opened Common
  import opened ChangeApprovals

  /** The identifiers drawn for new requests never repeat. */
  predicate FreshIds(events: seq<Event>) {
    forall i, j | 0 <= i < j < |events| && events[i].operation.Request? && events[j].operation.Request? ::
      events[i].operation.id != events[j].operation.id
  }

  ghost predicate Next(collections: seq<Collection>, events: seq<Event>, i: nat)
    requires i < |events| && |collections| == |events| + 1
  {
    collections[i + 1] == Step(collections[i], events[i]).collection
  }

  ghost predicate Run(collections: seq<Collection>, events: seq<Event>) {
    && |collections| == |events| + 1
    && collections[0] == Collection(0, map[])
    && FreshIds(events)
    && forall i | 0 <= i < |events| :: Next(collections, events, i)
  }

  predicate RequestedBefore(events: seq<Event>, n: nat, id: string)
    requires n <= |events|
  {
    exists i :: 0 <= i < n && events[i].operation.Request? && events[i].operation.id == id
  }

  lemma NewIdIsFresh(collection: Collection, events: seq<Event>, n: nat)
    requires FreshIds(events) && n < |events|
    requires forall id | id in collection.records :: RequestedBefore(events, n, id)
    ensures FreshId(collection, events[n])
  {
    if events[n].operation.Request? {
      forall id | id in collection.records
        ensures id != events[n].operation.id
      {
        var i :| 0 <= i < n && events[i].operation.Request? && events[i].operation.id == id;
      }
    }
  }

  lemma RecordWasRequested(before: map<string, Record>, after: map<string, Record>, events: seq<Event>, n: nat, id: string)
    requires 0 < n <= |events| && Traced(before, after, events[n - 1]) && id in after
    requires id in before ==> RequestedBefore(events, n - 1, id)
    requires forall i | i in after :: after[i].id == i
    ensures RequestedBefore(events, n, id)
  {
    if id in before {
      var i :| 0 <= i < n - 1 && events[i].operation.Request? && events[i].operation.id == id;
      assert 0 <= i < n;
    } else {
      assert Arrives(after[id], events[n - 1]);
    }
  }

  /** A valid collection whose records were all requested among the first `n` events. */
  predicate Grounded(collection: Collection, events: seq<Event>, n: nat)
    requires n <= |events|
  {
    Valid(collection) && forall id | id in collection.records :: RequestedBefore(events, n, id)
  }

  lemma EmptyIsGrounded(events: seq<Event>)
    ensures Grounded(Collection(0, map[]), events, 0)
  {
  }

  lemma TracedIsGrounded(before: Collection, event: Event, after: Collection, events: seq<Event>, n: nat)
    requires n < |events| && events[n] == event
    requires Grounded(before, events, n) && Valid(after) && Traced(before.records, after.records, event)
    ensures Grounded(after, events, n + 1)
  {
    forall id | id in after.records
      ensures RequestedBefore(events, n + 1, id)
    {
      RecordWasRequested(before.records, after.records, events, n + 1, id);
    }
  }

  lemma GroundedStep(before: Collection, event: Event, after: Collection, events: seq<Event>, n: nat)
    requires FreshIds(events) && n < |events| && events[n] == event
    requires Grounded(before, events, n) && after == Step(before, event).collection
    ensures Grounded(after, events, n + 1) && Traced(before.records, after.records, event)
  {
    assert FreshId(before, event) by { NewIdIsFresh(before, events, n); }
    assert Valid(after) && Traced(before.records, after.records, event) by { StepFollows(before, event); }
    TracedIsGrounded(before, event, after, events, n);
  }

  lemma GroundedNext(collections: seq<Collection>, events: seq<Event>, n: nat)
    requires Run(collections, events) && n < |events| && Grounded(collections[n], events, n)
    ensures Grounded(collections[n + 1], events, n + 1)
    ensures Traced(collections[n].records, collections[n + 1].records, events[n])
  {
    assert Next(collections, events, n);
    GroundedStep(collections[n], events[n], collections[n + 1], events, n);
  }

  lemma GroundedUpTo(collections: seq<Collection>, events: seq<Event>, n: nat)
    requires Run(collections, events) && 0 < n <= |events| && Grounded(collections[n - 1], events, n - 1)
    ensures Grounded(collections[n], events, n)
  {
    GroundedNext(collections, events, n - 1);
  }

  /** Every record was requested in the run, so a new identifier is new to the collection too. */
  lemma {:induction false} RunIsGrounded(collections: seq<Collection>, events: seq<Event>, n: nat)
    requires Run(collections, events) && n <= |events|
    ensures Grounded(collections[n], events, n)
    decreases n
  {
    if n == 0 {
      EmptyIsGrounded(events);
    } else {
      RunIsGrounded(collections, events, n - 1);
      GroundedUpTo(collections, events, n);
    }
  }

  /** One step of a run, record by record. */
  lemma RunStep(collections: seq<Collection>, events: seq<Event>, n: nat)
    requires Run(collections, events) && n < |events|
    ensures Traced(collections[n].records, collections[n + 1].records, events[n])
    ensures Valid(collections[n]) && Valid(collections[n + 1])
  {
    RunIsGrounded(collections, events, n);
    GroundedNext(collections, events, n);
  }

  /******* Four eyes *******/

  /** An administrator other than the requester approved the record, before its expiry. */
  predicate IsApproval(event: Event, record: Record) {
    && event.operation.Decide? && event.operation.id == record.id && event.operation.approve
    && event.operation.administrator && event.operation.actor != record.requester && event.now < record.expiresAt
  }

  predicate ApprovedBefore(events: seq<Event>, n: nat, record: Record)
    requires n <= |events|
  {
    exists i :: 0 <= i < n && IsApproval(events[i], record)
  }

  /** The requester claimed the very change of the record, before its expiry. */
  predicate IsClaim(event: Event, record: Record) {
    && (event.operation.Claim? || event.operation.ClaimMatching?)
    && event.operation.actor == record.requester && event.operation.operation == record.operation
    && event.operation.kind == record.kind && event.operation.asset == record.asset && event.now < record.expiresAt
  }

  predicate ClaimedBefore(events: seq<Event>, n: nat, record: Record)
    requires n <= |events|
  {
    exists i :: 0 <= i < n && IsClaim(events[i], record) && ApprovedBefore(events, i, record)
  }

  /** What a record's status says about the events that led to it. */
  predicate Earned(events: seq<Event>, n: nat, record: Record)
    requires n <= |events|
  {
    && (record.status.Approved? ==> ApprovedBefore(events, n, record))
    && (record.status.Executing? || record.status.Consumed? ==> ClaimedBefore(events, n, record))
  }

  lemma ApprovalLasts(events: seq<Event>, m: nat, n: nat, before: Record, after: Record)
    requires m <= n <= |events| && ApprovedBefore(events, m, before)
    requires before.id == after.id && before.requester == after.requester && before.expiresAt == after.expiresAt
    ensures ApprovedBefore(events, n, after)
  {
    var i :| 0 <= i < m && IsApproval(events[i], before);
    assert IsApproval(events[i], after);
  }

  lemma ClaimLasts(events: seq<Event>, m: nat, n: nat, before: Record, after: Record)
    requires m <= n <= |events| && ClaimedBefore(events, m, before)
    requires before.id == after.id && before.requester == after.requester && before.expiresAt == after.expiresAt
    requires before.operation == after.operation && before.kind == after.kind && before.asset == after.asset
    ensures ClaimedBefore(events, n, after) && ApprovedBefore(events, n, after)
  {
    var i :| 0 <= i < m && IsClaim(events[i], before) && ApprovedBefore(events, i, before);
    ApprovalLasts(events, i, i, before, after);
    ApprovalLasts(events, i, n, before, after);
    assert IsClaim(events[i], after);
  }

  lemma MoveIsEarned(events: seq<Event>, n: nat, before: Record, after: Record)
    requires n < |events| && Earned(events, n, before) && Moves(before, after, events[n])
    ensures Earned(events, n + 1, after)
  {
    match after.status
    case Approved =>
      if before.status.Pending? {
        assert IsApproval(events[n], after);
      } else {
        ClaimLasts(events, n, n + 1, before, after);
      }
    case Executing =>
      ApprovalLasts(events, n, n, before, after);
      assert IsClaim(events[n], after);
    case Consumed => ClaimLasts(events, n, n + 1, before, after);
    case _ =>
  }

  lemma StayIsEarned(events: seq<Event>, n: nat, record: Record)
    requires n < |events| && Earned(events, n, record)
    ensures Earned(events, n + 1, record)
  {
    if record.status.Approved? { ApprovalLasts(events, n, n + 1, record, record); }
    if record.status.Executing? || record.status.Consumed? { ClaimLasts(events, n, n + 1, record, record); }
  }

  predicate AllEarned(events: seq<Event>, n: nat, records: map<string, Record>)
    requires n <= |events|
  {
    forall id | id in records :: Earned(events, n, records[id])
  }

  lemma StepIsEarned(before: map<string, Record>, after: map<string, Record>, events: seq<Event>, n: nat)
    requires 0 < n <= |events| && Traced(before, after, events[n - 1])
    requires AllEarned(events, n - 1, before)
    ensures AllEarned(events, n, after)
  {
    forall id | id in after
      ensures Earned(events, n, after[id])
    {
      if id in before {
        if before[id] == after[id] {
          StayIsEarned(events, n - 1, after[id]);
        } else {
          MoveIsEarned(events, n - 1, before[id], after[id]);
        }
      }
    }
  }

  lemma StepIsTraced(collections: seq<Collection>, events: seq<Event>, n: nat)
    requires Run(collections, events) && n < |events|
    ensures Traced(collections[n].records, collections[n + 1].records, events[n])
  {
    RunStep(collections, events, n);
  }

  /**
   Over every run: a change that executes or was consumed had been claimed by its requester before
   its expiry, after an administrator other than the requester had approved it.
   */
  lemma {:induction false} ExecutionNeedsFourEyes(collections: seq<Collection>, events: seq<Event>, n: nat)
    requires Run(collections, events) && n <= |events|
    ensures AllEarned(events, n, collections[n].records)
    decreases n
  {
    if n > 0 {
      ExecutionNeedsFourEyes(collections, events, n - 1);
      StepIsTraced(collections, events, n - 1);
      StepIsEarned(collections[n - 1].records, collections[n].records, events, n);
    }
  }

  /** Over every run no file that the store writes is one that it would refuse to load, or ambiguous. */
  lemma RunIsValid(collections: seq<Collection>, events: seq<Event>, n: nat)
    requires Run(collections, events) && n <= |events|
    ensures Valid(collections[n])
  {
    RunIsGrounded(collections, events, n);
  }

  /******* Once *******/

  lemma EndedStepStaysEnded(before: map<string, Record>, after: map<string, Record>, event: Event, id: string)
    requires Traced(before, after, event) && id in after
    ensures id in before && !Actionable(before[id].status) ==> after[id].status == before[id].status
    ensures id !in before ==> Arrives(after[id], event)
  {
  }

  /** A record that has ended keeps its status for as long as it is kept, and its identifier is not used again. */
  lemma {:induction false} EndedStaysEnded(collections: seq<Collection>, events: seq<Event>, m: nat, n: nat, id: string)
    requires Run(collections, events) && m <= n <= |events|
    requires id in collections[m].records && !Actionable(collections[m].records[id].status)
    ensures id in collections[n].records ==> collections[n].records[id].status == collections[m].records[id].status
    decreases n
  {
    if m < n {
      EndedStaysEnded(collections, events, m, n - 1, id);
      StepIsTraced(collections, events, n - 1);
      if id in collections[n].records {
        assert collections[n].records[id].id == id by { RunStep(collections, events, n - 1); }
        EndedStepStaysEnded(collections[n - 1].records, collections[n].records, events[n - 1], id);
        if id !in collections[n - 1].records { IdIsNotReused(collections, events, m, n - 1, id); }
      }
    }
  }

  lemma IdIsNotReused(collections: seq<Collection>, events: seq<Event>, m: nat, n: nat, id: string)
    requires Run(collections, events) && m <= n < |events|
    requires id in collections[m].records
    ensures !(events[n].operation.Request? && events[n].operation.id == id)
  {
    RunIsGrounded(collections, events, m);
    var i :| 0 <= i < m && events[i].operation.Request? && events[i].operation.id == id;
  }

  ghost predicate Consumes(collections: seq<Collection>, events: seq<Event>, i: nat, id: string)
    requires |collections| == |events| + 1 && i < |events|
  {
    events[i].operation == Finish(id, true) && Step(collections[i], events[i]).result.Ok?
  }

  lemma ConsumptionEnds(collections: seq<Collection>, events: seq<Event>, i: nat, id: string)
    requires Run(collections, events) && i < |events| && Consumes(collections, events, i, id)
    ensures id in collections[i].records && collections[i].records[id].status.Executing?
    ensures id in collections[i + 1].records && collections[i + 1].records[id].status.Consumed?
  {
    assert Next(collections, events, i);
    RunIsGrounded(collections, events, i);
  }

  /** Over every run each approved change is consumed at most once. */
  lemma ConsumedOnce(collections: seq<Collection>, events: seq<Event>, i: nat, j: nat, id: string)
    requires Run(collections, events) && i <= j < |events|
    requires Consumes(collections, events, i, id) && Consumes(collections, events, j, id)
    ensures i == j
  {
    ConsumptionEnds(collections, events, i, id);
    ConsumptionEnds(collections, events, j, id);
    if i < j { EndedStaysEnded(collections, events, i + 1, j, id); }
  }

  /******* Claiming by content *******/

  /** Claiming without naming a record is never ambiguous: it succeeds exactly when a match exists. */
  lemma ClaimMatchingIsExact(
    collection: Collection, now: int, actor: Actor, kind: Kind, asset: Option<string>, operation: string)
    requires Valid(collection)
    ensures
      var current := Normalize(collection, now);
      ClaimedMatching(collection, now, actor, kind, asset, operation).result.Ok? <==>
        exists id :: id in current.records && IsMatch(current.records[id], actor, kind, asset, operation)
  {
    NormalizeKeepsValid(collection, now);
    OneMatchAtMost(Normalize(collection, now), actor, kind, asset, operation);
  }

  lemma OneMatchAtMost(collection: Collection, actor: Actor, kind: Kind, asset: Option<string>, operation: string)
    requires Valid(collection)
    ensures |Matches(collection, actor, kind, asset, operation)| == 1 <==>
      exists id :: id in collection.records && IsMatch(collection.records[id], actor, kind, asset, operation)
  {
    var matches := Matches(collection, actor, kind, asset, operation);
    if id :| id in collection.records && IsMatch(collection.records[id], actor, kind, asset, operation) {
      assert id in matches;
      forall other | other in matches
        ensures other == id
      {
        assert Actionable(collection.records[other].status);
      }
      assert matches == {id};
    } else {
      assert matches == {};
    }
  }
}
