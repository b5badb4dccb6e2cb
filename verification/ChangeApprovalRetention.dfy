/**
 How long an approval collection keeps a record, over every run: what is under way never goes,
 what has ended stays unchanged for ninety days, and the moment it ended is the one recorded.
 */
module ChangeApprovalRetention {
  import opened Common
  import opened ChangeApprovals
  import opened ChangeApprovalMeaning
  import opened ChangeApprovalRuns

  /** Deleting the asset, purging, and ninety days are the only ways for a record to go. */
  predicate MayLeave(record: Record, event: Event) {
    match event.operation
    case RemoveAsset(removed) => record.asset == Some(removed)
    case PurgeTerminal(cutoff) => IsOutlived(record, event.now, cutoff)
    case Finish(_, _) => false
    case _ => HasEnded(record) && EndsBefore(record, event.now - NINETY_DAYS)
  }

  /** A step keeps a record unless it may leave, and an ended one unchanged. */
  predicate Keeps(before: map<string, Record>, after: map<string, Record>, event: Event) {
    && (forall id | id in before && !MayLeave(before[id], event) :: id in after)
    && (forall id | id in before && id in after && HasEnded(before[id]) :: after[id] == before[id])
  }

  lemma SameKeeps(records: map<string, Record>, event: Event)
    ensures Keeps(records, records, event)
  {
  }

  lemma OutlivedHasEnded(collection: Collection, now: int)
    requires Valid(collection)
    ensures forall id | id in collection.records && IsOutlived(collection.records[id], now, now - NINETY_DAYS) ::
      HasEnded(collection.records[id]) && EndsBefore(collection.records[id], now - NINETY_DAYS)
  {
    assert forall id | id in collection.records :: Lawful(collection.records[id]);
  }

  /** Any operation but finishing, purging and deleting an asset leaves by age only. */
  predicate LeavesByAge(event: Event) {
    !event.operation.RemoveAsset? && !event.operation.PurgeTerminal? && !event.operation.Finish?
  }

  /** Storing one record that has not ended, and normalizing the others, keeps so. */
  lemma StoredKeeps(before: Collection, after: Collection, event: Event, one: string)
    requires Valid(before) && IsNormalizedBut(before.records, after.records, event.now, one) && LeavesByAge(event)
    requires one in before.records ==> !HasEnded(before.records[one])
    ensures Keeps(before.records, after.records, event)
  {
    OutlivedHasEnded(before, event.now);
  }

  lemma ListKeeps(before: Collection, event: Event)
    requires Valid(before) && event.operation.List?
    ensures Keeps(before.records, Normalize(before, event.now).records, event)
  {
    NormalizeExactly(before, event.now);
    OutlivedHasEnded(before, event.now);
  }

  lemma RequestKeeps(before: Collection, event: Event)
    requires Valid(before) && FreshId(before, event) && event.operation.Request?
    ensures Keeps(before.records, Step(before, event).collection.records, event)
  {
    RequestIsAnswered(before, event.now, event.operation);
    var reply := Step(before, event);
    if reply.collection != before { StoredKeeps(before, reply.collection, event, event.operation.id); }
  }

  lemma DecideKeeps(before: Collection, event: Event)
    requires Valid(before) && event.operation.Decide?
    ensures Keeps(before.records, Step(before, event).collection.records, event)
  {
    var reply, decide := Step(before, event), event.operation;
    DecideIsAnswered(before, event.now, decide.id, decide.actor, decide.administrator, decide.approve);
    if reply.collection != before { StoredKeeps(before, reply.collection, event, decide.id); }
  }

  lemma ClaimKeeps(before: Collection, event: Event)
    requires Valid(before) && event.operation.Claim?
    ensures Keeps(before.records, Step(before, event).collection.records, event)
  {
    var reply, claim := Step(before, event), event.operation;
    ClaimIsAnswered(before, event.now, claim.id, claim.actor, claim.kind, claim.asset, claim.operation);
    if reply.collection != before { StoredKeeps(before, reply.collection, event, claim.id); }
  }

  lemma ClaimMatchingKeeps(before: Collection, event: Event)
    requires Valid(before) && event.operation.ClaimMatching?
    ensures Keeps(before.records, Step(before, event).collection.records, event)
  {
    var reply, claim := Step(before, event), event.operation;
    ClaimMatchingIsAnswered(before, event.now, claim.actor, claim.kind, claim.asset, claim.operation);
    if reply.collection != before { StoredKeeps(before, reply.collection, event, reply.result.record.id); }
  }

  lemma FinishKeeps(before: Collection, event: Event)
    requires Valid(before) && event.operation.Finish?
    ensures Keeps(before.records, Step(before, event).collection.records, event)
  {
    FinishIsAnswered(before, event.now, event.operation.id, event.operation.succeeded);
  }

  lemma RecoveredIsKept(before: map<string, Record>, after: map<string, Record>, event: Event)
    requires IsRecovered(before, after, event.now) && event.operation.Recover?
    ensures Keeps(before, after, event)
  {
    forall id | id in before && id in after && HasEnded(before[id])
      ensures after[id] == before[id]
    {
      assert IsRestarted(before[id], after[id], event.now);
    }
  }

  lemma RecoverKeepsEnded(before: Collection, event: Event)
    requires Valid(before) && event.operation.Recover?
    ensures Keeps(before.records, Recovered(before, event.now).records, event)
  {
    RecoverExactly(before, event.now);
    RecoveredIsKept(before.records, Recovered(before, event.now).records, event);
  }

  lemma PurgeKeeps(before: Collection, event: Event)
    requires event.operation.PurgeTerminal?
    ensures Keeps(before.records, Purged(before, event.now, event.operation.cutoff).records, event)
  {
    PurgeExactly(before, event.now, event.operation.cutoff);
  }

  lemma StepKeeps(before: Collection, event: Event)
    requires Valid(before) && FreshId(before, event)
    ensures Keeps(before.records, Step(before, event).collection.records, event)
  {
    match event.operation
    case Request(_, _, _, _, _, _) => RequestKeeps(before, event);
    case List => ListKeeps(before, event);
    case Decide(_, _, _, _) => DecideKeeps(before, event);
    case Claim(_, _, _, _, _) => ClaimKeeps(before, event);
    case ClaimMatching(_, _, _, _) => ClaimMatchingKeeps(before, event);
    case Finish(_, _) => FinishKeeps(before, event);
    case Recover => RecoverKeepsEnded(before, event);
    case RemoveAsset(_) =>
    case PurgeTerminal(_) => PurgeKeeps(before, event);
  }

  /******* Over every run *******/

  lemma RunKeeps(collections: seq<Collection>, events: seq<Event>, n: nat)
    requires Run(collections, events) && n < |events|
    ensures Keeps(collections[n].records, collections[n + 1].records, events[n])
  {
    RunIsGrounded(collections, events, n);
    NewIdIsFresh(collections[n], events, n);
    assert Next(collections, events, n);
    StepKeeps(collections[n], events[n]);
  }

  /** The record may leave at the event, as it stands there. */
  ghost predicate LeavesAt(collections: seq<Collection>, events: seq<Event>, i: nat, id: string)
    requires |collections| == |events| + 1 && i < |events|
  {
    id in collections[i].records && MayLeave(collections[i].records[id], events[i])
  }

  /** A record that has gone was, at some event, one that may leave: of a deleted asset, purged, or ended ninety days before. */
  lemma {:induction false} RecordsLeaveForAReason(
    collections: seq<Collection>, events: seq<Event>, m: nat, n: nat, id: string)
    requires Run(collections, events) && m <= n <= |events|
    requires id in collections[m].records && id !in collections[n].records
    ensures exists i :: m <= i < n && LeavesAt(collections, events, i, id)
    decreases n
  {
    if id in collections[n - 1].records {
      RunKeeps(collections, events, n - 1);
      assert LeavesAt(collections, events, n - 1, id);
    } else {
      RecordsLeaveForAReason(collections, events, m, n - 1, id);
    }
  }

  /** What is under way never goes by age: without purges and deletions of its asset it is there until it has ended. */
  lemma UnderWayNeverGoes(collections: seq<Collection>, events: seq<Event>, m: nat, n: nat, id: string)
    requires Run(collections, events) && m <= n <= |events| && id in collections[m].records
    requires forall i | m <= i < n :: !Purges(events[i])
    requires forall i | m <= i < n && id in collections[i].records :: !HasEnded(collections[i].records[id])
    ensures id in collections[n].records
  {
    if id !in collections[n].records {
      RecordsLeaveForAReason(collections, events, m, n, id);
    }
  }

  /** An ended record stays, unchanged in every field, at every event at which it may not leave. */
  lemma {:induction false} EndedIsKept(collections: seq<Collection>, events: seq<Event>, m: nat, n: nat, id: string)
    requires Run(collections, events) && m <= n <= |events|
    requires id in collections[m].records && HasEnded(collections[m].records[id])
    requires forall i | m <= i < n :: !MayLeave(collections[m].records[id], events[i])
    ensures id in collections[n].records && collections[n].records[id] == collections[m].records[id]
    decreases n
  {
    if m < n {
      EndedIsKept(collections, events, m, n - 1, id);
      RunKeeps(collections, events, n - 1);
    }
  }

  /** The end that a record carries is the time of the event that ended it. */
  predicate EndedAtEvent(record: Record, now: int) {
    HasEnded(record) && (record.consumedAt == Some(now) || (record.consumedAt.None? && record.decidedAt == Some(now)))
  }

  predicate EndIsRecorded(before: map<string, Record>, after: map<string, Record>, now: int) {
    forall id | id in before && id in after && !HasEnded(before[id]) && HasEnded(after[id]) :: EndedAtEvent(after[id], now)
  }

  lemma SettledEnds(before: Record, after: Record, now: int)
    requires Lawful(before) && IsSettled(before, after, now) && !HasEnded(before) && HasEnded(after)
    ensures EndedAtEvent(after, now)
  {
  }

  lemma StoredEnds(before: Collection, after: Collection, now: int, one: string)
    requires Valid(before) && IsNormalizedBut(before.records, after.records, now, one)
    requires HasEnded(after.records[one]) ==> EndedAtEvent(after.records[one], now)
    ensures EndIsRecorded(before.records, after.records, now)
  {
    forall id | id in before.records && id in after.records && id != one
      && !HasEnded(before.records[id]) && HasEnded(after.records[id])
      ensures EndedAtEvent(after.records[id], now)
    {
      SettledEnds(before.records[id], after.records[id], now);
    }
  }

  lemma NormalizedEnds(before: Collection, after: Collection, now: int, cutoff: int)
    requires Valid(before) && IsNormalized(before.records, after.records, now, cutoff)
    ensures EndIsRecorded(before.records, after.records, now)
  {
    forall id | id in before.records && id in after.records && !HasEnded(before.records[id]) && HasEnded(after.records[id])
      ensures EndedAtEvent(after.records[id], now)
    {
      SettledEnds(before.records[id], after.records[id], now);
    }
  }

  lemma RecoveredEnds(before: Collection, after: Collection, now: int)
    requires Valid(before) && IsRecovered(before.records, after.records, now)
    ensures EndIsRecorded(before.records, after.records, now)
  {
    forall id | id in before.records && id in after.records && !HasEnded(before.records[id]) && HasEnded(after.records[id])
      ensures EndedAtEvent(after.records[id], now)
    {
      assert Lawful(before.records[id]);
      assert IsRestarted(before.records[id], after.records[id], now);
    }
  }

  lemma DecideEnds(before: Collection, event: Event)
    requires Valid(before) && event.operation.Decide?
    ensures EndIsRecorded(before.records, Step(before, event).collection.records, event.now)
  {
    var reply, decide := Step(before, event), event.operation;
    DecideIsAnswered(before, event.now, decide.id, decide.actor, decide.administrator, decide.approve);
    if reply.collection != before {
      assert Lawful(before.records[decide.id]);
      StoredEnds(before, reply.collection, event.now, decide.id);
    }
  }

  lemma RequestEnds(before: Collection, event: Event)
    requires Valid(before) && event.operation.Request?
    ensures EndIsRecorded(before.records, Step(before, event).collection.records, event.now)
  {
    var reply := Step(before, event);
    RequestIsAnswered(before, event.now, event.operation);
    if reply.collection != before { StoredEnds(before, reply.collection, event.now, event.operation.id); }
  }

  lemma ClaimEnds(before: Collection, event: Event)
    requires Valid(before) && (event.operation.Claim? || event.operation.ClaimMatching?)
    ensures EndIsRecorded(before.records, Step(before, event).collection.records, event.now)
  {
    var reply, claim := Step(before, event), event.operation;
    if claim.Claim? {
      ClaimIsAnswered(before, event.now, claim.id, claim.actor, claim.kind, claim.asset, claim.operation);
    } else {
      ClaimMatchingIsAnswered(before, event.now, claim.actor, claim.kind, claim.asset, claim.operation);
    }
    if reply.collection != before { StoredEnds(before, reply.collection, event.now, reply.result.record.id); }
  }

  lemma ListEnds(before: Collection, now: int)
    requires Valid(before)
    ensures EndIsRecorded(before.records, Normalize(before, now).records, now)
  {
    NormalizeExactly(before, now);
    NormalizedEnds(before, Normalize(before, now), now, now - NINETY_DAYS);
  }

  lemma PurgeEnds(before: Collection, now: int, cutoff: int)
    requires Valid(before)
    ensures EndIsRecorded(before.records, Purged(before, now, cutoff).records, now)
  {
    PurgeExactly(before, now, cutoff);
    NormalizedEnds(before, Purged(before, now, cutoff), now, cutoff);
  }

  lemma RecoverEnds(before: Collection, now: int)
    requires Valid(before)
    ensures EndIsRecorded(before.records, Recovered(before, now).records, now)
  {
    RecoverExactly(before, now);
    RecoveredEnds(before, Recovered(before, now), now);
  }

  lemma StepRecordsEnds(before: Collection, event: Event)
    requires Valid(before)
    ensures EndIsRecorded(before.records, Step(before, event).collection.records, event.now)
  {
    match event.operation
    case Request(_, _, _, _, _, _) => RequestEnds(before, event);
    case List => ListEnds(before, event.now);
    case Decide(_, _, _, _) => DecideEnds(before, event);
    case Claim(_, _, _, _, _) => ClaimEnds(before, event);
    case ClaimMatching(_, _, _, _) => ClaimEnds(before, event);
    case Finish(id, succeeded) => FinishIsAnswered(before, event.now, id, succeeded);
    case Recover => RecoverEnds(before, event.now);
    case RemoveAsset(_) =>
    case PurgeTerminal(cutoff) => PurgeEnds(before, event.now, cutoff);
  }

  lemma RunRecordsEnds(collections: seq<Collection>, events: seq<Event>, n: nat, id: string)
    requires Run(collections, events) && n < |events|
    requires id in collections[n].records && !HasEnded(collections[n].records[id])
    requires id in collections[n + 1].records && HasEnded(collections[n + 1].records[id])
    ensures EndedAtEvent(collections[n + 1].records[id], events[n].now)
  {
    RunIsValid(collections, events, n);
    assert Next(collections, events, n);
    StepRecordsEnds(collections[n], events[n]);
  }

  predicate Purges(event: Event) {
    event.operation.RemoveAsset? || event.operation.PurgeTerminal?
  }

  lemma NinetyDaysKeep(record: Record, ended: int, event: Event)
    requires EndedAtEvent(record, ended) && !Purges(event)
    ensures !event.operation.Finish? ==> (MayLeave(record, event) <==> ended + NINETY_DAYS < event.now)
    ensures event.operation.Finish? ==> !MayLeave(record, event)
  {
  }

  /**
   From the event that ends it on, a record stays for ninety days, unchanged: without purges and
   deletions it is there as long as no event comes later than that.
   */
  lemma EndedStaysForNinetyDays(collections: seq<Collection>, events: seq<Event>, m: nat, n: nat, id: string)
    requires Run(collections, events) && m < n <= |events|
    requires id in collections[m].records && !HasEnded(collections[m].records[id])
    requires id in collections[m + 1].records && HasEnded(collections[m + 1].records[id])
    requires forall i | m < i < n :: !Purges(events[i]) && events[i].now <= events[m].now + NINETY_DAYS
    ensures id in collections[n].records && collections[n].records[id] == collections[m + 1].records[id]
  {
    RunRecordsEnds(collections, events, m, id);
    forall i | m + 1 <= i < n
      ensures !MayLeave(collections[m + 1].records[id], events[i])
    {
      NinetyDaysKeep(collections[m + 1].records[id], events[m].now, events[i]);
    }
    EndedIsKept(collections, events, m + 1, n, id);
  }

  lemma GoneStaysGone(collections: seq<Collection>, events: seq<Event>, m: nat, n: nat, id: string)
    requires Run(collections, events) && m <= n < |events|
    requires id in collections[m].records && id !in collections[n].records
    ensures id !in collections[n + 1].records
  {
    RunStep(collections, events, n);
    if id in collections[n + 1].records {
      assert collections[n + 1].records[id].id == id && Arrives(collections[n + 1].records[id], events[n]);
      IdIsNotReused(collections, events, m, n, id);
    }
  }

  /** As long as it is there at all, an ended record is what it was when it ended, in every field. */
  lemma {:induction false} EndedNeverChanges(collections: seq<Collection>, events: seq<Event>, m: nat, n: nat, id: string)
    requires Run(collections, events) && m <= n <= |events|
    requires id in collections[m].records && HasEnded(collections[m].records[id])
    ensures id in collections[n].records ==> collections[n].records[id] == collections[m].records[id]
    decreases n
  {
    if m < n {
      EndedNeverChanges(collections, events, m, n - 1, id);
      RunKeeps(collections, events, n - 1);
      if id !in collections[n - 1].records { GoneStaysGone(collections, events, m, n - 1, id); }
    }
  }

  lemma ListingDropsTheOutlived(collection: Collection, event: Event, id: string)
    requires Valid(collection) && (event.operation.List? || event.operation.Recover?) && id in collection.records
    requires HasEnded(collection.records[id]) && EndsBefore(collection.records[id], event.now - NINETY_DAYS)
    ensures id !in Step(collection, event).collection.records
  {
    if event.operation.List? { NormalizeKeeps(collection, event.now, id); } else { RecoverKeeps(collection, event.now, id); }
  }

  /** And after them it goes: a listing or a restart that comes later keeps nothing of it. */
  lemma EndedGoesAfterNinetyDays(collections: seq<Collection>, events: seq<Event>, m: nat, n: nat, id: string)
    requires Run(collections, events) && m < n < |events|
    requires id in collections[m].records && !HasEnded(collections[m].records[id])
    requires id in collections[m + 1].records && HasEnded(collections[m + 1].records[id])
    requires (events[n].operation.List? || events[n].operation.Recover?) && events[m].now + NINETY_DAYS < events[n].now
    ensures id !in collections[n + 1].records
  {
    RunRecordsEnds(collections, events, m, id);
    EndedNeverChanges(collections, events, m + 1, n, id);
    if id in collections[n].records {
      RunIsValid(collections, events, n);
      assert Next(collections, events, n);
      ListingDropsTheOutlived(collections[n], events[n], id);
    } else {
      GoneStaysGone(collections, events, m + 1, n, id);
    }
  }
}
