/**
 The deletion service itself: prepare a marker, run the clean-up stages under it, and run them
 again for every marker found at a restart. Each stage is tied to the clean-up writes of
 `AssetDeletion`, whose lemmas say what happens when a run is cut short between two of them.
 */
module AssetDeletionService {
  import opened Common
  import opened AssetDeletion
  import opened AuditStage

  datatype Prepared = Absent | ActiveWork | Ready(op: Operation)

  datatype Execution = Finished | JobInFlight | AuditInvalid | CleanupFailed | StateInvalid

  datatype Deletion = AlreadyAbsent | Refused | Done(op: Operation) | Stopped(reason: Execution)

  predicate Busy(world: World, key: Key) {
    || (exists id :: id in world.jobs && JobOf(world.jobs[id], key) && InFlight(world.jobs[id]))
    || (exists id :: id in world.verifications && world.verifications[id].key == key && world.verifications[id].pending)
  }

  /** A job of the marker that has not ended yet. */
  predicate ListedInFlight(world: World, op: Operation) {
    exists id :: id in world.jobs && ListedJob(op, id, world.jobs[id]) && InFlight(world.jobs[id])
  }

  /** A job of the asset that the marker does not list. */
  predicate UnlistedJob(world: World, op: Operation) {
    exists id :: id in world.jobs && JobOf(world.jobs[id], op.key) && id !in op.jobs
  }

  lemma ClearableExactly(world: World, op: Operation)
    ensures Clearable(world, op) <==> !ListedInFlight(world, op) && !UnlistedJob(world, op)
  {
    if !ListedInFlight(world, op) && !UnlistedJob(world, op) {
      forall id | id in world.jobs
        ensures JobOf(world.jobs[id], op.key) ==> id in op.jobs
        ensures ListedJob(op, id, world.jobs[id]) ==> !InFlight(world.jobs[id])
      {
      }
    }
  }

  /** A marker that lists the jobs of an idle asset leaves none in the way. */
  lemma MarkedIsClearable(world: World, op: Operation)
    requires !Busy(world, op.key) && op.jobs == set id | id in world.jobs && JobOf(world.jobs[id], op.key)
    ensures
      var marked := world.(markers := world.markers[op.key.asset := op]);
      Clearable(marked, op) && ListsOwnJobs(marked, op)
  {
    forall id | id in world.jobs && JobOf(world.jobs[id], op.key)
      ensures !InFlight(world.jobs[id])
    {
    }
  }

  /** What stands in the way of a deletion, field by field. */
  lemma ObstaclesExactly(world: World, op: Operation)
    ensures ListedInFlight(world, op) <==>
      exists id :: id in world.jobs && world.jobs[id].organization == op.key.organization && id in op.jobs
        && world.jobs[id].state in {Queued, Running, Cancelling}
    ensures UnlistedJob(world, op) <==>
      exists id :: id in world.jobs && world.jobs[id].organization == op.key.organization
        && world.jobs[id].asset == Some(op.key.asset) && id !in op.jobs
    ensures Busy(world, op.key) <==>
      || (exists id :: id in world.jobs && world.jobs[id].organization == op.key.organization
            && world.jobs[id].asset == Some(op.key.asset) && world.jobs[id].state in {Queued, Running, Cancelling})
      || (exists id :: id in world.verifications && world.verifications[id].key == op.key && world.verifications[id].pending)
    ensures SealHolds(world, op.key.organization) <==>
      (op.key.organization in world.seals ==>
         forall id :: (id in world.seals[op.key.organization] <==>
                         id in world.audit && world.audit[id].organization == op.key.organization)
           && (id in world.seals[op.key.organization] && id in world.audit ==>
                 world.seals[op.key.organization][id] == world.audit[id]))
  {
    SealHoldsExactly(world, op.key.organization);
  }

  lemma SealHoldsExactly(world: World, organization: string)
    ensures SealHolds(world, organization) <==>
      (organization in world.seals ==>
         forall id :: (id in world.seals[organization] <==> id in world.audit && world.audit[id].organization == organization)
           && (id in world.seals[organization] && id in world.audit ==> world.seals[organization][id] == world.audit[id]))
  {
    if organization in world.seals {
      var sealed, events := world.seals[organization], EventsOf(world.audit, organization);
      if forall id :: (id in sealed <==> id in world.audit && world.audit[id].organization == organization)
           && (id in sealed && id in world.audit ==> sealed[id] == world.audit[id]) {
        assert sealed.Keys == events.Keys;
        assert sealed == events;
      }
    }
  }

  class ActiveAssetDeletionService {
    var world: World
    ghost var log: seq<Write>

    constructor (found: World)
      ensures world == found && log == []
    {
      world := found;
      log := [];
    }

    /** One atomic write. */
    method Perform(op: Operation, write: Write)
      modifies this
      ensures world == Apply(old(world), op, write) && log == old(log) + [write]
    {
      world := Apply(world, op, write);
      log := log + [write];
    }

    /** An existing marker is taken up again; otherwise an idle asset gets one that lists all its jobs. */
    method Prepare(key: Key, receipt: string) returns (prepared: Prepared)
      modifies this
      ensures key.asset in old(world).markers ==>
        && world == old(world)
        && prepared == (if old(world).markers[key.asset].key.organization == key.organization
                        then Ready(old(world).markers[key.asset]) else Absent)
      ensures key.asset !in old(world).markers ==>
        && (prepared.Absent? <==> key !in old(world).assets)
        && (prepared.ActiveWork? <==> key in old(world).assets && Busy(old(world), key))
      ensures !prepared.Ready? ==> world == old(world)
      ensures prepared.Ready? && key.asset !in old(world).markers ==>
        && prepared.op.key == key && prepared.op.deletionReceipt == receipt
        && world == old(world).(markers := old(world).markers[key.asset := prepared.op])
        && Clearable(world, prepared.op) && ListsOwnJobs(world, prepared.op)
    {
      if key.asset in world.markers {
        var op := world.markers[key.asset];
        return if op.key.organization == key.organization then Ready(op) else Absent;
      }
      if key !in world.assets { return Absent; }
      if Busy(world, key) { return ActiveWork; }
      var op := Operation(key, receipt, set id | id in world.jobs && JobOf(world.jobs[id], key));
      MarkedIsClearable(world, op);
      world := world.(markers := world.markers[key.asset := op]);
      return Ready(op);
    }

    method DeleteVerifications(op: Operation)
      modifies this
      ensures EarlyReaches(old(world), world, op) && GrowsBesides(old(log), log)
      ensures world == old(world).(verifications := world.verifications)
      ensures forall id | id in world.verifications :: world.verifications[id].key != op.key
    {
      var ids := set id | id in world.verifications && world.verifications[id].key == op.key;
      EarlyReachesItself(world, op);
      while ids != {}
        invariant EarlyReaches(old(world), world, op) && GrowsBesides(old(log), log)
        invariant world == old(world).(verifications := world.verifications)
        invariant forall id | id in ids :: id in world.verifications && world.verifications[id].key == op.key
        invariant forall id | id in world.verifications && world.verifications[id].key == op.key :: id in ids
        decreases |ids|
      {
        var id :| id in ids;
        EarlyReachesNext(old(world), world, op, RemoveVerification(id));
        GrowsByOne(old(log), log, RemoveVerification(id));
        Perform(op, RemoveVerification(id));
        ids := ids - {id};
      }
    }

    /** Listed jobs that are gone are skipped; one that is still in flight stops the run. */
    method DeleteJobs(op: Operation) returns (ok: bool)
      modifies this
      ensures EarlyReaches(old(world), world, op) && GrowsBesides(old(log), log)
      ensures world == old(world).(jobs := world.jobs)
      ensures ok <==> !ListedInFlight(old(world), op)
      ensures ok ==> forall id | id in world.jobs :: !ListedJob(op, id, world.jobs[id])
      ensures forall id | id in world.jobs :: id in old(world).jobs && world.jobs[id] == old(world).jobs[id]
      ensures forall id | id in old(world).jobs && !ListedJob(op, id, old(world).jobs[id]) ::
        id in world.jobs && world.jobs[id] == old(world).jobs[id]
    {
      var ids := op.jobs;
      ok := true;
      EarlyReachesItself(world, op);
      while ids != {}
        invariant EarlyReaches(old(world), world, op) && GrowsBesides(old(log), log)
        invariant world == old(world).(jobs := world.jobs)
        invariant ids <= op.jobs
        invariant forall id | id in world.jobs :: id in old(world).jobs && world.jobs[id] == old(world).jobs[id]
        invariant forall id | id in world.jobs && ListedJob(op, id, world.jobs[id]) :: id in ids
        invariant forall id | id in old(world).jobs ::
          if id in world.jobs then true else ListedJob(op, id, old(world).jobs[id]) && !InFlight(old(world).jobs[id])
        decreases |ids|
      {
        var id :| id in ids;
        if id in world.jobs && world.jobs[id].organization == op.key.organization {
          if InFlight(world.jobs[id]) { return false; }
          EarlyReachesNext(old(world), world, op, RemoveJob(id));
          GrowsByOne(old(log), log, RemoveJob(id));
          Perform(op, RemoveJob(id));
        }
        ids := ids - {id};
      }
    }

    /** Builds a chain over the present events if there is none. */
    method EnsureSeal(op: Operation)
      requires SealHolds(world, op.key.organization)
      modifies this
      ensures log == old(log) + Bootstrap(old(world), op)
      ensures CleansTo(old(world), op, Bootstrap(old(world), op), world)
      ensures op.key.organization in world.seals && SealHolds(world, op.key.organization)
      ensures world == old(world).(seals := world.seals)
    {
      assert CleansTo(world, op, [], world);
      if op.key.organization !in world.seals {
        CleansToStep(world, op, [], world, BuildSeal);
        assert [] + [BuildSeal] == [BuildSeal];
        Perform(op, BuildSeal);
      }
    }

    method RewriteEvent(op: Operation, id: string, ghost start: World, ghost ids: seq<string>)
      requires IsLinked(start, op, id) && id !in ids
      requires CleansTo(start, op, Rewrites(ids), world)
      requires world == start.(audit := Rewritten(start.audit, op, ids))
      modifies this
      ensures log == old(log) + [AnonymizeEvent(id)]
      ensures CleansTo(start, op, Rewrites(ids + [id]), world)
      ensures world == start.(audit := Rewritten(start.audit, op, ids + [id]))
    {
      CleansToStep(start, op, Rewrites(ids), world, AnonymizeEvent(id));
      RewrittenOneMore(start.audit, op, ids, id);
      RewritesNext(ids, id);
      Perform(op, AnonymizeEvent(id));
    }

    /** The linked events, in some order. */
    method ListLinked(op: Operation) returns (ids: seq<string>)
      ensures Enumerates(ids, world, op)
    {
      var pending := set id | id in world.audit && Linked(world.audit[id], op);
      ids := [];
      while pending != {}
        invariant forall id | id in pending :: IsLinked(world, op, id) && id !in ids
        invariant forall i | 0 <= i < |ids| :: IsLinked(world, op, ids[i])
        invariant forall id | id in world.audit :: IsLinked(world, op, id) ==> id in pending || id in ids
        invariant forall i, j | 0 <= i < j < |ids| :: ids[i] != ids[j]
        decreases |pending|
      {
        var id :| id in pending;
        ids := ids + [id];
        pending := pending - {id};
      }
    }

    /** Detaches every linked event, one file at a time. */
    method RewriteEvents(op: Operation, ids: seq<string>)
      requires Enumerates(ids, world, op)
      modifies this
      ensures log == old(log) + Rewrites(ids) && CleansTo(old(world), op, Rewrites(ids), world)
      ensures world == old(world).(audit := ClearedAudit(old(world).audit, op))
    {
      ghost var start, done := world, [];
      NothingRewritten(world, op);
      for i := 0 to |ids|
        invariant done == ids[..i] && log == old(log) + Rewrites(done)
        invariant CleansTo(start, op, Rewrites(done), world) && world == start.(audit := Rewritten(start.audit, op, done))
      {
        PrefixNext(ids, i);
        assert IsLinked(start, op, ids[i]);
        RewriteEvent(op, ids[i], start, done);
        LogNext(old(log), Rewrites(done), AnonymizeEvent(ids[i]));
        done := ids[..i + 1];
      }
      assert done == ids;
      RewrittenIsCleared(start, op, ids);
    }

    /** Swaps in a chain over the present events. */
    method Rotate(op: Operation)
      requires op.key.organization in world.seals
      modifies this
      ensures log == old(log) + [DropSeal, BuildSeal]
      ensures CleansTo(old(world), op, [DropSeal, BuildSeal], world)
      ensures op.key.organization in world.seals && SealHolds(world, op.key.organization)
      ensures world == old(world).(seals := world.seals)
    {
      assert CleansTo(world, op, [], world);
      CleansToStep(world, op, [], world, DropSeal);
      assert [] + [DropSeal] == [DropSeal];
      Perform(op, DropSeal);
      CleansToStep(old(world), op, [DropSeal], world, BuildSeal);
      assert [DropSeal] + [BuildSeal] == [DropSeal, BuildSeal];
      Perform(op, BuildSeal);
    }

    method RotateAfter(op: Operation, ids: seq<string>)
      requires op.key.organization in world.seals
      requires ids == [] ==> SealHolds(world, op.key.organization)
      modifies this
      ensures log == old(log) + Rotation(ids) && CleansTo(old(world), op, Rotation(ids), world)
      ensures op.key.organization in world.seals && SealHolds(world, op.key.organization)
      ensures world == old(world).(seals := world.seals)
    {
      if ids != [] { Rotate(op); }
    }

    /** The writes of the stage, in three parts. */
    method WriteAudit(op: Operation) returns (ids: seq<string>)
      requires SealHolds(world, op.key.organization)
      modifies this
      ensures Enumerates(ids, old(world), op)
      ensures log == old(log) + AuditWrites(old(world), op, ids)
      ensures CleansTo(old(world), op, AuditWrites(old(world), op, ids), world)
      ensures world == old(world).(audit := ClearedAudit(old(world).audit, op), seals := world.seals)
      ensures op.key.organization in world.seals && SealHolds(world, op.key.organization)
    {
      ghost var start := world;
      EnsureSeal(op);
      ghost var built := world;
      ids := ListLinked(op);
      RewriteEvents(op, ids);
      ghost var rewritten := world;
      if ids == [] { NothingLinked(built.audit, op); }
      RotateAfter(op, ids);
      assert CleansTo(start, op, AuditWrites(start, op, ids), world) by {
        StageJoins(start, built, rewritten, world, op, ids);
      }
      assert log == old(log) + AuditWrites(start, op, ids) by {
        LogJoins(old(log), Bootstrap(start, op), Rewrites(ids), Rotation(ids));
      }
    }

    /**
     Refuses to start on a seal that does not hold. Otherwise every linked event is detached, and the
     seal is built anew over the events if any was linked.
     */
    method AnonymizeAudit(op: Operation) returns (sound: bool, ids: seq<string>)
      modifies this
      ensures sound <==> SealHolds(old(world), op.key.organization)
      ensures !sound ==> world == old(world) && log == old(log)
      ensures sound ==>
        && Enumerates(ids, old(world), op)
        && log == old(log) + AuditWrites(old(world), op, ids)
        && CleansTo(old(world), op, AuditWrites(old(world), op, ids), world)
        && world == old(world).(audit := ClearedAudit(old(world).audit, op), seals := world.seals)
        && op.key.organization in world.seals && SealHolds(world, op.key.organization)
      ensures sound ==> IsDetached(old(world).audit, world.audit, op)
    {
      ClearedAuditIsDetached(world.audit, op);
      ids := [];
      sound := op.key.organization !in world.seals || world.seals[op.key.organization] == EventsOf(world.audit, op.key.organization);
      if sound { ids := WriteAudit(op); }
    }

    method DeleteRecurrences(op: Operation)
      modifies this
      ensures CleanupReaches(old(world), world, op) && GrowsBesides(old(log), log)
      ensures world == old(world).(recurrences := world.recurrences)
      ensures forall id | id in world.recurrences :: world.recurrences[id] != op.key
    {
      var ids := set id | id in world.recurrences && world.recurrences[id] == op.key;
      CleanupReachesItself(world, op);
      while ids != {}
        invariant CleanupReaches(old(world), world, op) && GrowsBesides(old(log), log)
        invariant world == old(world).(recurrences := world.recurrences)
        invariant forall id | id in ids :: id in world.recurrences && world.recurrences[id] == op.key
        invariant forall id | id in world.recurrences && world.recurrences[id] == op.key :: id in ids
        decreases |ids|
      {
        var id :| id in ids;
        CleanupReachesNext(old(world), world, op, RemoveRecurrence(id));
        GrowsByOne(old(log), log, RemoveRecurrence(id));
        Perform(op, RemoveRecurrence(id));
        ids := ids - {id};
      }
    }

    method RemoveAssetApprovals(op: Operation)
      modifies this
      ensures CleanupReaches(old(world), world, op) && GrowsBesides(old(log), log)
      ensures world == old(world).(approvals := world.approvals)
      ensures forall id | id in world.approvals :: !ApprovalOf(world.approvals[id], op.key)
    {
      CleanupReachesItself(world, op);
      CleanupReachesNext(world, world, op, RemoveApprovals);
      GrowsByOne(log, log, RemoveApprovals);
      Perform(op, RemoveApprovals);
    }

    method DeleteReceipts(op: Operation)
      modifies this
      ensures CleanupReaches(old(world), world, op) && GrowsBesides(old(log), log)
      ensures world == old(world).(receipts := world.receipts)
      ensures NoReceipt(world, op.key)
    {
      var ids := set id | id in world.receipts && ReceiptOf(world.receipts[id], op.key);
      CleanupReachesItself(world, op);
      while ids != {}
        invariant CleanupReaches(old(world), world, op) && GrowsBesides(old(log), log)
        invariant world == old(world).(receipts := world.receipts)
        invariant forall id | id in ids :: id in world.receipts && ReceiptOf(world.receipts[id], op.key)
        invariant forall id | id in world.receipts && ReceiptOf(world.receipts[id], op.key) :: id in ids
        decreases |ids|
      {
        var id :| id in ids;
        CleanupReachesNext(old(world), world, op, RemoveReceipt(id));
        GrowsByOne(old(log), log, RemoveReceipt(id));
        Perform(op, RemoveReceipt(id));
        ids := ids - {id};
      }
    }

    method DeleteAsset(op: Operation)
      requires NoReceipt(world, op.key)
      modifies this
      ensures CleanupReaches(old(world), world, op) && GrowsBesides(old(log), log)
      ensures world == old(world).(assets := world.assets)
      ensures op.key !in world.assets
    {
      CleanupReachesItself(world, op);
      if op.key in world.assets {
        CleanupReachesNext(world, world, op, RemoveAsset);
        GrowsByOne(log, log, RemoveAsset);
        Perform(op, RemoveAsset);
      }
    }

    /** The stages behind the audit stage. */
    method ClearRecords(op: Operation)
      modifies this
      ensures CleanupReaches(old(world), world, op) && GrowsBesides(old(log), log)
      ensures world == old(world).(recurrences := world.recurrences, approvals := world.approvals,
                                   receipts := world.receipts, assets := world.assets)
      ensures forall id | id in world.recurrences :: world.recurrences[id] != op.key
      ensures forall id | id in world.approvals :: !ApprovalOf(world.approvals[id], op.key)
      ensures NoReceipt(world, op.key) && op.key !in world.assets
    {
      DeleteRecurrences(op);
      ghost var recurrent, first := world, log;
      RemoveAssetApprovals(op);
      CleanupReachesJoin(old(world), recurrent, world, op);
      GrowsJoin(old(log), first, log);
      ghost var approved, second := world, log;
      DeleteReceipts(op);
      CleanupReachesJoin(old(world), approved, world, op);
      GrowsJoin(old(log), second, log);
      ghost var receipted, third := world, log;
      DeleteAsset(op);
      CleanupReachesJoin(old(world), receipted, world, op);
      GrowsJoin(old(log), third, log);
    }

    /** The stages after the jobs; what they leave of the asset can only be a job. */
    method ClearRest(op: Operation) returns (sound: bool, ghost ids: seq<string>, ghost audited: seq<Write>)
      modifies this
      ensures sound <==> SealHolds(old(world), op.key.organization)
      ensures !sound ==> world == old(world)
      ensures sound ==>
        && Enumerates(ids, old(world), op) && audited == old(log) + AuditWrites(old(world), op, ids)
        && GrowsBesides(audited, log)
      ensures sound ==>
        && CleanupReaches(old(world), world, op)
        && world == World(world.assets, old(world).verifications, old(world).jobs, ClearedAudit(old(world).audit, op),
                          world.recurrences, world.approvals, world.receipts, old(world).markers, world.seals)
        && (forall id | id in world.recurrences :: world.recurrences[id] != op.key)
        && (forall id | id in world.approvals :: !ApprovalOf(world.approvals[id], op.key))
        && NoReceipt(world, op.key) && op.key !in world.assets
        && op.key.organization in world.seals && SealHolds(world, op.key.organization)
    {
      var listed;
      sound, listed := AnonymizeAudit(op);
      ids, audited := listed, log;
      if !sound { return; }
      assert CleanupReaches(old(world), world, op);
      ghost var rewritten := world;
      ClearRecords(op);
      CleanupReachesJoin(old(world), rewritten, world, op);
    }

    /** The stages before the audit stage. */
    method ClearEarly(op: Operation) returns (ended: bool)
      modifies this
      ensures EarlyReaches(old(world), world, op) && GrowsBesides(old(log), log)
      ensures world == old(world).(verifications := world.verifications, jobs := world.jobs)
      ensures ended <==> !ListedInFlight(old(world), op)
      ensures ended ==>
        && (forall id | id in world.verifications :: world.verifications[id].key != op.key)
        && (forall id | id in world.jobs :: !ListedJob(op, id, world.jobs[id]))
        && (UnlistedJob(world, op) <==> UnlistedJob(old(world), op))
    {
      DeleteVerifications(op);
      ghost var verified, first := world, log;
      assert ListedInFlight(world, op) <==> ListedInFlight(old(world), op);
      ended := DeleteJobs(op);
      EarlyReachesJoin(old(world), verified, world, op);
      GrowsJoin(old(log), first, log);
      if ended { UnlistedJobsStay(old(world), world, op); }
    }

    /**
     The clean-up completes exactly when every job of the asset is listed and ended, the integrity
     check of the audit events passes and the marker is the one it was started with; then the world
     is the cleared one. Each of the four ways to stop has its exact condition.
     */
    method Execute(op: Operation) returns (outcome: Execution)
      modifies this
      ensures AttemptReaches(old(world), world, op)
      ensures outcome.Finished? <==> Completable(old(world), op) && MarkerIs(old(world), op)
      ensures outcome.JobInFlight? <==> ListedInFlight(old(world), op)
      ensures outcome.AuditInvalid? <==> !ListedInFlight(old(world), op) && !SealHolds(old(world), op.key.organization)
      ensures outcome.CleanupFailed? <==>
        !ListedInFlight(old(world), op) && SealHolds(old(world), op.key.organization) && UnlistedJob(old(world), op)
      ensures outcome.Finished? ==> world == Cleared(old(world), op) && Clean(world, op)
      ensures outcome.Finished? ==> LogsWhole(old(world), op, old(log), log)
      ensures !outcome.Finished? ==> world.markers == old(world).markers
      ensures SealHolds(world, op.key.organization) <==> SealHolds(old(world), op.key.organization)
    {
      ClearableExactly(world, op);
      var allEnded := ClearEarly(op);
      if !allEnded { return JobInFlight; }
      ghost var ended, early := world, log;
      EarlyIsCleanup(old(world), ended, op);
      var sound;
      ghost var ids, audited;
      sound, ids, audited := ClearRest(op);
      if !sound { return AuditInvalid; }
      CleanupReachesJoin(old(world), ended, world, op);
      assert UnlistedJob(world, op) <==> UnlistedJob(old(world), op);
      if exists id :: id in world.jobs && JobOf(world.jobs[id], op.key) {
        return CleanupFailed;
      }
      if op.key.asset in world.markers {
        if world.markers[op.key.asset] != op { return StateInvalid; }
        CleanupReachesNext(old(world), world, op, RemoveMarker);
        GrowsByOne(audited, log, RemoveMarker);
        Perform(op, RemoveMarker);
      }
      StagesAreLogged(old(world), ended, op, ids, old(log), early, audited, log);
      NothingLinkedIsChanged(ended.audit, op);
      CleanupEndsCleared(old(world), world, op);
      return Finished;
    }

    /** Without an earlier marker a deletion that starts completes, unless the integrity check fails. */
    method Delete(key: Key, receipt: string) returns (deletion: Deletion)
      modifies this
      ensures key.asset !in old(world).markers ==>
        && (deletion == AlreadyAbsent <==> key !in old(world).assets)
        && (deletion == Refused <==> key in old(world).assets && Busy(old(world), key))
        && (deletion.Stopped? ==> deletion.reason == AuditInvalid)
        && (deletion.Stopped? <==> key in old(world).assets && !Busy(old(world), key) && !SealHolds(old(world), key.organization))
      ensures deletion.Done? && key.asset !in old(world).markers ==>
        deletion.op.key == key && ListsOwnJobs(old(world), deletion.op)
      ensures deletion.Done? && key.asset in old(world).markers ==> deletion.op == old(world).markers[key.asset]
      ensures deletion.Done? ==> world == Cleared(old(world), deletion.op)
      ensures deletion.AlreadyAbsent? || deletion.Refused? ==> world == old(world)
    {
      var prepared := Prepare(key, receipt);
      match prepared
      case Absent => return AlreadyAbsent;
      case ActiveWork => return Refused;
      case Ready(op) =>
        ghost var ready := world;
        var outcome := Execute(op);
        if outcome != Finished { return Stopped(outcome); }
        assert Cleared(ready, op).markers == Cleared(old(world), op).markers;
        return Done(op);
    }

    /**
     A restart takes up every marker, and one that fails does not stop the others: each marker
     whose clean-up could finish is gone afterwards, together with every trace of its asset, and
     each marker of an organization whose integrity check fails stays.
     */
    method RecoverPending() returns (recovered: nat)
      modifies this
      ensures forall asset | asset in old(world).markers ::
        old(world).markers[asset].key.asset == asset && Completable(old(world), old(world).markers[asset]) ==>
          asset !in world.markers && NoTrace(world, old(world).markers[asset].key)
      ensures forall asset | asset in old(world).markers ::
        !SealHolds(old(world), old(world).markers[asset].key.organization) ==> asset in world.markers
      ensures forall asset | asset in world.markers ::
        asset in old(world).markers && world.markers[asset] == old(world).markers[asset]
      ensures recovered == |old(world).markers| - |world.markers|
    {
      var names := world.markers.Keys;
      ghost var found := world;
      recovered := 0;
      NothingRecovered(world);
      while names != {}
        invariant Recovering(found, world, names, recovered)
        decreases |names|
      {
        var asset :| asset in names;
        ghost var before := world;
        var done := RecoverOne(asset);
        OneMoreRecovered(found, before, world, names, asset, done, recovered);
        names := names - {asset};
        if done {
          recovered := recovered + 1;
        }
      }
      AllRecovered(found, world, recovered);
    }

    /** Recovery of one marker; a marker under another asset's name is left alone. */
    method RecoverOne(asset: string) returns (done: bool)
      requires asset in world.markers
      modifies this
      ensures Keeps(old(world), world) && Recovered(old(world), world, asset)
      ensures world.markers == if done then old(world).markers - {asset} else old(world).markers
    {
      var op := world.markers[asset];
      if op.key.asset != asset {
        KeepsItself(world);
        return false;
      }
      var outcome := Execute(op);
      AttemptIsCleanup(old(world), world, op);
      AttemptKeeps(old(world), world, op);
      return outcome == Finished;
    }
  }

  /** What the clean-up of one marker takes from no other. */
  ghost predicate Keeps(before: World, after: World) {
    && (forall organization :: SealHolds(after, organization) <==> SealHolds(before, organization))
    && (forall op :: Clearable(before, op) ==> Clearable(after, op))
    && (forall key :: NoTrace(before, key) ==> NoTrace(after, key))
  }

  lemma KeepsItself(world: World)
    ensures Keeps(world, world)
  {
  }

  lemma AttemptKeeps(before: World, after: World, op: Operation)
    requires CleanupReaches(before, after, op)
    requires SealHolds(after, op.key.organization) <==> SealHolds(before, op.key.organization)
    ensures Keeps(before, after)
  {
    SealsStay(before, after, op);
    forall other
      ensures Clearable(before, other) ==> Clearable(after, other)
    {
      CleanupKeepsOthers(before, after, op, other);
    }
    forall key
      ensures NoTrace(before, key) ==> NoTrace(after, key)
    {
      CleanupKeepsOthers(before, after, op, op.(key := key));
    }
  }

  /** What recovery has made of one marker that it has visited. */
  ghost predicate Recovered(found: World, world: World, asset: string)
    requires asset in found.markers
  {
    var op := found.markers[asset];
    && (op.key.asset == asset && Completable(found, op) ==> asset !in world.markers && NoTrace(world, op.key))
    && (!SealHolds(found, op.key.organization) ==> asset in world.markers)
  }

  /** Recovery with the markers in `left` still to visit. */
  ghost predicate Recovering(found: World, world: World, left: set<string>, recovered: nat) {
    && left <= world.markers.Keys
    && (forall asset | asset in world.markers :: asset in found.markers && world.markers[asset] == found.markers[asset])
    && Keeps(found, world)
    && (forall asset | asset in found.markers && asset !in left :: Recovered(found, world, asset))
    && recovered == |found.markers| - |world.markers|
  }

  lemma NothingRecovered(world: World)
    ensures Recovering(world, world, world.markers.Keys, 0)
  {
    KeepsItself(world);
  }

  lemma KeepsJoin(a: World, b: World, c: World)
    requires Keeps(a, b) && Keeps(b, c)
    ensures Keeps(a, c)
  {
  }

  /** What was recovered before stays so. */
  lemma RecoveredStays(found: World, before: World, after: World, asset: string, done: string)
    requires asset in found.markers && Recovered(found, before, asset) && Keeps(before, after)
    requires asset != done && (asset in after.markers <==> asset in before.markers)
    ensures Recovered(found, after, asset)
  {
  }

  /** Recovery of a marker, seen from where recovery began. */
  lemma RecoveredSince(found: World, before: World, after: World, asset: string)
    requires asset in before.markers && asset in found.markers && before.markers[asset] == found.markers[asset]
    requires Keeps(found, before) && Recovered(before, after, asset)
    ensures Recovered(found, after, asset)
  {
  }

  lemma OneMoreRecovered(
    found: World, before: World, after: World, left: set<string>, asset: string, done: bool, recovered: nat)
    requires Recovering(found, before, left, recovered) && asset in left
    requires Keeps(before, after) && Recovered(before, after, asset)
    requires after.markers == if done then before.markers - {asset} else before.markers
    ensures Recovering(found, after, left - {asset}, if done then recovered + 1 else recovered)
  {
    KeepsJoin(found, before, after);
    forall other | other in found.markers && other !in left - {asset}
      ensures Recovered(found, after, other)
    {
      if other == asset {
        RecoveredSince(found, before, after, asset);
      } else {
        RecoveredStays(found, before, after, other, asset);
      }
    }
    if done { assert after.markers.Keys == before.markers.Keys - {asset}; }
  }

  lemma AllRecovered(found: World, world: World, recovered: nat)
    requires Recovering(found, world, {}, recovered)
    ensures forall asset | asset in found.markers ::
      found.markers[asset].key.asset == asset && Completable(found, found.markers[asset]) ==>
        asset !in world.markers && NoTrace(world, found.markers[asset].key)
    ensures forall asset | asset in found.markers ::
      !SealHolds(found, found.markers[asset].key.organization) ==> asset in world.markers
  {
    forall asset | asset in found.markers
      ensures Recovered(found, world, asset)
    {
    }
  }

  lemma SealsStay(before: World, after: World, op: Operation)
    requires CleanupReaches(before, after, op)
    requires SealHolds(after, op.key.organization) <==> SealHolds(before, op.key.organization)
    ensures forall organization :: SealHolds(after, organization) <==> SealHolds(before, organization)
  {
    forall organization | organization != op.key.organization
      ensures SealHolds(after, organization) <==> SealHolds(before, organization)
    {
      OtherChainsStay(before, after, op, organization);
    }
  }

  lemma CleanupKeepsOthers(before: World, after: World, op: Operation, other: Operation)
    requires CleanupReaches(before, after, op)
    ensures Clearable(before, other) ==> Clearable(after, other)
    ensures NoTrace(before, other.key) ==> NoTrace(after, other.key)
  {
    var writes :| CleansTo(before, op, writes, after);
    if Clearable(before, other) { CleanupKeepsClearable(before, op, writes, after, other); }
    if NoTrace(before, other.key) { TraceNeverReturns(before, op, writes, after, other.key); }
  }

  lemma UnlistedJobsStay(before: World, after: World, op: Operation)
    requires forall id | id in before.jobs && !ListedJob(op, id, before.jobs[id]) ::
      id in after.jobs && after.jobs[id] == before.jobs[id]
    requires forall id | id in after.jobs :: id in before.jobs && after.jobs[id] == before.jobs[id]
    ensures UnlistedJob(after, op) <==> UnlistedJob(before, op)
  {
    if UnlistedJob(before, op) {
      var id :| id in before.jobs && JobOf(before.jobs[id], op.key) && id !in op.jobs;
      assert id in after.jobs;
    }
  }
}
