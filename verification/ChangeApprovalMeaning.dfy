/**
 What the operations on an approval collection mean, in the fields of its records: which records
 stay and which go, what becomes of each, and which answer a caller gets.
 */
module ChangeApprovalMeaning {
  import opened Common
  import opened ChangeApprovals
  import opened ChangeApprovalRuns

  const NINETY_DAYS := 90 * 24 * 3_600 * 1_000_000
  const ONE_DAY := 24 * 3_600 * 1_000_000

  predicate HasEnded(record: Record) {
    record.status.Consumed? || record.status.Rejected? || record.status.Expired? || record.status.Interrupted?
  }

  predicate HasExpired(record: Record, now: int) {
    (record.status.Pending? || record.status.Approved?) && record.expiresAt <= now
  }

  /** The end of a record is its consumption, otherwise its decision, otherwise its request. */
  predicate EndsBefore(record: Record, cutoff: int) {
    if record.consumedAt.Some? then record.consumedAt.value < cutoff
    else if record.decidedAt.Some? then record.decidedAt.value < cutoff
    else record.requestedAt < cutoff
  }

  /** Ended before the cutoff; a record that expires only now ends now. */
  predicate IsOutlived(record: Record, now: int, cutoff: int) {
    || (HasEnded(record) && EndsBefore(record, cutoff))
    || (HasExpired(record, now) && if record.consumedAt.Some? then record.consumedAt.value < cutoff else now < cutoff)
  }

  /** What no operation changes. */
  predicate SameChange(before: Record, after: Record) {
    && after.id == before.id && after.asset == before.asset && after.kind == before.kind
    && after.operation == before.operation && after.requester == before.requester
    && after.requestedAt == before.requestedAt && after.expiresAt == before.expiresAt
  }

  predicate IsScrubbed(before: Summary, after: Summary) {
    after.reviewTarget.None? && after.rest == before.rest
  }

  predicate IsExpired(before: Record, after: Record, now: int) {
    && SameChange(before, after) && after.status.Expired? && after.decidedAt == Some(now)
    && after.approver == before.approver && after.consumedAt == before.consumedAt && IsScrubbed(before.summary, after.summary)
  }

  predicate IsSettled(before: Record, after: Record, now: int) {
    if HasExpired(before, now) then IsExpired(before, after, now) else after == before
  }

  /** An executing change is interrupted by a restart, whatever its expiry. */
  predicate IsRestarted(before: Record, after: Record, now: int) {
    if before.status.Executing? then
      && SameChange(before, after) && after.status.Interrupted? && after.decidedAt == Some(now)
      && after.approver == before.approver && after.consumedAt == before.consumedAt && IsScrubbed(before.summary, after.summary)
    else IsSettled(before, after, now)
  }

  /** Exactly the records go that ended before the cutoff. */
  predicate IsNormalized(before: map<string, Record>, after: map<string, Record>, now: int, cutoff: int) {
    && (forall id | id in before :: id in after <==> !IsOutlived(before[id], now, cutoff))
    && (forall id | id in after :: id in before && IsSettled(before[id], after[id], now))
  }

  /** The same except for one record, which stays or arrives. */
  predicate IsNormalizedBut(before: map<string, Record>, after: map<string, Record>, now: int, one: string) {
    && one in after
    && (forall id | id in before && id != one :: id in after <==> !IsOutlived(before[id], now, now - NINETY_DAYS))
    && (forall id | id in after && id != one :: id in before && IsSettled(before[id], after[id], now))
  }

  lemma ExpiryInFields(record: Record, now: int)
    ensures IsSettled(record, AfterExpiry(record, now), now)
    ensures forall cutoff :: Outlived(AfterExpiry(record, now), cutoff) <==> IsOutlived(record, now, cutoff)
  {
  }

  /** Normalizing keeps a record exactly unless it ended more than ninety days ago. */
  lemma NormalizeExactly(collection: Collection, now: int)
    ensures IsNormalized(collection.records, Normalize(collection, now).records, now, now - NINETY_DAYS)
  {
    PurgeExactly(collection, now, now - TERMINAL_RETENTION);
  }

  lemma PurgeExactly(collection: Collection, now: int, cutoff: int)
    ensures IsNormalized(collection.records, Purged(collection, now, cutoff).records, now, cutoff)
  {
    forall id | id in collection.records
      ensures IsSettled(collection.records[id], AfterExpiry(collection.records[id], now), now)
      ensures Outlived(AfterExpiry(collection.records[id], now), cutoff) <==> IsOutlived(collection.records[id], now, cutoff)
    {
      ExpiryInFields(collection.records[id], now);
    }
  }

  /** In a valid collection only what has ended can have outlived ninety days; what is under way always stays. */
  lemma UnderWayStays(collection: Collection, now: int, id: string)
    requires Valid(collection) && id in collection.records
    ensures id in Normalize(collection, now).records <==>
      !(HasEnded(collection.records[id]) && EndsBefore(collection.records[id], now - NINETY_DAYS))
  {
    NormalizeExactly(collection, now);
    assert Lawful(collection.records[id]);
  }

  lemma RestartInFields(record: Record, now: int)
    ensures IsRestarted(record, AfterExpiry(Interrupt(record, now), now), now)
  {
  }

  lemma NormalizeKeeps(collection: Collection, now: int, id: string)
    requires id in collection.records
    ensures id in Normalize(collection, now).records <==> !IsOutlived(collection.records[id], now, now - NINETY_DAYS)
  {
    NormalizeExactly(collection, now);
  }

  lemma InterruptedStays(record: Record, now: int)
    requires Lawful(record)
    ensures IsOutlived(Interrupt(record, now), now, now - NINETY_DAYS) <==>
      HasEnded(record) && EndsBefore(record, now - NINETY_DAYS)
  {
  }

  lemma RecoverKeeps(collection: Collection, now: int, id: string)
    requires Valid(collection) && id in collection.records
    ensures id in Recovered(collection, now).records <==>
      !(HasEnded(collection.records[id]) && EndsBefore(collection.records[id], now - NINETY_DAYS))
  {
    var interrupted := map i | i in collection.records :: Interrupt(collection.records[i], now);
    NormalizeKeeps(if interrupted == collection.records then collection else Collection(collection.revision + 1, interrupted), now, id);
    InterruptedStays(collection.records[id], now);
  }

  predicate IsRecovered(before: map<string, Record>, after: map<string, Record>, now: int) {
    && (forall id | id in before :: id in after <==> !(HasEnded(before[id]) && EndsBefore(before[id], now - NINETY_DAYS)))
    && (forall id | id in after :: id in before && IsRestarted(before[id], after[id], now))
  }

  /** A restart keeps every record that has not ended, and interrupts exactly those that were executing. */
  lemma RecoverExactly(collection: Collection, now: int)
    requires Valid(collection)
    ensures IsRecovered(collection.records, Recovered(collection, now).records, now)
  {
    var after := Recovered(collection, now).records;
    forall id | id in collection.records
      ensures id in after <==> !(HasEnded(collection.records[id]) && EndsBefore(collection.records[id], now - NINETY_DAYS))
    {
      RecoverKeeps(collection, now, id);
    }
    forall id | id in after
      ensures id in collection.records && IsRestarted(collection.records[id], after[id], now)
    {
      RecoveredRecord(collection, now, id);
      RestartInFields(collection.records[id], now);
    }
  }

  /******* What becomes of the one record that an operation names *******/

  /** A request is pending for a day. */
  predicate IsRequested(record: Record, request: Operation, now: int)
    requires request.Request?
  {
    && record.id == request.id && record.asset == request.asset && record.kind == request.kind
    && record.operation == request.operation && record.requester == request.actor && record.summary == request.summary
    && record.status.Pending? && record.approver.None? && record.decidedAt.None? && record.consumedAt.None?
    && record.requestedAt == now && record.expiresAt == now + ONE_DAY
  }

  predicate IsDecided(before: Record, after: Record, actor: Actor, approve: bool, now: int) {
    && SameChange(before, after) && after.approver == Some(actor) && after.decidedAt == Some(now)
    && after.consumedAt == before.consumedAt
    && (if approve then after.status.Approved? && after.summary == before.summary
        else after.status.Rejected? && IsScrubbed(before.summary, after.summary))
  }

  predicate IsClaimed(before: Record, after: Record) {
    && SameChange(before, after) && after.status.Executing? && after.approver == before.approver
    && after.decidedAt == before.decidedAt && after.consumedAt == before.consumedAt && after.summary == before.summary
  }

  /** A change that failed may be claimed again. */
  predicate IsFinished(before: Record, after: Record, succeeded: bool, now: int) {
    && SameChange(before, after) && after.approver == before.approver && after.decidedAt == before.decidedAt
    && (if succeeded
        then after.status.Consumed? && after.consumedAt == Some(now) && IsScrubbed(before.summary, after.summary)
        else after.status.Approved? && after.consumedAt.None? && after.summary == before.summary)
  }

  /******* The answers *******/

  predicate Refuses(before: Collection, after: Collection, result: Result, error: Error) {
    result == Err(error) && after == before
  }

  /** The one named record is stored as answered, and everything else is normalized. */
  predicate Stores(before: Collection, after: Collection, result: Result, now: int, id: string) {
    && before.revision < after.revision && IsNormalizedBut(before.records, after.records, now, id)
    && result == Ok(after.records[id])
  }

  predicate IsUnderWayFor(record: Record, request: Operation, now: int)
    requires request.Request?
  {
    && record.operation == request.operation && record.requester == request.actor
    && (record.status.Executing? || ((record.status.Pending? || record.status.Approved?) && now < record.expiresAt))
  }

  /** A change that the requester already asked for is answered as it stands; otherwise there must be room for it. */
  predicate RequestAnswers(before: Collection, after: Collection, result: Result, now: int, request: Operation)
    requires request.Request?
  {
    if exists id :: id in before.records && IsUnderWayFor(before.records[id], request, now) then
      && after == before && result.Ok? && result.record.id in before.records
      && result.record == before.records[result.record.id] && IsUnderWayFor(result.record, request, now)
    else if |Kept(before.records, now)| >= 500 then Refuses(before, after, result, CapacityReached)
    else if (request.kind.Registration? <==> request.asset.Some?)
         || (request.kind.Registration? && (request.summary.reviewTarget.None? || request.summary.reviewTarget.value == ""))
    then Refuses(before, after, result, InvalidRequest)
    else Stores(before, after, result, now, request.id) && IsRequested(after.records[request.id], request, now)
  }

  function Kept(records: map<string, Record>, now: int): set<string> {
    set id | id in records && !IsOutlived(records[id], now, now - NINETY_DAYS)
  }

  predicate DecideAnswers(
    before: Collection, after: Collection, result: Result, now: int, id: string, actor: Actor, administrator: bool, approve: bool)
  {
    if !administrator then Refuses(before, after, result, AdministratorRequired)
    else if id !in before.records || IsOutlived(before.records[id], now, now - NINETY_DAYS) then
      Refuses(before, after, result, NotFound)
    else if !before.records[id].status.Pending? || before.records[id].expiresAt <= now then
      Refuses(before, after, result, StateChanged)
    else if before.records[id].requester == actor then Refuses(before, after, result, SameActor)
    else Stores(before, after, result, now, id) && IsDecided(before.records[id], after.records[id], actor, approve, now)
  }

  predicate ClaimAnswers(
    before: Collection, after: Collection, result: Result, now: int, id: string, actor: Actor, kind: Kind,
    asset: Option<string>, operation: string)
  {
    if id !in before.records || IsOutlived(before.records[id], now, now - NINETY_DAYS) then
      Refuses(before, after, result, NotFound)
    else if !before.records[id].status.Approved? || before.records[id].expiresAt <= now then
      Refuses(before, after, result, NotReady)
    else if before.records[id].requester != actor then Refuses(before, after, result, RequesterRequired)
    else if before.records[id].kind != kind || before.records[id].asset != asset || before.records[id].operation != operation then
      Refuses(before, after, result, Mismatch)
    else Stores(before, after, result, now, id) && IsClaimed(before.records[id], after.records[id])
  }

  predicate IsClaimable(record: Record, now: int, actor: Actor, kind: Kind, asset: Option<string>, operation: string) {
    && record.status.Approved? && now < record.expiresAt && record.requester == actor && record.kind == kind
    && record.asset == asset && record.operation == operation
  }

  /** A change is claimed by its content exactly if it was approved and has not expired. */
  predicate ClaimMatchingAnswers(
    before: Collection, after: Collection, result: Result, now: int, actor: Actor, kind: Kind, asset: Option<string>,
    operation: string)
  {
    if exists id :: id in before.records && IsClaimable(before.records[id], now, actor, kind, asset, operation) then
      && result.Ok? && result.record.id in before.records
      && IsClaimable(before.records[result.record.id], now, actor, kind, asset, operation)
      && Stores(before, after, result, now, result.record.id)
      && IsClaimed(before.records[result.record.id], result.record)
    else Refuses(before, after, result, NotReady)
  }

  /** Finishing normalizes nothing. */
  predicate FinishAnswers(before: Collection, after: Collection, result: Result, now: int, id: string, succeeded: bool) {
    if id !in before.records then Refuses(before, after, result, NotFound)
    else if !before.records[id].status.Executing? then Refuses(before, after, result, NotExecuting)
    else
      && after.revision == before.revision + 1 && after.records.Keys == before.records.Keys && result == Ok(after.records[id])
      && (forall other | other in before.records && other != id :: after.records[other] == before.records[other])
      && IsFinished(before.records[id], after.records[id], succeeded, now)
  }

  /******* Each operation answers so *******/

  lemma NormalizeRaises(collection: Collection, now: int)
    ensures collection.revision <= Normalize(collection, now).revision
  {
  }

  lemma SavedIsStored(collection: Collection, now: int, updated: Record)
    ensures
      var after := Save(Normalize(collection, now), updated);
      Stores(collection, after, Ok(updated), now, updated.id)
  {
    NormalizeRaises(collection, now);
    NormalizeExactly(collection, now);
  }

  lemma PresentRecord(collection: Collection, now: int, id: string)
    requires Valid(collection)
    ensures id in Normalize(collection, now).records <==>
      id in collection.records && !IsOutlived(collection.records[id], now, now - NINETY_DAYS)
    ensures id in Normalize(collection, now).records ==>
      var record := Normalize(collection, now).records[id];
      && record.id == id && IsSettled(collection.records[id], record, now)
  {
    NormalizeExactly(collection, now);
    assert forall i | i in collection.records :: collection.records[i].id == i;
  }

  lemma DecideIsAnswered(
    collection: Collection, now: int, id: string, actor: Actor, administrator: bool, approve: bool)
    requires Valid(collection)
    ensures
      var reply := Decided(collection, now, id, actor, administrator, approve);
      DecideAnswers(collection, reply.collection, reply.result, now, id, actor, administrator, approve)
  {
    PresentRecord(collection, now, id);
    var reply := Decided(collection, now, id, actor, administrator, approve);
    if reply.result.Ok? { SavedIsStored(collection, now, reply.result.record); }
  }

  lemma ClaimIsAnswered(
    collection: Collection, now: int, id: string, actor: Actor, kind: Kind, asset: Option<string>, operation: string)
    requires Valid(collection)
    ensures
      var reply := Claimed(collection, now, id, actor, kind, asset, operation);
      ClaimAnswers(collection, reply.collection, reply.result, now, id, actor, kind, asset, operation)
  {
    PresentRecord(collection, now, id);
    var reply := Claimed(collection, now, id, actor, kind, asset, operation);
    if reply.result.Ok? { SavedIsStored(collection, now, reply.result.record); }
  }

  lemma FinishIsAnswered(collection: Collection, now: int, id: string, succeeded: bool)
    requires Valid(collection)
    ensures
      var reply := Finished(collection, now, id, succeeded);
      FinishAnswers(collection, reply.collection, reply.result, now, id, succeeded)
  {
  }

  /** What answers a repeated request is found after normalizing exactly if it was under way before. */
  lemma UnderWayIsFound(collection: Collection, now: int, request: Operation, id: string)
    requires Valid(collection) && request.Request?
    ensures
      var current := Normalize(collection, now).records;
      (id in current && SameRequest(current[id], request.operation, request.actor)) <==>
        (id in collection.records && IsUnderWayFor(collection.records[id], request, now))
  {
    PresentRecord(collection, now, id);
    if id in collection.records { assert Lawful(collection.records[id]); }
  }

  lemma FoundRecord(collection: Collection, now: int, request: Operation, id: string)
    requires Valid(collection) && request.Request? && id in Normalize(collection, now).records
    requires SameRequest(Normalize(collection, now).records[id], request.operation, request.actor)
    ensures
      && id in collection.records && Normalize(collection, now).records[id] == collection.records[id]
      && collection.records[id].id == id && IsUnderWayFor(collection.records[id], request, now)
  {
    UnderWayIsFound(collection, now, request, id);
    PresentRecord(collection, now, id);
  }

  lemma KeptIsNormalized(collection: Collection, now: int)
    ensures Normalize(collection, now).records.Keys == Kept(collection.records, now)
    ensures |Kept(collection.records, now)| == |Normalize(collection, now).records|
  {
    NormalizeExactly(collection, now);
    assert Normalize(collection, now).records.Keys == Kept(collection.records, now);
  }

  lemma NewIsStored(collection: Collection, now: int, request: Operation)
    requires request.Request?
    ensures
      var after := Save(Normalize(collection, now), NewRecord(now, request));
      Stores(collection, after, Ok(NewRecord(now, request)), now, request.id) && IsRequested(after.records[request.id], request, now)
  {
    SavedIsStored(collection, now, NewRecord(now, request));
  }

  lemma RepetitionIsAnswered(collection: Collection, now: int, request: Operation, id: string)
    requires Valid(collection) && request.Request?
    requires id in collection.records && IsUnderWayFor(collection.records[id], request, now)
    ensures
      var reply := Requested(collection, now, request);
      RequestAnswers(collection, reply.collection, reply.result, now, request)
  {
    var current := Normalize(collection, now).records;
    UnderWayIsFound(collection, now, request, id);
    var found :| found in current && SameRequest(current[found], request.operation, request.actor)
      && Requested(collection, now, request) == Reply(collection, Ok(current[found]));
    FoundRecord(collection, now, request, found);
  }

  lemma RequestIsAnswered(collection: Collection, now: int, request: Operation)
    requires Valid(collection) && request.Request?
    ensures
      var reply := Requested(collection, now, request);
      RequestAnswers(collection, reply.collection, reply.result, now, request)
  {
    var current := Normalize(collection, now).records;
    if id :| id in collection.records && IsUnderWayFor(collection.records[id], request, now) {
      RepetitionIsAnswered(collection, now, request, id);
    } else {
      forall id | id in current
        ensures !SameRequest(current[id], request.operation, request.actor)
      {
        UnderWayIsFound(collection, now, request, id);
      }
      KeptIsNormalized(collection, now);
      NewIsStored(collection, now, request);
    }
  }

  lemma ClaimableIsMatch(
    collection: Collection, now: int, actor: Actor, kind: Kind, asset: Option<string>, operation: string, id: string)
    requires Valid(collection)
    ensures
      var current := Normalize(collection, now).records;
      (id in current && IsMatch(current[id], actor, kind, asset, operation)) <==>
        (id in collection.records && IsClaimable(collection.records[id], now, actor, kind, asset, operation))
    ensures id in Normalize(collection, now).records ==> Normalize(collection, now).records[id].id == id
  {
    PresentRecord(collection, now, id);
    if id in collection.records { assert Lawful(collection.records[id]); }
  }

  lemma ClaimMatchingIsAnswered(
    collection: Collection, now: int, actor: Actor, kind: Kind, asset: Option<string>, operation: string)
    requires Valid(collection)
    ensures
      var reply := ClaimedMatching(collection, now, actor, kind, asset, operation);
      ClaimMatchingAnswers(collection, reply.collection, reply.result, now, actor, kind, asset, operation)
  {
    var current := Normalize(collection, now);
    var reply := ClaimedMatching(collection, now, actor, kind, asset, operation);
    ClaimMatchingIsExact(collection, now, actor, kind, asset, operation);
    if reply.result.Ok? {
      var id :| id in current.records && IsMatch(current.records[id], actor, kind, asset, operation)
        && reply == Reply(Save(current, current.records[id].(status := Executing)), Ok(current.records[id].(status := Executing)));
      ClaimableIsMatch(collection, now, actor, kind, asset, operation, id);
      PresentRecord(collection, now, id);
      SavedIsStored(collection, now, reply.result.record);
    } else {
      forall id | id in collection.records
        ensures !IsClaimable(collection.records[id], now, actor, kind, asset, operation)
      {
        ClaimableIsMatch(collection, now, actor, kind, asset, operation, id);
      }
    }
  }

  /******* Revisions *******/

  function OneIf(changed: bool): nat {
    if changed then 1 else 0
  }

  lemma ExpiryRevises(collection: Collection, now: int)
    ensures NormalizeExpired(collection, now).revision ==
      collection.revision + OneIf(exists id :: id in collection.records && HasExpired(collection.records[id], now))
  {
    var records := map id | id in collection.records :: AfterExpiry(collection.records[id], now);
    if id :| id in collection.records && HasExpired(collection.records[id], now) {
      assert records[id].status.Expired? && !collection.records[id].status.Expired?;
    } else {
      assert records == collection.records;
    }
  }

  /** Expiring anything raises the revision by one, and so does dropping anything. */
  lemma PurgeRevises(collection: Collection, now: int, cutoff: int)
    ensures Purged(collection, now, cutoff).revision ==
      collection.revision
      + OneIf(exists id :: id in collection.records && HasExpired(collection.records[id], now))
      + OneIf(exists id :: id in collection.records && IsOutlived(collection.records[id], now, cutoff))
  {
    ExpiryRevises(collection, now);
    var normalized := NormalizeExpired(collection, now).records;
    assert normalized.Keys == collection.records.Keys;
    forall id | id in collection.records
      ensures Outlived(normalized[id], cutoff) <==> IsOutlived(collection.records[id], now, cutoff)
    {
      ExpiryInFields(collection.records[id], now);
    }
    DroppingChanges(normalized, cutoff);
  }

  lemma NormalizeRevisesBy(collection: Collection, now: int)
    ensures Normalize(collection, now).revision ==
      collection.revision
      + OneIf(exists id :: id in collection.records && HasExpired(collection.records[id], now))
      + OneIf(exists id :: id in collection.records && IsOutlived(collection.records[id], now, now - NINETY_DAYS))
  {
    PurgeRevises(collection, now, now - TERMINAL_RETENTION);
  }

  lemma InterruptRevises(collection: Collection, now: int) returns (between: Collection)
    ensures Recovered(collection, now) == Normalize(between, now)
    ensures between.records == map id | id in collection.records :: Interrupt(collection.records[id], now)
    ensures between.revision == collection.revision + OneIf(exists id :: id in collection.records && collection.records[id].status.Executing?)
  {
    var records := map id | id in collection.records :: Interrupt(collection.records[id], now);
    between := if records == collection.records then collection else Collection(collection.revision + 1, records);
    if id :| id in collection.records && collection.records[id].status.Executing? {
      assert records[id].status.Interrupted?;
    } else {
      assert records == collection.records;
    }
  }

  /** A restart raises the revision once for what it interrupts, and as normalizing does for what expires and what is dropped. */
  lemma RecoverRevisesBy(collection: Collection, now: int)
    requires Valid(collection)
    ensures Recovered(collection, now).revision ==
      collection.revision
      + OneIf(exists id :: id in collection.records && collection.records[id].status.Executing?)
      + OneIf(exists id :: id in collection.records && HasExpired(collection.records[id], now))
      + OneIf(exists id :: id in collection.records && HasEnded(collection.records[id]) && EndsBefore(collection.records[id], now - NINETY_DAYS))
  {
    var between := InterruptRevises(collection, now);
    NormalizeRevisesBy(between, now);
    forall id | id in collection.records
      ensures HasExpired(between.records[id], now) <==> HasExpired(collection.records[id], now)
      ensures IsOutlived(between.records[id], now, now - NINETY_DAYS) <==>
        HasEnded(collection.records[id]) && EndsBefore(collection.records[id], now - NINETY_DAYS)
    {
      InterruptedStays(collection.records[id], now);
    }
  }

  lemma DroppingChanges(records: map<string, Record>, cutoff: int)
    ensures WithoutOutlived(records, cutoff) == records <==> forall id | id in records :: !Outlived(records[id], cutoff)
  {
    if id :| id in records && Outlived(records[id], cutoff) {
      assert id !in WithoutOutlived(records, cutoff);
    } else {
      assert WithoutOutlived(records, cutoff) == records;
    }
  }

  /** A revision that stays stands for a collection that stays. */
  predicate Revises(before: Collection, after: Collection) {
    before.revision < after.revision || after == before
  }

  lemma NormalizeRevises(collection: Collection, now: int)
    ensures Revises(collection, Normalize(collection, now))
  {
  }

  lemma RecoverRevises(collection: Collection, now: int)
    ensures Revises(collection, Recovered(collection, now))
  {
    var interrupted := map id | id in collection.records :: Interrupt(collection.records[id], now);
    NormalizeRevises(Collection(collection.revision + 1, interrupted), now);
    NormalizeRevises(collection, now);
  }

  lemma OthersRevise(collection: Collection, event: Event)
    requires !event.operation.Recover? && !event.operation.RemoveAsset? && !event.operation.PurgeTerminal?
    ensures Revises(collection, Step(collection, event).collection)
  {
    NormalizeRevises(collection, event.now);
  }

  lemma StepRevises(collection: Collection, event: Event)
    ensures Revises(collection, Step(collection, event).collection)
  {
    match event.operation
    case Recover => RecoverRevises(collection, event.now);
    case RemoveAsset(removed) => assert Revises(collection, WithoutAsset(collection, removed));
    case PurgeTerminal(cutoff) => assert Revises(collection, Purged(collection, event.now, cutoff));
    case _ => OthersRevise(collection, event);
  }

  /** Over every run two moments with the same revision have the same collection. */
  lemma {:induction false} RevisionsTellCollections(collections: seq<Collection>, events: seq<Event>, m: nat, n: nat)
    requires Run(collections, events) && m <= n <= |events|
    ensures Revises(collections[m], collections[n])
    decreases n
  {
    if m < n {
      RevisionsTellCollections(collections, events, m, n - 1);
      assert Next(collections, events, n - 1);
      StepRevises(collections[n - 1], events[n - 1]);
    }
  }
}
