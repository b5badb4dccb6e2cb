/**
 Four-eyes approval of critical authorization changes: one organization's collection of requests,
 the operations on it, and what holds over every run, restarts included.

 Records are keyed by their identifier, which a loaded collection never repeats. Times are
 microseconds. An actor stands for the digest of an organization and an account.
 */
module ChangeApprovals {
  import opened Common

  datatype Kind = Registration | Renewal | Revocation

  datatype Status = Pending | Approved | Executing | Consumed | Rejected | Expired | Interrupted

  /** `rest` stands for the parts of a summary that stay when it is scrubbed. */
  datatype Summary = Summary(reviewTarget: Option<string>, rest: string)

  type Actor = string

  datatype Record = Record(
    id: string, asset: Option<string>, kind: Kind, status: Status, operation: string, requester: Actor,
    approver: Option<Actor>, requestedAt: int, expiresAt: int, decidedAt: Option<int>, consumedAt: Option<int>,
    summary: Summary)

  datatype Collection = Collection(revision: nat, records: map<string, Record>)

  datatype Error =
    | AdministratorRequired | InvalidRequest | CapacityReached | NotFound | StateChanged | SameActor
    | NotReady | RequesterRequired | Mismatch | NotExecuting

  datatype Result = Ok(record: Record) | Done | Err(error: Error)

  datatype Reply = Reply(collection: Collection, result: Result)

  const TIME_TO_LIVE := 24 * HOUR
  const TERMINAL_RETENTION := 90 * DAY
  const MAX_RECORDS := 500

  predicate Actionable(status: Status) {
    status.Pending? || status.Approved? || status.Executing?
  }

  function Scrubbed(summary: Summary): Summary {
    summary.(reviewTarget := None)
  }

  /** What the model validator of a stored record demands. */
  predicate WellFormed(record: Record) {
    && record.requestedAt < record.expiresAt
    && (record.kind.Registration? <==> record.asset.None?)
    && (Actionable(record.status) && record.kind.Registration? ==>
          record.summary.reviewTarget.Some? && record.summary.reviewTarget.value != "")
    && (!Actionable(record.status) ==> record.summary.reviewTarget.None?)
  }

  /******* Normalization *******/

  function AfterExpiry(record: Record, now: int): Record {
    if (record.status.Pending? || record.status.Approved?) && record.expiresAt <= now
    then record.(status := Expired, decidedAt := Some(now), summary := Scrubbed(record.summary))
    else record
  }

  function NormalizeExpired(collection: Collection, now: int): Collection {
    var records := map id | id in collection.records :: AfterExpiry(collection.records[id], now);
    if records == collection.records then collection else Collection(collection.revision + 1, records)
  }

  function EndedAt(record: Record): int {
    if record.consumedAt.Some? then record.consumedAt.value
    else if record.decidedAt.Some? then record.decidedAt.value
    else record.requestedAt
  }

  predicate Outlived(record: Record, cutoff: int) {
    !Actionable(record.status) && EndedAt(record) < cutoff
  }

  function WithoutOutlived(records: map<string, Record>, cutoff: int): map<string, Record> {
    map id | id in records && !Outlived(records[id], cutoff) :: records[id]
  }

  function Normalize(collection: Collection, now: int): Collection {
    var normalized := NormalizeExpired(collection, now);
    var records := WithoutOutlived(normalized.records, now - TERMINAL_RETENTION);
    if records == normalized.records then normalized else Collection(normalized.revision + 1, records)
  }

  /******* Operations *******/

  function Save(collection: Collection, record: Record): Collection {
    Collection(collection.revision + 1, collection.records[record.id := record])
  }

  predicate SameRequest(record: Record, operation: string, requester: Actor) {
    record.operation == operation && record.requester == requester && Actionable(record.status)
  }

  predicate IsMatch(record: Record, actor: Actor, kind: Kind, asset: Option<string>, operation: string) {
    record.status.Approved? && record.requester == actor && record.kind == kind && record.asset == asset
    && record.operation == operation
  }

  datatype Operation =
    | Request(id: string, actor: Actor, kind: Kind, asset: Option<string>, operation: string, summary: Summary)
    | List
    | Decide(id: string, actor: Actor, administrator: bool, approve: bool)
    | Claim(id: string, actor: Actor, kind: Kind, asset: Option<string>, operation: string)
    | ClaimMatching(actor: Actor, kind: Kind, asset: Option<string>, operation: string)
    | Finish(id: string, succeeded: bool)
    | Recover
    | RemoveAsset(removed: string)
    | PurgeTerminal(cutoff: int)

  datatype Event = Event(now: int, operation: Operation)

  function NewRecord(now: int, request: Operation): Record
    requires request.Request?
  {
    Record(request.id, request.asset, request.kind, Pending, request.operation, request.actor, None,
           now, now + TIME_TO_LIVE, None, None, request.summary)
  }

  function Interrupt(record: Record, now: int): Record {
    if record.status.Executing?
    then record.(status := Interrupted, decidedAt := Some(now), summary := Scrubbed(record.summary))
    else record
  }

  function Recovered(collection: Collection, now: int): Collection {
    var records := map id | id in collection.records :: Interrupt(collection.records[id], now);
    Normalize(if records == collection.records then collection else Collection(collection.revision + 1, records), now)
  }

  /** A request for a change that already is under way is answered with the request there is. */
  ghost function Requested(collection: Collection, now: int, request: Operation): Reply
    requires request.Request?
  {
    var current := Normalize(collection, now);
    if exists id :: id in current.records && SameRequest(current.records[id], request.operation, request.actor) then
      var id :| id in current.records && SameRequest(current.records[id], request.operation, request.actor);
      Reply(collection, Ok(current.records[id]))
    else if |current.records| >= MAX_RECORDS then Reply(collection, Err(CapacityReached))
    else if !WellFormed(NewRecord(now, request)) then Reply(collection, Err(InvalidRequest))
    else Reply(Save(current, NewRecord(now, request)), Ok(NewRecord(now, request)))
  }

  function Decided(collection: Collection, now: int, id: string, actor: Actor, administrator: bool, approve: bool): Reply {
    var current := Normalize(collection, now);
    if !administrator then Reply(collection, Err(AdministratorRequired))
    else if id !in current.records then Reply(collection, Err(NotFound))
    else
      var record := current.records[id];
      if !record.status.Pending? then Reply(collection, Err(StateChanged))
      else if record.requester == actor then Reply(collection, Err(SameActor))
      else
        var updated := record.(
          status := if approve then Approved else Rejected, approver := Some(actor), decidedAt := Some(now),
          summary := if approve then record.summary else Scrubbed(record.summary));
        Reply(Save(current, updated), Ok(updated))
  }

  function Claimed(
    collection: Collection, now: int, id: string, actor: Actor, kind: Kind, asset: Option<string>, operation: string): Reply
  {
    var current := Normalize(collection, now);
    if id !in current.records then Reply(collection, Err(NotFound))
    else
      var record := current.records[id];
      if !record.status.Approved? then Reply(collection, Err(NotReady))
      else if record.requester != actor then Reply(collection, Err(RequesterRequired))
      else if record.kind != kind || record.asset != asset || record.operation != operation then Reply(collection, Err(Mismatch))
      else Reply(Save(current, record.(status := Executing)), Ok(record.(status := Executing)))
  }

  function Matches(collection: Collection, actor: Actor, kind: Kind, asset: Option<string>, operation: string): set<string> {
    set id | id in collection.records && IsMatch(collection.records[id], actor, kind, asset, operation)
  }

  /** Without exactly one match nothing is claimed. */
  ghost function ClaimedMatching(
    collection: Collection, now: int, actor: Actor, kind: Kind, asset: Option<string>, operation: string): Reply
  {
    var current := Normalize(collection, now);
    var matches := Matches(current, actor, kind, asset, operation);
    if |matches| != 1 then Reply(collection, Err(NotReady))
    else
      var id :| id in matches;
      var updated := current.records[id].(status := Executing);
      Reply(Save(current, updated), Ok(updated))
  }

  /** Finishing looks at no clock: a failed change goes back to approved even past its expiry. */
  function Finished(collection: Collection, now: int, id: string, succeeded: bool): Reply {
    if id !in collection.records then Reply(collection, Err(NotFound))
    else
      var record := collection.records[id];
      if !record.status.Executing? then Reply(collection, Err(NotExecuting))
      else
        var updated := if succeeded
          then record.(status := Consumed, consumedAt := Some(now), summary := Scrubbed(record.summary))
          else record.(status := Approved, consumedAt := None);
        Reply(Save(collection, updated), Ok(updated))
  }

  function WithoutAsset(collection: Collection, asset: string): Collection {
    var records := map id | id in collection.records && collection.records[id].asset != Some(asset) :: collection.records[id];
    if records == collection.records then collection else Collection(collection.revision + 1, records)
  }

  function Purged(collection: Collection, now: int, cutoff: int): Collection {
    var normalized := NormalizeExpired(collection, now);
    var records := WithoutOutlived(normalized.records, cutoff);
    if records == normalized.records then normalized else Collection(normalized.revision + 1, records)
  }

  ghost function Step(collection: Collection, event: Event): Reply {
    match event.operation
    case Request(_, _, _, _, _, _) => Requested(collection, event.now, event.operation)
    case List => Reply(Normalize(collection, event.now), Done)
    case Decide(id, actor, administrator, approve) => Decided(collection, event.now, id, actor, administrator, approve)
    case Claim(id, actor, kind, asset, operation) => Claimed(collection, event.now, id, actor, kind, asset, operation)
    case ClaimMatching(actor, kind, asset, operation) => ClaimedMatching(collection, event.now, actor, kind, asset, operation)
    case Finish(id, succeeded) => Finished(collection, event.now, id, succeeded)
    case Recover => Reply(Recovered(collection, event.now), Done)
    case RemoveAsset(removed) => Reply(WithoutAsset(collection, removed), Done)
    case PurgeTerminal(cutoff) => Reply(Purged(collection, event.now, cutoff), Done)
  }

  /******* What every collection keeps *******/

  predicate Lawful(record: Record) {
    && WellFormed(record)
    && (record.status.Pending? ==> record.approver.None?)
    && (record.status.Approved? || record.status.Executing? || record.status.Consumed? ==>
          record.approver.Some? && record.approver.value != record.requester)
    && (record.status.Consumed? <==> record.consumedAt.Some?)
  }

  /** No two requests under way are for the same change by the same requester. */
  predicate Unambiguous(records: map<string, Record>) {
    forall a, b | a in records && b in records
      && Actionable(records[a].status) && Actionable(records[b].status)
      && records[a].operation == records[b].operation && records[a].requester == records[b].requester :: a == b
  }

  /** What a file must satisfy to be loaded again, the four-eyes rule and the absence of duplicates. */
  predicate Valid(collection: Collection) {
    && |collection.records| <= MAX_RECORDS
    && (forall id | id in collection.records :: collection.records[id].id == id && Lawful(collection.records[id]))
    && Unambiguous(collection.records)
  }

  /** One change of one record in one step. */
  predicate Moves(before: Record, after: Record, event: Event) {
    && before.id == after.id && before.requester == after.requester && before.operation == after.operation
    && before.kind == after.kind && before.asset == after.asset && before.expiresAt == after.expiresAt
    && before.requestedAt == after.requestedAt
    && match after.status
       case Pending => false
       case Approved =>
         || (before.status.Pending? && event.operation.Decide? && event.operation.id == before.id
             && event.operation.approve && event.operation.administrator && event.now < before.expiresAt
             && after.approver == Some(event.operation.actor) && event.operation.actor != before.requester)
         || (before.status.Executing? && event.operation == Finish(before.id, false) && after.approver == before.approver)
       case Executing =>
         && before.status.Approved? && event.now < before.expiresAt && after.approver == before.approver
         && ((event.operation.Claim? && event.operation.id == before.id) || event.operation.ClaimMatching?)
         && event.operation.actor == before.requester && event.operation.operation == before.operation
         && event.operation.kind == before.kind && event.operation.asset == before.asset
       case Consumed => before.status.Executing? && event.operation == Finish(before.id, true) && after.approver == before.approver
       case Rejected =>
         && before.status.Pending? && event.operation.Decide? && event.operation.id == before.id && !event.operation.approve
         && event.operation.actor != before.requester && event.now < before.expiresAt
       case Expired => (before.status.Pending? || before.status.Approved?) && before.expiresAt <= event.now
       case Interrupted => before.status.Executing? && event.operation.Recover?
  }

  predicate Arrives(after: Record, event: Event) {
    event.operation.Request? && after == NewRecord(event.now, event.operation)
  }

  /** Every record after a step is as it was, or made exactly one permitted move, or was just requested. */
  predicate Traced(before: map<string, Record>, after: map<string, Record>, event: Event) {
    forall id | id in after ::
      || (id in before && (before[id] == after[id] || Moves(before[id], after[id], event)))
      || (id !in before && Arrives(after[id], event))
  }

  /******* Normalization keeps the law and lets nothing past its expiry *******/

  lemma FewerRecords(fewer: map<string, Record>, records: map<string, Record>)
    requires fewer.Keys <= records.Keys
    ensures |fewer| <= |records|
  {
    SubsetIsSmaller(fewer.Keys, records.Keys);
    assert |fewer| == |fewer.Keys| && |records| == |records.Keys|;
  }

  /** Records may go, expire or be interrupted; what stays is lawful. */
  predicate Weakens(before: map<string, Record>, after: map<string, Record>) {
    forall id | id in after ::
      && id in before && after[id].id == before[id].id && Lawful(after[id])
      && after[id].operation == before[id].operation && after[id].requester == before[id].requester
      && (Actionable(after[id].status) ==> Actionable(before[id].status))
  }

  lemma WeakerIsValid(before: Collection, after: Collection)
    requires Valid(before) && Weakens(before.records, after.records)
    ensures Valid(after)
  {
    FewerRecords(after.records, before.records);
    forall a, b | a in after.records && b in after.records
      && Actionable(after.records[a].status) && Actionable(after.records[b].status)
      && after.records[a].operation == after.records[b].operation && after.records[a].requester == after.records[b].requester
      ensures a == b
    {
      assert before.records[a].operation == before.records[b].operation;
    }
  }

  /** What normalization at `now` does to one record that it keeps. */
  predicate Settles(before: Record, after: Record, now: int) {
    after == AfterExpiry(before, now)
  }

  lemma NormalizeSettles(collection: Collection, now: int)
    ensures forall id | id in Normalize(collection, now).records ::
      id in collection.records && Settles(collection.records[id], Normalize(collection, now).records[id], now)
  {
  }

  lemma ExpiryIsLawful(record: Record, now: int)
    requires Lawful(record)
    ensures Lawful(AfterExpiry(record, now)) && Lawful(Interrupt(record, now))
  {
  }

  /** Normalizing is weakening, and so is recovering. */
  lemma NormalizeWeakens(collection: Collection, now: int)
    requires Valid(collection)
    ensures Weakens(collection.records, Normalize(collection, now).records)
  {
    NormalizeSettles(collection, now);
    forall id | id in Normalize(collection, now).records
      ensures Lawful(Normalize(collection, now).records[id])
    {
      ExpiryIsLawful(collection.records[id], now);
    }
  }

  lemma NormalizeKeepsValid(collection: Collection, now: int)
    requires Valid(collection)
    ensures Valid(Normalize(collection, now))
    ensures forall id | id in Normalize(collection, now).records ::
      var record := Normalize(collection, now).records[id];
      record.status.Pending? || record.status.Approved? ==> now < record.expiresAt
  {
    NormalizeWeakens(collection, now);
    WeakerIsValid(collection, Normalize(collection, now));
    NormalizeSettles(collection, now);
  }

  /** A move of a record that keeps its change and requester, and starts nothing, keeps the law. */
  lemma SaveKeepsValid(collection: Collection, updated: Record)
    requires Valid(collection) && updated.id in collection.records && Lawful(updated)
    requires
      var record := collection.records[updated.id];
      && record.operation == updated.operation && record.requester == updated.requester
      && (Actionable(updated.status) ==> Actionable(record.status))
    ensures Valid(Save(collection, updated))
  {
    var after := Save(collection, updated);
    assert Weakens(collection.records, after.records);
    WeakerIsValid(collection, after);
  }

  lemma NewRecordKeepsValid(collection: Collection, record: Record)
    requires Valid(collection) && |collection.records| < MAX_RECORDS && record.id !in collection.records && Lawful(record)
    requires !exists id :: id in collection.records && SameRequest(collection.records[id], record.operation, record.requester)
    ensures Valid(Save(collection, record))
  {
    OneMoreRecord(collection.records, record);
    NewRecordIsUnambiguous(collection.records, record);
  }

  lemma OneMoreRecord(records: map<string, Record>, record: Record)
    requires record.id !in records
    ensures |records[record.id := record]| == |records| + 1
  {
    assert records[record.id := record].Keys == records.Keys + {record.id};
  }

  lemma NewRecordIsUnambiguous(records: map<string, Record>, record: Record)
    requires Unambiguous(records)
    requires !exists id :: id in records && SameRequest(records[id], record.operation, record.requester)
    ensures Unambiguous(records[record.id := record])
  {
    assert forall id | id in records :: !SameRequest(records[id], record.operation, record.requester);
  }

  /** A record that ends an operation is a permitted move of the record normalization left. */
  lemma MovedIsTraced(collection: Collection, now: int, updated: Record, event: Event)
    requires event.now == now
    requires
      var current := Normalize(collection, now);
      && updated.id in current.records && updated.id in collection.records
      && collection.records[updated.id] == current.records[updated.id]
      && Moves(current.records[updated.id], updated, event)
    requires forall id | id in collection.records :: collection.records[id].id == id
    ensures Traced(collection.records, Save(Normalize(collection, now), updated).records, event)
  {
    NormalizeSettles(collection, now);
  }

  /******* Each operation *******/

  /** The identifiers that the store draws are fresh. */
  predicate FreshId(collection: Collection, event: Event) {
    event.operation.Request? ==> event.operation.id !in collection.records
  }

  predicate Follows(collection: Collection, reply: Reply, event: Event) {
    Valid(reply.collection) && Traced(collection.records, reply.collection.records, event)
  }

  /** Normalization alone moves each record that it keeps by expiry at most. */
  lemma NormalizeIsTraced(collection: Collection, event: Event)
    requires forall id | id in collection.records :: collection.records[id].id == id
    ensures Traced(collection.records, Normalize(collection, event.now).records, event)
  {
    NormalizeSettles(collection, event.now);
  }

  lemma NormalizeFollows(collection: Collection, event: Event)
    requires Valid(collection)
    ensures Follows(collection, Reply(Normalize(collection, event.now), Done), event)
  {
    NormalizeKeepsValid(collection, event.now);
    NormalizeIsTraced(collection, event);
  }

  lemma ArrivalIsTraced(collection: Collection, event: Event)
    requires forall id | id in collection.records :: collection.records[id].id == id
    requires event.operation.Request? && FreshId(collection, event)
    ensures Traced(collection.records, Save(Normalize(collection, event.now), NewRecord(event.now, event.operation)).records, event)
  {
    NormalizeSettles(collection, event.now);
  }

  lemma UnchangedFollows(collection: Collection, event: Event, result: Result)
    requires Valid(collection)
    ensures Follows(collection, Reply(collection, result), event)
  {
  }

  lemma RequestFollows(collection: Collection, event: Event)
    requires Valid(collection) && event.operation.Request? && FreshId(collection, event)
    ensures Follows(collection, Step(collection, event), event)
  {
    var current := Normalize(collection, event.now);
    var record := NewRecord(event.now, event.operation);
    NormalizeKeepsValid(collection, event.now);
    var reply := Requested(collection, event.now, event.operation);
    if reply.collection == collection {
      UnchangedFollows(collection, event, reply.result);
    } else {
      NormalizeSettles(collection, event.now);
      NewRecordKeepsValid(current, record);
      ArrivalIsTraced(collection, event);
    }
  }

  /** A permitted, lawful move of a record that normalization left pending or approved. */
  lemma SavedMoveFollows(collection: Collection, event: Event, updated: Record)
    requires Valid(collection) && updated.id in Normalize(collection, event.now).records && Lawful(updated)
    requires
      var record := Normalize(collection, event.now).records[updated.id];
      (record.status.Pending? || record.status.Approved?) && Moves(record, updated, event)
    ensures Follows(collection, Reply(Save(Normalize(collection, event.now), updated), Ok(updated)), event)
  {
    var current := Normalize(collection, event.now);
    assert Valid(Save(current, updated)) by {
      NormalizeKeepsValid(collection, event.now);
      SaveKeepsValid(current, updated);
    }
    assert Traced(collection.records, Save(current, updated).records, event) by {
      NormalizeSettles(collection, event.now);
      MovedIsTraced(collection, event.now, updated, event);
    }
  }

  lemma NormalizedRecord(collection: Collection, now: int, id: string)
    requires Valid(collection) && id in Normalize(collection, now).records
    ensures
      var record := Normalize(collection, now).records[id];
      && record.id == id && Lawful(record)
      && (record.status.Pending? || record.status.Approved? ==> now < record.expiresAt)
  {
    NormalizeKeepsValid(collection, now);
  }

  lemma DecisionMoves(record: Record, event: Event, updated: Record)
    requires Lawful(record) && record.status.Pending? && event.now < record.expiresAt
    requires
      && event.operation.Decide? && event.operation.id == record.id && event.operation.administrator
      && event.operation.actor != record.requester
    requires updated == record.(
      status := if event.operation.approve then Approved else Rejected, approver := Some(event.operation.actor),
      decidedAt := Some(event.now), summary := if event.operation.approve then record.summary else Scrubbed(record.summary))
    ensures Lawful(updated) && Moves(record, updated, event)
  {
  }

  lemma DecideFollows(collection: Collection, event: Event)
    requires Valid(collection) && event.operation.Decide?
    ensures Follows(collection, Step(collection, event), event)
  {
    var reply := Step(collection, event);
    if reply.result.Err? {
      UnchangedFollows(collection, event, reply.result);
    } else {
      var id, current := event.operation.id, Normalize(collection, event.now);
      NormalizedRecord(collection, event.now, id);
      DecisionMoves(current.records[id], event, reply.result.record);
      SavedMoveFollows(collection, event, reply.result.record);
    }
  }

  lemma ClaimMoves(record: Record, event: Event)
    requires Lawful(record) && record.status.Approved? && event.now < record.expiresAt
    requires (event.operation.Claim? && event.operation.id == record.id) || event.operation.ClaimMatching?
    requires
      && event.operation.actor == record.requester && event.operation.operation == record.operation
      && event.operation.kind == record.kind && event.operation.asset == record.asset
    ensures Lawful(record.(status := Executing)) && Moves(record, record.(status := Executing), event)
  {
  }

  lemma ClaimFollows(collection: Collection, event: Event)
    requires Valid(collection) && event.operation.Claim?
    ensures Follows(collection, Step(collection, event), event)
  {
    var reply := Step(collection, event);
    if reply.result.Err? {
      UnchangedFollows(collection, event, reply.result);
    } else {
      var id, current := event.operation.id, Normalize(collection, event.now);
      NormalizedRecord(collection, event.now, id);
      ClaimMoves(current.records[id], event);
      SavedMoveFollows(collection, event, reply.result.record);
    }
  }

  lemma ClaimMatchingFollows(collection: Collection, event: Event)
    requires Valid(collection) && event.operation.ClaimMatching?
    ensures Follows(collection, Step(collection, event), event)
  {
    var reply, current := Step(collection, event), Normalize(collection, event.now);
    if reply.result.Err? {
      UnchangedFollows(collection, event, reply.result);
    } else {
      var id :| id in Matches(current, event.operation.actor, event.operation.kind, event.operation.asset, event.operation.operation)
        && reply.result.record == current.records[id].(status := Executing);
      NormalizedRecord(collection, event.now, id);
      ClaimMoves(current.records[id], event);
      SavedMoveFollows(collection, event, reply.result.record);
    }
  }

  lemma FinishFollows(collection: Collection, event: Event)
    requires Valid(collection) && event.operation.Finish?
    ensures Follows(collection, Step(collection, event), event)
  {
    var reply := Step(collection, event);
    if reply.result.Err? {
      UnchangedFollows(collection, event, reply.result);
    } else {
      var updated := reply.result.record;
      assert Valid(reply.collection) by { SaveKeepsValid(collection, updated); }
      assert Moves(collection.records[updated.id], updated, event);
    }
  }

  /** One record through a restart: interrupted if it was executing, expired if it is too old, or as it was. */
  lemma RecoveredRecord(collection: Collection, now: int, id: string)
    requires id in Recovered(collection, now).records
    ensures id in collection.records
    ensures Recovered(collection, now).records[id] == AfterExpiry(Interrupt(collection.records[id], now), now)
  {
    var records := map i | i in collection.records :: Interrupt(collection.records[i], now);
    NormalizeSettles(if records == collection.records then collection else Collection(collection.revision + 1, records), now);
  }

  lemma SettledRecordMoves(record: Record, event: Event)
    ensures AfterExpiry(record, event.now) == record || Moves(record, AfterExpiry(record, event.now), event)
    ensures event.operation.Recover? ==>
      var after := AfterExpiry(Interrupt(record, event.now), event.now);
      after == record || Moves(record, after, event)
  {
  }

  lemma RecoverWeakens(collection: Collection, now: int)
    requires Valid(collection)
    ensures Weakens(collection.records, Recovered(collection, now).records)
  {
    var after := Recovered(collection, now);
    forall id | id in after.records
      ensures id in collection.records && Lawful(after.records[id])
      ensures after.records[id] == AfterExpiry(Interrupt(collection.records[id], now), now)
    {
      RecoveredRecord(collection, now, id);
      ExpiryIsLawful(collection.records[id], now);
      ExpiryIsLawful(Interrupt(collection.records[id], now), now);
    }
  }

  lemma RecoverIsTraced(collection: Collection, event: Event)
    requires event.operation.Recover?
    ensures Traced(collection.records, Recovered(collection, event.now).records, event)
  {
    var after := Recovered(collection, event.now).records;
    forall id | id in after
      ensures id in collection.records && (collection.records[id] == after[id] || Moves(collection.records[id], after[id], event))
    {
      RecoveredRecord(collection, event.now, id);
      SettledRecordMoves(collection.records[id], event);
    }
  }

  lemma RecoverFollows(collection: Collection, event: Event)
    requires Valid(collection) && event.operation.Recover?
    ensures Follows(collection, Reply(Recovered(collection, event.now), Done), event)
  {
    var after := Recovered(collection, event.now);
    assert Valid(after) by {
      RecoverWeakens(collection, event.now);
      WeakerIsValid(collection, after);
    }
    assert Traced(collection.records, after.records, event) by { RecoverIsTraced(collection, event); }
  }

  lemma RemoveAssetFollows(collection: Collection, event: Event)
    requires Valid(collection) && event.operation.RemoveAsset?
    ensures Follows(collection, Step(collection, event), event)
  {
    var after := WithoutAsset(collection, event.operation.removed);
    assert Weakens(collection.records, after.records);
    WeakerIsValid(collection, after);
    assert Traced(collection.records, after.records, event);
  }

  lemma PurgedRecord(collection: Collection, now: int, cutoff: int, id: string)
    requires id in Purged(collection, now, cutoff).records
    ensures id in collection.records
    ensures Purged(collection, now, cutoff).records[id] == AfterExpiry(collection.records[id], now)
  {
  }

  lemma PurgeWeakens(collection: Collection, now: int, cutoff: int)
    requires Valid(collection)
    ensures Weakens(collection.records, Purged(collection, now, cutoff).records)
  {
    var after := Purged(collection, now, cutoff);
    forall id | id in after.records
      ensures id in collection.records && Lawful(after.records[id])
      ensures after.records[id] == AfterExpiry(collection.records[id], now)
    {
      PurgedRecord(collection, now, cutoff, id);
      ExpiryIsLawful(collection.records[id], now);
    }
  }

  lemma PurgeIsTraced(collection: Collection, event: Event, cutoff: int)
    ensures Traced(collection.records, Purged(collection, event.now, cutoff).records, event)
  {
    var after := Purged(collection, event.now, cutoff).records;
    forall id | id in after
      ensures id in collection.records && (collection.records[id] == after[id] || Moves(collection.records[id], after[id], event))
    {
      PurgedRecord(collection, event.now, cutoff, id);
      SettledRecordMoves(collection.records[id], event);
    }
  }

  lemma PurgeFollows(collection: Collection, event: Event)
    requires Valid(collection) && event.operation.PurgeTerminal?
    ensures Follows(collection, Step(collection, event), event)
  {
    PurgeWeakens(collection, event.now, event.operation.cutoff);
    WeakerIsValid(collection, Purged(collection, event.now, event.operation.cutoff));
    PurgeIsTraced(collection, event, event.operation.cutoff);
  }

  /** Every operation keeps the collection valid, and moves each record by one permitted move at most. */
  lemma StepFollows(collection: Collection, event: Event)
    requires Valid(collection) && FreshId(collection, event)
    ensures Follows(collection, Step(collection, event), event)
  {
    match event.operation
    case Request(_, _, _, _, _, _) => RequestFollows(collection, event);
    case List => NormalizeFollows(collection, event);
    case Decide(_, _, _, _) => DecideFollows(collection, event);
    case Claim(_, _, _, _, _) => ClaimFollows(collection, event);
    case ClaimMatching(_, _, _, _) => ClaimMatchingFollows(collection, event);
    case Finish(_, _) => FinishFollows(collection, event);
    case Recover => RecoverFollows(collection, event);
    case RemoveAsset(_) => RemoveAssetFollows(collection, event);
    case PurgeTerminal(_) => PurgeFollows(collection, event);
  }
}
