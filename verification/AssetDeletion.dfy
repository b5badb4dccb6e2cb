/**
 Deletion of one asset and everything derived from it, under a write-ahead marker.

 A single unlink or file replace is atomic, a crash may come between any two of them, and a
 restart replays the whole clean-up from the marker. `Cleared` is the end state in closed form;
 every write of the clean-up keeps it, so the end does not depend on where runs were cut short.

 The audit events of an organization are sealed by a digest chain. The audit stage rewrites events
 one by one and swaps in a new chain last. A stage that finds a chain that does not fit the events
 stops, so a run that is cut inside that gap is never completed.
 */
module AssetDeletion {
  import opened Common

  datatype Key = Key(organization: string, asset: string)

  datatype JobState = Queued | Running | Cancelling | Completed | Failed | Cancelled

  datatype Job = Job(organization: string, asset: Option<string>, state: JobState)

  datatype Verification = Verification(key: Key, pending: bool)

  datatype Approval = Approval(organization: string, asset: Option<string>)

  datatype Receipt = Receipt(organization: string, assets: set<string>)

  /** `action` stands for what happened: the action itself, its actor, its result and its time. */
  datatype AuditEvent = AuditEvent(
    organization: string, action: string, resourceType: string, resource: string, correlation: string,
    metadata: map<string, string>)

  /** The marker: what was found when the deletion was prepared. */
  datatype Operation = Operation(key: Key, deletionReceipt: string, jobs: set<string>)

  /** A seal is the events that an organization's chain was built over, as the chain's digests determine them. */
  datatype World = World(
    assets: map<Key, string>,
    verifications: map<string, Verification>,
    jobs: map<string, Job>,
    audit: map<string, AuditEvent>,
    recurrences: map<string, Key>,
    approvals: map<string, Approval>,
    receipts: map<string, Receipt>,
    markers: map<string, Operation>,
    seals: map<string, map<string, AuditEvent>>)

  /******* What belongs to the deleted asset *******/

  predicate InFlight(job: Job) {
    job.state.Queued? || job.state.Running? || job.state.Cancelling?
  }

  predicate JobOf(job: Job, key: Key) {
    job.organization == key.organization && job.asset == Some(key.asset)
  }

  predicate ApprovalOf(approval: Approval, key: Key) {
    approval.organization == key.organization && approval.asset == Some(key.asset)
  }

  predicate ReceiptOf(receipt: Receipt, key: Key) {
    receipt.organization == key.organization && key.asset in receipt.assets
  }

  predicate ListedJob(op: Operation, id: string, job: Job) {
    id in op.jobs && job.organization == op.key.organization
  }

  predicate Linked(event: AuditEvent, op: Operation) {
    && event.organization == op.key.organization
    && (event.resource == op.key.asset || event.resource in op.jobs
        || ("job_id" in event.metadata && event.metadata["job_id"] in op.jobs))
  }

  function Anonymized(event: AuditEvent, op: Operation): AuditEvent {
    event.(
      resourceType := "deleted_active_asset", resource := op.deletionReceipt,
      correlation := "active-deletion:" + op.deletionReceipt, metadata := map[])
  }

  function EventsOf(audit: map<string, AuditEvent>, organization: string): map<string, AuditEvent> {
    map id | id in audit && audit[id].organization == organization :: audit[id]
  }

  /** The integrity check passes: the chain fits the events, or there is none and one is built over them. */
  predicate SealHolds(world: World, organization: string) {
    organization in world.seals ==> world.seals[organization] == EventsOf(world.audit, organization)
  }

  /** No asset file, verification, job, recurrence or approval of the asset is left. */
  predicate NoTrace(world: World, key: Key) {
    && key !in world.assets
    && (forall id | id in world.verifications :: world.verifications[id].key != key)
    && (forall id | id in world.jobs :: !JobOf(world.jobs[id], key))
    && (forall id | id in world.recurrences :: world.recurrences[id] != key)
    && (forall id | id in world.approvals :: !ApprovalOf(world.approvals[id], key))
  }

  predicate NoReceipt(world: World, key: Key) {
    forall id | id in world.receipts :: !ReceiptOf(world.receipts[id], key)
  }

  /** A trace is a file, a challenge, a job, a schedule or an approval of the asset; a receipt names it in its list. */
  lemma TracesExactly(world: World, key: Key)
    ensures !NoTrace(world, key) <==>
      || key in world.assets
      || (exists id :: id in world.verifications && world.verifications[id].key == key)
      || (exists id :: id in world.jobs && world.jobs[id].organization == key.organization && world.jobs[id].asset == Some(key.asset))
      || (exists id :: id in world.recurrences && world.recurrences[id] == key)
      || (exists id :: id in world.approvals && world.approvals[id].organization == key.organization
            && world.approvals[id].asset == Some(key.asset))
    ensures !NoReceipt(world, key) <==>
      exists id :: id in world.receipts && world.receipts[id].organization == key.organization && key.asset in world.receipts[id].assets
  {
    if id :| id in world.jobs && JobOf(world.jobs[id], key) { assert !NoTrace(world, key); }
    if id :| id in world.approvals && ApprovalOf(world.approvals[id], key) { assert !NoTrace(world, key); }
    if id :| id in world.receipts && ReceiptOf(world.receipts[id], key) { assert !NoReceipt(world, key); }
  }

  function ClearedAudit(audit: map<string, AuditEvent>, op: Operation): map<string, AuditEvent> {
    map id | id in audit :: if Linked(audit[id], op) then Anonymized(audit[id], op) else audit[id]
  }

  /** The world without the asset, without anything derived from it and without its marker. */
  function Cleared(world: World, op: Operation): World {
    World(
      world.assets - {op.key},
      map id | id in world.verifications && world.verifications[id].key != op.key :: world.verifications[id],
      map id | id in world.jobs && !ListedJob(op, id, world.jobs[id]) :: world.jobs[id],
      ClearedAudit(world.audit, op),
      map id | id in world.recurrences && world.recurrences[id] != op.key :: world.recurrences[id],
      map id | id in world.approvals && !ApprovalOf(world.approvals[id], op.key) :: world.approvals[id],
      map id | id in world.receipts && !ReceiptOf(world.receipts[id], op.key) :: world.receipts[id],
      world.markers - {op.key.asset},
      world.seals[op.key.organization := EventsOf(ClearedAudit(world.audit, op), op.key.organization)])
  }

  /******* Writes *******/

  datatype Write =
    | RemoveVerification(id: string) | RemoveJob(id: string) | AnonymizeEvent(id: string)
    | RemoveRecurrence(id: string) | RemoveApprovals | RemoveReceipt(id: string)
    | RemoveAsset | RemoveMarker | DropSeal | BuildSeal

  function Apply(world: World, op: Operation, write: Write): World {
    match write
    case RemoveVerification(id) => world.(verifications := world.verifications - {id})
    case RemoveJob(id) => world.(jobs := world.jobs - {id})
    case AnonymizeEvent(id) =>
      if id in world.audit then world.(audit := world.audit[id := Anonymized(world.audit[id], op)]) else world
    case RemoveRecurrence(id) => world.(recurrences := world.recurrences - {id})
    case RemoveApprovals =>
      world.(approvals := map id | id in world.approvals && !ApprovalOf(world.approvals[id], op.key) :: world.approvals[id])
    case RemoveReceipt(id) => world.(receipts := world.receipts - {id})
    case RemoveAsset => world.(assets := world.assets - {op.key})
    case RemoveMarker => world.(markers := world.markers - {op.key.asset})
    case DropSeal => world.(seals := world.seals - {op.key.organization})
    case BuildSeal =>
      world.(seals := world.seals[op.key.organization := EventsOf(world.audit, op.key.organization)])
  }

  /** The writes that the clean-up of `op` may do in `world`. */
  predicate Cleans(world: World, op: Operation, write: Write) {
    match write
    case RemoveVerification(id) => id in world.verifications && world.verifications[id].key == op.key
    case RemoveJob(id) => id in world.jobs && ListedJob(op, id, world.jobs[id]) && !InFlight(world.jobs[id])
    case AnonymizeEvent(id) => id in world.audit && Linked(world.audit[id], op)
    case RemoveRecurrence(id) => id in world.recurrences && world.recurrences[id] == op.key
    case RemoveApprovals => true
    case RemoveReceipt(id) => id in world.receipts && ReceiptOf(world.receipts[id], op.key)
    case RemoveAsset => NoReceipt(world, op.key)
    case RemoveMarker => NoTrace(world, op.key) && op.key.asset in world.markers && world.markers[op.key.asset] == op
    case DropSeal => op.key.organization in world.seals
    case BuildSeal => op.key.organization !in world.seals
  }

  /** `writes` are clean-up writes, each in the world that it meets, and they end in `after`. */
  ghost predicate CleansTo(world: World, op: Operation, writes: seq<Write>, after: World)
    decreases |writes|
  {
    if writes == [] then after == world
    else Cleans(world, op, writes[0]) && CleansTo(Apply(world, op, writes[0]), op, writes[1..], after)
  }

  lemma CleansToCons(world: World, op: Operation, write: Write, writes: seq<Write>, after: World)
    requires Cleans(world, op, write) && CleansTo(Apply(world, op, write), op, writes, after)
    ensures CleansTo(world, op, [write] + writes, after)
  {
    assert ([write] + writes)[1..] == writes;
  }

  lemma {:induction false} CleansToJoin(
    world: World, op: Operation, first: seq<Write>, middle: World, second: seq<Write>, after: World)
    requires CleansTo(world, op, first, middle) && CleansTo(middle, op, second, after)
    ensures CleansTo(world, op, first + second, after)
    decreases |first|
  {
    if first == [] {
      assert first + second == second;
    } else {
      CleansToJoin(Apply(world, op, first[0]), op, first[1..], middle, second, after);
      CleansToCons(world, op, first[0], first[1..] + second, after);
      assert [first[0]] + (first[1..] + second) == first + second;
    }
  }

  lemma CleansToStep(world: World, op: Operation, writes: seq<Write>, middle: World, write: Write)
    requires CleansTo(world, op, writes, middle) && Cleans(middle, op, write)
    ensures CleansTo(world, op, writes + [write], Apply(middle, op, write))
  {
    assert [write][1..] == [];
    CleansToJoin(world, op, writes, middle, [write], Apply(middle, op, write));
  }

  /** A crash after any number of writes leaves a world that clean-up writes reach. */
  lemma {:induction false} CutStillCleans(world: World, op: Operation, writes: seq<Write>, after: World, cut: nat)
    returns (crashed: World)
    requires CleansTo(world, op, writes, after) && cut <= |writes|
    ensures CleansTo(world, op, writes[..cut], crashed)
    decreases cut
  {
    if cut == 0 {
      crashed := world;
    } else {
      crashed := CutStillCleans(Apply(world, op, writes[0]), op, writes[1..], after, cut - 1);
      CleansToCons(world, op, writes[0], writes[1..][..cut - 1], crashed);
      assert [writes[0]] + writes[1..][..cut - 1] == writes[..cut];
    }
  }

  /******* Every clean-up write keeps the end state and everything else *******/

  lemma CleanupWriteKeepsEnd(world: World, op: Operation, write: Write)
    requires Cleans(world, op, write)
    ensures Cleared(Apply(world, op, write), op) == Cleared(world, op)
  {
    if IsEarly(write) {
      EarlyWriteKeepsEnd(world, op, write);
    } else if IsAudit(write) {
      AuditWriteKeepsEnd(world, op, write);
    } else {
      LateWriteKeepsEnd(world, op, write);
    }
  }

  /** The writes before the audit stage. */
  predicate IsEarly(write: Write) {
    write.RemoveVerification? || write.RemoveJob?
  }

  predicate IsAudit(write: Write) {
    write.AnonymizeEvent? || write.DropSeal? || write.BuildSeal?
  }

  lemma EarlyWriteKeepsEnd(world: World, op: Operation, write: Write)
    requires Cleans(world, op, write) && IsEarly(write)
    ensures Cleared(Apply(world, op, write), op) == Cleared(world, op)
  {
    match write
    case RemoveVerification(id) => RemoveVerificationKeepsEnd(world, op, id);
    case RemoveJob(id) => RemoveJobKeepsEnd(world, op, id);
    case _ =>
  }

  lemma RemoveVerificationKeepsEnd(world: World, op: Operation, id: string)
    requires Cleans(world, op, RemoveVerification(id))
    ensures Cleared(Apply(world, op, RemoveVerification(id)), op) == Cleared(world, op)
  {
    assert Cleared(Apply(world, op, RemoveVerification(id)), op).verifications == Cleared(world, op).verifications;
  }

  lemma RemoveJobKeepsEnd(world: World, op: Operation, id: string)
    requires Cleans(world, op, RemoveJob(id))
    ensures Cleared(Apply(world, op, RemoveJob(id)), op) == Cleared(world, op)
  {
    assert Cleared(Apply(world, op, RemoveJob(id)), op).jobs == Cleared(world, op).jobs;
  }

  lemma RewriteKeepsEnd(audit: map<string, AuditEvent>, op: Operation, id: string)
    requires id in audit && Linked(audit[id], op)
    ensures ClearedAudit(audit[id := Anonymized(audit[id], op)], op) == ClearedAudit(audit, op)
  {
    var left, right := ClearedAudit(audit[id := Anonymized(audit[id], op)], op), ClearedAudit(audit, op);
    assert left.Keys == right.Keys;
    assert Anonymized(Anonymized(audit[id], op), op) == Anonymized(audit[id], op);
  }

  lemma AnonymizeKeepsEnd(world: World, op: Operation, id: string)
    requires Cleans(world, op, AnonymizeEvent(id))
    ensures Cleared(Apply(world, op, AnonymizeEvent(id)), op) == Cleared(world, op)
  {
    RewriteKeepsEnd(world.audit, op, id);
  }

  lemma DropSealKeepsEnd(world: World, op: Operation)
    ensures Cleared(Apply(world, op, DropSeal), op) == Cleared(world, op)
  {
    SealIsReplaced(world.seals, op.key.organization, EventsOf(ClearedAudit(world.audit, op), op.key.organization));
  }

  lemma BuildSealKeepsEnd(world: World, op: Operation)
    ensures Cleared(Apply(world, op, BuildSeal), op) == Cleared(world, op)
  {
    SealIsRenewed(world.seals, op.key.organization, EventsOf(world.audit, op.key.organization),
                  EventsOf(ClearedAudit(world.audit, op), op.key.organization));
  }

  lemma SealIsRenewed(
    seals: map<string, map<string, AuditEvent>>, organization: string,
    seal: map<string, AuditEvent>, last: map<string, AuditEvent>)
    ensures seals[organization := seal][organization := last] == seals[organization := last]
  {
  }

  lemma SealIsReplaced(
    seals: map<string, map<string, AuditEvent>>, organization: string, seal: map<string, AuditEvent>)
    ensures (seals - {organization})[organization := seal] == seals[organization := seal]
  {
  }

  lemma AuditWriteKeepsEnd(world: World, op: Operation, write: Write)
    requires Cleans(world, op, write) && IsAudit(write)
    ensures Cleared(Apply(world, op, write), op) == Cleared(world, op)
  {
    match write
    case AnonymizeEvent(id) => AnonymizeKeepsEnd(world, op, id);
    case DropSeal => DropSealKeepsEnd(world, op);
    case BuildSeal => BuildSealKeepsEnd(world, op);
    case _ =>
  }

  lemma LateWriteKeepsEnd(world: World, op: Operation, write: Write)
    requires Cleans(world, op, write) && !IsEarly(write) && !IsAudit(write)
    ensures Cleared(Apply(world, op, write), op) == Cleared(world, op)
  {
    var a, b := Cleared(Apply(world, op, write), op), Cleared(world, op);
    LateRecordsKeepEnd(world, op, write);
    assert a.assets == b.assets;
    assert a.markers == b.markers;
  }

  lemma LateRecordsKeepEnd(world: World, op: Operation, write: Write)
    requires Cleans(world, op, write) && !IsEarly(write) && !IsAudit(write)
    ensures
      var a, b := Cleared(Apply(world, op, write), op), Cleared(world, op);
      a.recurrences == b.recurrences && a.approvals == b.approvals && a.receipts == b.receipts
  {
  }

  lemma {:induction false} CleanupKeepsEnd(world: World, op: Operation, writes: seq<Write>, after: World)
    requires CleansTo(world, op, writes, after)
    ensures Cleared(after, op) == Cleared(world, op)
    decreases |writes|
  {
    if writes != [] {
      CleanupWriteKeepsEnd(world, op, writes[0]);
      CleanupKeepsEnd(Apply(world, op, writes[0]), op, writes[1..], after);
    }
  }

  /** No job is in the way: every job of the asset is listed, and no listed job is in flight. */
  predicate Clearable(world: World, op: Operation) {
    forall id | id in world.jobs ::
      && (JobOf(world.jobs[id], op.key) ==> id in op.jobs)
      && (ListedJob(op, id, world.jobs[id]) ==> !InFlight(world.jobs[id]))
  }

  lemma CleanupWriteKeepsClearable(world: World, op: Operation, write: Write, other: Operation)
    requires Clearable(world, other)
    ensures Clearable(Apply(world, op, write), other)
  {
    var next := Apply(world, op, write);
    assert forall id | id in next.jobs :: id in world.jobs && next.jobs[id] == world.jobs[id];
  }

  /** The clean-up of one asset never puts a job in the way of another. */
  lemma {:induction false} CleanupKeepsClearable(
    world: World, op: Operation, writes: seq<Write>, after: World, other: Operation)
    requires CleansTo(world, op, writes, after) && Clearable(world, other)
    ensures Clearable(after, other)
    decreases |writes|
  {
    if writes != [] {
      CleanupWriteKeepsClearable(world, op, writes[0], other);
      CleanupKeepsClearable(Apply(world, op, writes[0]), op, writes[1..], after, other);
    }
  }

  /** The clean-up can finish: no job is in the way and the integrity check passes. */
  predicate Completable(world: World, op: Operation) {
    Clearable(world, op) && SealHolds(world, op.key.organization)
  }

  /** The marker, if there is one for the asset, is this one. */
  predicate MarkerIs(world: World, op: Operation) {
    op.key.asset in world.markers ==> world.markers[op.key.asset] == op
  }

  /** Everything in the world that belongs to `key`. */
  datatype Holdings = Holdings(
    asset: Option<string>, verifications: map<string, Verification>, jobs: map<string, Job>,
    recurrences: map<string, Key>, approvals: map<string, Approval>, marker: Option<Operation>)

  function HoldingsOf(world: World, key: Key): Holdings {
    Holdings(
      if key in world.assets then Some(world.assets[key]) else None,
      map id | id in world.verifications && world.verifications[id].key == key :: world.verifications[id],
      map id | id in world.jobs && JobOf(world.jobs[id], key) :: world.jobs[id],
      map id | id in world.recurrences && world.recurrences[id] == key :: world.recurrences[id],
      map id | id in world.approvals && ApprovalOf(world.approvals[id], key) :: world.approvals[id],
      if key.asset in world.markers then Some(world.markers[key.asset]) else None)
  }

  /** The marker lists only jobs of its own asset. */
  predicate ListsOwnJobs(world: World, op: Operation) {
    forall id | id in world.jobs && ListedJob(op, id, world.jobs[id]) :: JobOf(world.jobs[id], op.key)
  }

  lemma OtherJobsStay(world: World, op: Operation, other: Key)
    requires ListsOwnJobs(world, op) && other.asset != op.key.asset
    ensures HoldingsOf(Cleared(world, op), other).jobs == HoldingsOf(world, other).jobs
  {
    assert forall id | id in world.jobs && JobOf(world.jobs[id], other) :: !JobOf(world.jobs[id], op.key);
  }

  /** Deleting an asset leaves the holdings of every other asset exactly as they were. */
  lemma OtherAssetsKeepTheirs(world: World, op: Operation, other: Key)
    requires ListsOwnJobs(world, op) && other.asset != op.key.asset
    ensures HoldingsOf(Cleared(world, op), other) == HoldingsOf(world, other)
  {
    OtherJobsStay(world, op, other);
    OtherRecordsStay(world, op, other);
  }

  lemma OtherRecordsStay(world: World, op: Operation, other: Key)
    requires other.asset != op.key.asset
    ensures
      var a, b := HoldingsOf(Cleared(world, op), other), HoldingsOf(world, other);
      a.verifications == b.verifications && a.recurrences == b.recurrences && a.approvals == b.approvals
  {
    OtherVerificationsStay(world, op, other);
    OtherApprovalsStay(world, op, other);
    var a, b := HoldingsOf(Cleared(world, op), other), HoldingsOf(world, other);
    assert a.recurrences == b.recurrences;
  }

  lemma OtherVerificationsStay(world: World, op: Operation, other: Key)
    requires other.asset != op.key.asset
    ensures HoldingsOf(Cleared(world, op), other).verifications == HoldingsOf(world, other).verifications
  {
  }

  lemma OtherApprovalsStay(world: World, op: Operation, other: Key)
    requires other.asset != op.key.asset
    ensures HoldingsOf(Cleared(world, op), other).approvals == HoldingsOf(world, other).approvals
  {
    assert forall id | id in world.approvals && ApprovalOf(world.approvals[id], other) :: !ApprovalOf(world.approvals[id], op.key);
  }

  /** In the end state nothing of the asset is left, provided no job is in the way, and the seal holds. */
  lemma ClearedHasNoTrace(world: World, op: Operation)
    requires Clearable(world, op)
    ensures SealHolds(Cleared(world, op), op.key.organization)
    ensures NoTrace(Cleared(world, op), op.key) && NoReceipt(Cleared(world, op), op.key)
    ensures op.key.asset !in Cleared(world, op).markers
  {
  }

  /******* What the end state means, field by field *******/

  /** The event names the deleted asset or one of its jobs, as its resource or in its metadata. */
  predicate Mentions(event: AuditEvent, key: Key, jobs: set<string>) {
    && event.organization == key.organization
    && (event.resource == key.asset || event.resource in jobs
        || ("job_id" in event.metadata && event.metadata["job_id"] in jobs))
  }

  /**
   No event is lost. One that mentions the asset or a listed job keeps its organization and what
   happened, and names the deletion receipt instead; every other event is as it was.
   */
  predicate IsDetached(before: map<string, AuditEvent>, after: map<string, AuditEvent>, op: Operation) {
    && after.Keys == before.Keys
    && (forall id | id in before && Mentions(before[id], op.key, op.jobs) ::
          after[id] == AuditEvent(before[id].organization, before[id].action, "deleted_active_asset", op.deletionReceipt,
                                  "active-deletion:" + op.deletionReceipt, map[]))
    && (forall id | id in before && !Mentions(before[id], op.key, op.jobs) :: after[id] == before[id])
  }

  lemma ClearedAuditIsDetached(audit: map<string, AuditEvent>, op: Operation)
    ensures IsDetached(audit, ClearedAudit(audit, op), op)
  {
    assert forall id | id in audit :: Mentions(audit[id], op.key, op.jobs) <==> Linked(audit[id], op);
  }

  /** So afterwards no event mentions the asset or its jobs, unless the receipt is named like one of them. */
  lemma NothingMentionsTheAsset(before: map<string, AuditEvent>, after: map<string, AuditEvent>, op: Operation)
    requires IsDetached(before, after, op)
    requires op.deletionReceipt != op.key.asset && op.deletionReceipt !in op.jobs
    ensures forall id | id in after :: !Mentions(after[id], op.key, op.jobs)
  {
    forall id | id in after
      ensures !Mentions(after[id], op.key, op.jobs)
    {
      assert id in before;
    }
  }

  /** Nothing of the asset is left anywhere, and everything else is as it was. */
  ghost predicate IsGone(before: World, after: World, op: Operation) {
    var Key(organization, asset) := op.key;
    && (forall key :: key in after.assets <==> key in before.assets && key != op.key)
    && (forall id :: id in after.verifications <==> id in before.verifications && before.verifications[id].key != op.key)
    && (forall id :: id in after.jobs <==>
          id in before.jobs && !(before.jobs[id].organization == organization && id in op.jobs))
    && (forall id :: id in after.recurrences <==> id in before.recurrences && before.recurrences[id] != op.key)
    && (forall id :: id in after.approvals <==>
          id in before.approvals
          && !(before.approvals[id].organization == organization && before.approvals[id].asset == Some(asset)))
    && (forall id :: id in after.receipts <==>
          id in before.receipts && !(before.receipts[id].organization == organization && asset in before.receipts[id].assets))
    && (forall name :: name in after.markers <==> name in before.markers && name != asset)
  }

  /** What is left of each kind is unchanged. */
  ghost predicate RestIsAsBefore(before: World, after: World) {
    && (forall key | key in after.assets :: key in before.assets && after.assets[key] == before.assets[key])
    && (forall id | id in after.verifications :: id in before.verifications && after.verifications[id] == before.verifications[id])
    && (forall id | id in after.jobs :: id in before.jobs && after.jobs[id] == before.jobs[id])
    && (forall id | id in after.recurrences :: id in before.recurrences && after.recurrences[id] == before.recurrences[id])
    && (forall id | id in after.approvals :: id in before.approvals && after.approvals[id] == before.approvals[id])
    && (forall id | id in after.receipts :: id in before.receipts && after.receipts[id] == before.receipts[id])
    && (forall name | name in after.markers :: name in before.markers && after.markers[name] == before.markers[name])
  }

  lemma ClearedIsGone(world: World, op: Operation)
    ensures IsGone(world, Cleared(world, op), op) && RestIsAsBefore(world, Cleared(world, op))
    ensures IsDetached(world.audit, Cleared(world, op).audit, op)
  {
    ClearedAuditIsDetached(world.audit, op);
  }

  /******* What a clean-up may take, wherever it is cut *******/

  /** Jobs that are unlisted or in flight, and everything of other assets, are still there and unchanged; nothing is new. */
  predicate TakesNoJob(before: map<string, Job>, after: map<string, Job>, op: Operation) {
    && (forall id | id in after :: id in before && after[id] == before[id])
    && forall id | id in before
         && (before[id].organization != op.key.organization || id !in op.jobs || before[id].state in {Queued, Running, Cancelling}) ::
         id in after
  }

  predicate TakesOnlyItsOwn(before: World, after: World, op: Operation) {
    && (forall id | id in after.verifications :: id in before.verifications && after.verifications[id] == before.verifications[id])
    && (forall id | id in before.verifications && before.verifications[id].key != op.key :: id in after.verifications)
    && (forall id | id in after.recurrences :: id in before.recurrences && after.recurrences[id] == before.recurrences[id])
    && (forall id | id in before.recurrences && before.recurrences[id] != op.key :: id in after.recurrences)
    && (forall id | id in after.approvals :: id in before.approvals && after.approvals[id] == before.approvals[id])
    && (forall id | id in before.approvals
          && (before.approvals[id].organization != op.key.organization || before.approvals[id].asset != Some(op.key.asset)) ::
          id in after.approvals)
  }

  predicate TakesNoOtherFile(before: World, after: World, op: Operation) {
    && (forall key | key in after.assets :: key in before.assets && after.assets[key] == before.assets[key])
    && (forall key | key in before.assets && key != op.key :: key in after.assets)
    && (forall asset | asset in after.markers :: asset in before.markers && after.markers[asset] == before.markers[asset])
    && (forall asset | asset in before.markers && asset != op.key.asset :: asset in after.markers)
    && (forall id | id in after.receipts :: id in before.receipts && after.receipts[id] == before.receipts[id])
    && (forall id | id in before.receipts
          && (before.receipts[id].organization != op.key.organization || op.key.asset !in before.receipts[id].assets) ::
          id in after.receipts)
  }

  predicate TakesNoEvent(before: map<string, AuditEvent>, after: map<string, AuditEvent>, op: Operation) {
    && after.Keys == before.Keys
    && forall id | id in before && !Mentions(before[id], op.key, op.jobs) :: after[id] == before[id]
  }

  lemma WriteTakesItsOwn(world: World, op: Operation, write: Write)
    requires Cleans(world, op, write)
    ensures TakesOnlyItsOwn(world, Apply(world, op, write), op)
  {
  }

  lemma WriteTakesNoOtherFile(world: World, op: Operation, write: Write)
    requires Cleans(world, op, write)
    ensures TakesNoOtherFile(world, Apply(world, op, write), op)
  {
  }

  lemma WriteTakesNoJob(world: World, op: Operation, write: Write)
    requires Cleans(world, op, write)
    ensures TakesNoJob(world.jobs, Apply(world, op, write).jobs, op)
    ensures TakesNoEvent(world.audit, Apply(world, op, write).audit, op)
  {
  }

  /** However a clean-up is cut short: it takes no job in flight or unlisted, and nothing that is not of its asset. */
  lemma {:induction false} CleaningTakesNothingElse(world: World, op: Operation, writes: seq<Write>, after: World)
    requires CleansTo(world, op, writes, after)
    ensures TakesNoJob(world.jobs, after.jobs, op) && TakesOnlyItsOwn(world, after, op)
    ensures TakesNoOtherFile(world, after, op) && TakesNoEvent(world.audit, after.audit, op)
    decreases |writes|
  {
    if writes != [] {
      WriteTakesItsOwn(world, op, writes[0]);
      WriteTakesNoOtherFile(world, op, writes[0]);
      WriteTakesNoJob(world, op, writes[0]);
      CleaningTakesNothingElse(Apply(world, op, writes[0]), op, writes[1..], after);
    }
  }

  /******* Whole runs *******/

  /** What other work may do while the marker closes admission: no new job, verification or recurrence. */
  ghost predicate AdmissionClosed(before: World, after: World, op: Operation) {
    && (op.key.asset in before.markers ==>
          op.key.asset in after.markers && after.markers[op.key.asset] == before.markers[op.key.asset])
    && (forall id | id in after.jobs && (JobOf(after.jobs[id], op.key) || ListedJob(op, id, after.jobs[id])) ::
          id in before.jobs && after.jobs[id] == before.jobs[id])
    && (forall id | id in after.verifications && after.verifications[id].key == op.key ::
          id in before.verifications && after.verifications[id] == before.verifications[id])
    && (forall id | id in after.recurrences && after.recurrences[id] == op.key ::
          id in before.recurrences && before.recurrences[id] == op.key)
    && (op.key in after.assets ==> op.key in before.assets)
  }

  /** Clean-up writes lead from one world to the other. */
  ghost predicate CleanupReaches(before: World, after: World, op: Operation) {
    exists writes :: CleansTo(before, op, writes, after)
  }

  predicate AllEarly(writes: seq<Write>) {
    forall i | 0 <= i < |writes| :: IsEarly(writes[i])
  }

  /** So do clean-up writes of the stages before the audit stage. */
  ghost predicate EarlyReaches(before: World, after: World, op: Operation) {
    exists writes :: CleansTo(before, op, writes, after) && AllEarly(writes)
  }

  /**
   What one run of the clean-up, perhaps cut short, makes of a world: only a run that meets a seal
   that holds gets past the audit stage.
   */
  ghost predicate AttemptReaches(before: World, after: World, op: Operation) {
    || EarlyReaches(before, after, op)
    || (SealHolds(before, op.key.organization) && CleanupReaches(before, after, op))
  }

  /** One step of a run: a clean-up, perhaps cut short, or other work between two clean-ups. */
  ghost predicate RunStep(before: World, after: World, op: Operation) {
    AttemptReaches(before, after, op) || AdmissionClosed(before, after, op)
  }

  ghost predicate Run(worlds: seq<World>, op: Operation) {
    worlds != [] && forall i | 0 < i < |worlds| :: RunStep(worlds[i - 1], worlds[i], op)
  }

  lemma EarlyIsCleanup(before: World, after: World, op: Operation)
    requires EarlyReaches(before, after, op)
    ensures CleanupReaches(before, after, op)
  {
  }

  lemma AttemptIsCleanup(before: World, after: World, op: Operation)
    requires AttemptReaches(before, after, op)
    ensures CleanupReaches(before, after, op)
  {
  }

  lemma RunStepKeepsClearable(before: World, after: World, op: Operation)
    requires RunStep(before, after, op) && Clearable(before, op)
    ensures Clearable(after, op)
  {
    if !AdmissionClosed(before, after, op) {
      AttemptIsCleanup(before, after, op);
      var writes :| CleansTo(before, op, writes, after);
      CleanupKeepsClearable(before, op, writes, after, op);
    }
  }

  /** However often the clean-up is cut short and whatever happens in between, no job comes in its way. */
  lemma {:induction false} RunsStayClearable(worlds: seq<World>, op: Operation, n: nat)
    requires Run(worlds, op) && Clearable(worlds[0], op) && n < |worlds|
    ensures Clearable(worlds[n], op)
    ensures Completable(worlds[n], op) <==> SealHolds(worlds[n], op.key.organization)
    decreases n
  {
    if n > 0 {
      RunsStayClearable(worlds, op, n - 1);
      RunStepKeepsClearable(worlds[n - 1], worlds[n], op);
    }
  }

  /** Clean-ups cut short any number of times, with nothing in between. */
  ghost predicate CutShort(worlds: seq<World>, op: Operation) {
    worlds != [] && forall i | 0 < i < |worlds| :: AttemptReaches(worlds[i - 1], worlds[i], op)
  }

  lemma WriteKeepsMarker(world: World, op: Operation, write: Write)
    requires MarkerIs(world, op)
    ensures MarkerIs(Apply(world, op, write), op)
  {
    match write
    case RemoveMarker =>
    case _ =>
  }

  lemma {:induction false} CleanupKeepsMarker(world: World, op: Operation, writes: seq<Write>, after: World)
    requires CleansTo(world, op, writes, after) && MarkerIs(world, op)
    ensures MarkerIs(after, op)
    decreases |writes|
  {
    if writes != [] {
      WriteKeepsMarker(world, op, writes[0]);
      CleanupKeepsMarker(Apply(world, op, writes[0]), op, writes[1..], after);
    }
  }

  /**
   Deletion converges: cut short anywhere, any number of times, the end state stays the same, and
   the next run of the clean-up reaches it exactly if the last cut left a seal that holds.
   */
  lemma {:induction false} DeletionConverges(worlds: seq<World>, op: Operation, n: nat)
    requires CutShort(worlds, op) && n < |worlds| && Clearable(worlds[0], op) && MarkerIs(worlds[0], op)
    ensures Cleared(worlds[n], op) == Cleared(worlds[0], op) && Clearable(worlds[n], op) && MarkerIs(worlds[n], op)
    ensures Completable(worlds[n], op) <==> SealHolds(worlds[n], op.key.organization)
    decreases n
  {
    if n > 0 {
      DeletionConverges(worlds, op, n - 1);
      AttemptIsCleanup(worlds[n - 1], worlds[n], op);
      var writes :| CleansTo(worlds[n - 1], op, writes, worlds[n]);
      CleanupKeepsEnd(worlds[n - 1], op, writes, worlds[n]);
      CleanupKeepsClearable(worlds[n - 1], op, writes, worlds[n], op);
      CleanupKeepsMarker(worlds[n - 1], op, writes, worlds[n]);
    }
  }

  lemma WriteKeepsNoTrace(world: World, op: Operation, write: Write, key: Key)
    requires NoTrace(world, key)
    ensures NoTrace(Apply(world, op, write), key)
  {
    WriteRemovesOnly(world, op, write);
    LateWriteRemovesOnly(world, op, write);
  }

  lemma WriteRemovesOnly(world: World, op: Operation, write: Write)
    ensures
      var next := Apply(world, op, write);
      && (forall id | id in next.verifications :: id in world.verifications && next.verifications[id] == world.verifications[id])
      && (forall id | id in next.jobs :: id in world.jobs && next.jobs[id] == world.jobs[id])
  {
  }

  lemma LateWriteRemovesOnly(world: World, op: Operation, write: Write)
    ensures
      var next := Apply(world, op, write);
      && next.assets.Keys <= world.assets.Keys
      && (forall id | id in next.recurrences :: id in world.recurrences && next.recurrences[id] == world.recurrences[id])
      && (forall id | id in next.approvals :: id in world.approvals && next.approvals[id] == world.approvals[id])
  {
  }

  lemma WriteKeepsNoReceipt(world: World, op: Operation, write: Write)
    requires NoReceipt(world, op.key)
    ensures NoReceipt(Apply(world, op, write), op.key)
  {
    match write
    case RemoveReceipt(_) =>
    case _ =>
  }

  /** Once nothing of an asset is left, the clean-up of any asset keeps it so. */
  lemma {:induction false} TraceNeverReturns(world: World, op: Operation, writes: seq<Write>, after: World, key: Key)
    requires CleansTo(world, op, writes, after) && NoTrace(world, key)
    ensures NoTrace(after, key)
    decreases |writes|
  {
    if writes != [] {
      WriteKeepsNoTrace(world, op, writes[0], key);
      TraceNeverReturns(Apply(world, op, writes[0]), op, writes[1..], after, key);
    }
  }

  lemma {:induction false} ReceiptNeverReturns(world: World, op: Operation, writes: seq<Write>, after: World)
    requires CleansTo(world, op, writes, after) && NoReceipt(world, op.key)
    ensures NoReceipt(after, op.key)
    decreases |writes|
  {
    if writes != [] {
      WriteKeepsNoReceipt(world, op, writes[0]);
      ReceiptNeverReturns(Apply(world, op, writes[0]), op, writes[1..], after);
    }
  }

  /** A clean-up write takes the marker only when no trace is left, and the asset only without receipts. */
  lemma RemovalIsLate(world: World, op: Operation, write: Write)
    requires Cleans(world, op, write)
    ensures
      var next := Apply(world, op, write);
      && (op.key.asset in world.markers && op.key.asset !in next.markers ==> NoTrace(next, op.key))
      && (op.key in world.assets && op.key !in next.assets ==> NoReceipt(next, op.key))
  {
    if write.RemoveMarker? {
      WriteKeepsNoTrace(world, op, write, op.key);
    } else if write.RemoveAsset? {
      WriteKeepsNoReceipt(world, op, write);
    }
  }

  /** The marker goes only when nothing of the asset is left, and the asset only after its receipts. */
  lemma {:induction false} MarkerGoesLast(world: World, op: Operation, writes: seq<Write>, after: World)
    requires CleansTo(world, op, writes, after)
    ensures op.key.asset in world.markers && op.key.asset !in after.markers ==> NoTrace(after, op.key)
    ensures op.key in world.assets && op.key !in after.assets ==> NoReceipt(after, op.key)
    decreases |writes|
  {
    if writes != [] {
      var middle := Apply(world, op, writes[0]);
      RemovalIsLate(world, op, writes[0]);
      MarkerGoesLast(middle, op, writes[1..], after);
      if NoTrace(middle, op.key) { TraceNeverReturns(middle, op, writes[1..], after, op.key); }
      if NoReceipt(middle, op.key) { ReceiptNeverReturns(middle, op, writes[1..], after); }
    }
  }

  /******* The end state, seen from inside *******/

  lemma EarlyReachesItself(world: World, op: Operation)
    ensures EarlyReaches(world, world, op)
  {
    assert CleansTo(world, op, [], world) && AllEarly([]);
  }

  lemma EarlyReachesNext(before: World, middle: World, op: Operation, write: Write)
    requires EarlyReaches(before, middle, op) && Cleans(middle, op, write) && IsEarly(write)
    ensures EarlyReaches(before, Apply(middle, op, write), op)
  {
    var writes :| CleansTo(before, op, writes, middle) && AllEarly(writes);
    CleansToStep(before, op, writes, middle, write);
    assert AllEarly(writes + [write]);
  }

  lemma EarlyReachesJoin(before: World, middle: World, after: World, op: Operation)
    requires EarlyReaches(before, middle, op) && EarlyReaches(middle, after, op)
    ensures EarlyReaches(before, after, op)
  {
    var first :| CleansTo(before, op, first, middle) && AllEarly(first);
    var second :| CleansTo(middle, op, second, after) && AllEarly(second);
    CleansToJoin(before, op, first, middle, second, after);
    assert AllEarly(first + second);
  }

  lemma CleanupReachesItself(world: World, op: Operation)
    ensures CleanupReaches(world, world, op)
  {
    assert CleansTo(world, op, [], world);
  }

  lemma CleanupReachesJoin(before: World, middle: World, after: World, op: Operation)
    requires CleanupReaches(before, middle, op) && CleanupReaches(middle, after, op)
    ensures CleanupReaches(before, after, op)
  {
    var first :| CleansTo(before, op, first, middle);
    var second :| CleansTo(middle, op, second, after);
    CleansToJoin(before, op, first, middle, second, after);
  }

  lemma CleanupReachesNext(before: World, middle: World, op: Operation, write: Write)
    requires CleanupReaches(before, middle, op) && Cleans(middle, op, write)
    ensures CleanupReaches(before, Apply(middle, op, write), op)
  {
    var writes :| CleansTo(before, op, writes, middle);
    CleansToStep(before, op, writes, middle, write);
  }

  /** A world in which the clean-up finds nothing to do. */
  predicate Clean(world: World, op: Operation) {
    && NoTrace(world, op.key) && NoReceipt(world, op.key) && op.key.asset !in world.markers
    && (forall id | id in world.jobs :: !ListedJob(op, id, world.jobs[id]))
    && (forall id | id in world.audit && Linked(world.audit[id], op) :: world.audit[id] == Anonymized(world.audit[id], op))
    && op.key.organization in world.seals && SealHolds(world, op.key.organization)
  }

  lemma CleanAuditIsCleared(world: World, op: Operation)
    requires Clean(world, op)
    ensures Cleared(world, op).audit == world.audit && Cleared(world, op).seals == world.seals
  {
    assert ClearedAudit(world.audit, op) == world.audit;
  }

  lemma CleanIsCleared(world: World, op: Operation)
    requires Clean(world, op)
    ensures Cleared(world, op) == world
  {
    var cleared := Cleared(world, op);
    assert cleared.verifications == world.verifications;
    assert cleared.jobs == world.jobs;
    CleanAuditIsCleared(world, op);
    assert cleared.recurrences == world.recurrences;
    assert cleared.approvals == world.approvals;
    assert cleared.receipts == world.receipts;
  }

  /** A clean-up that ends with nothing to do has reached exactly the end state. */
  lemma CleanupEndsCleared(before: World, after: World, op: Operation)
    requires CleanupReaches(before, after, op) && Clean(after, op)
    ensures after == Cleared(before, op)
  {
    var writes :| CleansTo(before, op, writes, after);
    CleanupKeepsEnd(before, op, writes, after);
    CleanIsCleared(after, op);
  }
}
