/**
 The approval store: one collection per organization, replaced as a whole by each operation.
 Every method does the step of `ChangeApprovals` to its organization and touches no other.
 */
module ChangeApprovalStore {
  import opened Common
  import opened ChangeApprovals
  import opened ChangeApprovalMeaning

  /** There is one request under way for a change and a requester, so which one is found makes no difference. */
  lemma ExistingIsAnswered(collection: Collection, now: int, request: Operation, id: string)
    requires Valid(Normalize(collection, now)) && request.Request?
    requires
      var records := Normalize(collection, now).records;
      id in records && SameRequest(records[id], request.operation, request.actor)
    ensures Requested(collection, now, request) == Reply(collection, Ok(Normalize(collection, now).records[id]))
  {
  }

  lemma NewIsAnswered(collection: Collection, now: int, request: Operation, existing: set<string>)
    requires request.Request? && existing == {}
    requires
      var records := Normalize(collection, now).records;
      existing == set id | id in records && SameRequest(records[id], request.operation, request.actor)
    ensures
      var current, record := Normalize(collection, now), NewRecord(now, request);
      Requested(collection, now, request) ==
        if |current.records| >= MAX_RECORDS then Reply(collection, Err(CapacityReached))
        else if !WellFormed(record) then Reply(collection, Err(InvalidRequest))
        else Reply(ChangeApprovals.Save(current, record), Ok(record))
  {
    var records := Normalize(collection, now).records;
    assert forall id | id in records && SameRequest(records[id], request.operation, request.actor) :: id in existing;
  }

  class ActiveChangeApprovalStore {
    var stored: map<string, Collection>

    function Load(organization: string): Collection
      reads this
    {
      if organization in stored then stored[organization] else Collection(0, map[])
    }

    /** Opening the store interrupts what was executing when the process ended. */
    constructor (found: map<string, Collection>, now: int)
      ensures stored.Keys == found.Keys
      ensures forall organization | organization in found :: stored[organization] == Recovered(found[organization], now)
      ensures forall organization | organization in found && Valid(found[organization]) ::
        IsRecovered(found[organization].records, stored[organization].records, now)
    {
      stored := found;
      new;
      RecoverInterrupted(now);
    }

    method Save(organization: string, collection: Collection)
      modifies this
      ensures stored == old(stored)[organization := collection]
    {
      stored := stored[organization := collection];
    }

    method Request(organization: string, now: int, request: Operation) returns (result: Result)
      requires Valid(Load(organization)) && request.Request?
      modifies this
      ensures Reply(Load(organization), result) == Requested(old(Load(organization)), now, request)
      ensures RequestAnswers(old(Load(organization)), Load(organization), result, now, request)
      ensures forall other | other != organization :: Load(other) == old(Load(other))
    {
      var collection := Load(organization);
      var current := Normalize(collection, now);
      RequestIsAnswered(collection, now, request);
      NormalizeKeepsValid(collection, now);
      var existing := set id | id in current.records && SameRequest(current.records[id], request.operation, request.actor);
      if existing != {} {
        var id :| id in existing;
        ExistingIsAnswered(collection, now, request, id);
        return Ok(current.records[id]);
      }
      var record := NewRecord(now, request);
      NewIsAnswered(collection, now, request, existing);
      if |current.records| >= MAX_RECORDS { return Err(CapacityReached); }
      if !WellFormed(record) { return Err(InvalidRequest); }
      Save(organization, ChangeApprovals.Save(current, record));
      return Ok(record);
    }

    method Decide(organization: string, now: int, id: string, actor: Actor, administrator: bool, approve: bool)
      returns (result: Result)
      modifies this
      ensures Reply(Load(organization), result) == Decided(old(Load(organization)), now, id, actor, administrator, approve)
      ensures Valid(old(Load(organization))) ==>
        DecideAnswers(old(Load(organization)), Load(organization), result, now, id, actor, administrator, approve)
      ensures forall other | other != organization :: Load(other) == old(Load(other))
    {
      if Valid(Load(organization)) { DecideIsAnswered(Load(organization), now, id, actor, administrator, approve); }
      if !administrator { return Err(AdministratorRequired); }
      var collection := Load(organization);
      var current := Normalize(collection, now);
      if id !in current.records { return Err(NotFound); }
      var record := current.records[id];
      if record.status != Pending { return Err(StateChanged); }
      if record.requester == actor { return Err(SameActor); }
      record := record.(approver := Some(actor), decidedAt := Some(now));
      if approve {
        record := record.(status := Approved);
      } else {
        record := record.(status := Rejected, summary := Scrubbed(record.summary));
      }
      Save(organization, ChangeApprovals.Save(current, record));
      return Ok(record);
    }

    method Claim(organization: string, now: int, id: string, actor: Actor, kind: Kind, asset: Option<string>, operation: string)
      returns (result: Result)
      modifies this
      ensures Reply(Load(organization), result) == Claimed(old(Load(organization)), now, id, actor, kind, asset, operation)
      ensures Valid(old(Load(organization))) ==>
        ClaimAnswers(old(Load(organization)), Load(organization), result, now, id, actor, kind, asset, operation)
      ensures forall other | other != organization :: Load(other) == old(Load(other))
    {
      var collection := Load(organization);
      var current := Normalize(collection, now);
      if Valid(collection) { ClaimIsAnswered(collection, now, id, actor, kind, asset, operation); }
      if id !in current.records { return Err(NotFound); }
      var record := current.records[id];
      if record.status != Approved { return Err(NotReady); }
      if record.requester != actor { return Err(RequesterRequired); }
      if record.kind != kind || record.asset != asset || record.operation != operation { return Err(Mismatch); }
      record := record.(status := Executing);
      Save(organization, ChangeApprovals.Save(current, record));
      return Ok(record);
    }

    method ClaimMatching(organization: string, now: int, actor: Actor, kind: Kind, asset: Option<string>, operation: string)
      returns (result: Result)
      modifies this
      ensures Reply(Load(organization), result) == ClaimedMatching(old(Load(organization)), now, actor, kind, asset, operation)
      ensures Valid(old(Load(organization))) ==>
        ClaimMatchingAnswers(old(Load(organization)), Load(organization), result, now, actor, kind, asset, operation)
      ensures forall other | other != organization :: Load(other) == old(Load(other))
    {
      var collection := Load(organization);
      var current := Normalize(collection, now);
      if Valid(collection) { ClaimMatchingIsAnswered(collection, now, actor, kind, asset, operation); }
      var matches := Matches(current, actor, kind, asset, operation);
      if |matches| != 1 { return Err(NotReady); }
      var id :| id in matches;
      SingletonHasOne(matches, id);
      var record := current.records[id].(status := Executing);
      Save(organization, ChangeApprovals.Save(current, record));
      return Ok(record);
    }

    method Finish(organization: string, now: int, id: string, succeeded: bool) returns (result: Result)
      modifies this
      ensures Reply(Load(organization), result) == Finished(old(Load(organization)), now, id, succeeded)
      ensures Valid(old(Load(organization))) ==>
        FinishAnswers(old(Load(organization)), Load(organization), result, now, id, succeeded)
      ensures forall other | other != organization :: Load(other) == old(Load(other))
    {
      var collection := Load(organization);
      if Valid(collection) { FinishIsAnswered(collection, now, id, succeeded); }
      if id !in collection.records { return Err(NotFound); }
      var record := collection.records[id];
      if record.status != Executing { return Err(NotExecuting); }
      if succeeded {
        record := record.(status := Consumed, consumedAt := Some(now), summary := Scrubbed(record.summary));
      } else {
        record := record.(status := Approved, consumedAt := None);
      }
      Save(organization, ChangeApprovals.Save(collection, record));
      return Ok(record);
    }

    method RecoverInterrupted(now: int)
      modifies this
      ensures stored.Keys == old(stored).Keys
      ensures forall organization | organization in stored ::
        stored[organization] == Recovered(old(stored)[organization], now)
      ensures forall organization | organization in stored && Valid(old(stored)[organization]) ::
        IsRecovered(old(stored)[organization].records, stored[organization].records, now)
    {
      var organizations := stored.Keys;
      while organizations != {}
        invariant organizations <= stored.Keys && stored.Keys == old(stored).Keys
        invariant forall o | o in stored ::
          stored[o] == if o in organizations then old(stored)[o] else Recovered(old(stored)[o], now)
        decreases |organizations|
      {
        var organization :| organization in organizations;
        Save(organization, Recovered(stored[organization], now));
        organizations := organizations - {organization};
      }
      forall organization | organization in stored && Valid(old(stored)[organization])
        ensures IsRecovered(old(stored)[organization].records, stored[organization].records, now)
      {
        RecoverExactly(old(stored)[organization], now);
      }
    }

    method RemoveAsset(organization: string, asset: string) returns (removed: nat)
      modifies this
      ensures Load(organization) == WithoutAsset(old(Load(organization)), asset)
      ensures forall id | id in old(Load(organization)).records ::
        id in Load(organization).records <==> old(Load(organization)).records[id].asset != Some(asset)
      ensures forall id | id in Load(organization).records ::
        id in old(Load(organization)).records && Load(organization).records[id] == old(Load(organization)).records[id]
      ensures removed == |old(Load(organization)).records| - |Load(organization).records|
      ensures forall other | other != organization :: Load(other) == old(Load(other))
    {
      var collection := Load(organization);
      var records := map id | id in collection.records && collection.records[id].asset != Some(asset) :: collection.records[id];
      FewerRecords(records, collection.records);
      removed := |collection.records| - |records|;
      if removed > 0 {
        Save(organization, Collection(collection.revision + 1, records));
      } else {
        SameSizeIsSame(records, collection.records);
      }
    }

    method PurgeTerminal(organization: string, now: int, cutoff: int) returns (removed: nat)
      modifies this
      ensures Load(organization) == Purged(old(Load(organization)), now, cutoff)
      ensures IsNormalized(old(Load(organization)).records, Load(organization).records, now, cutoff)
      ensures removed == |old(Load(organization)).records| - |Load(organization).records|
      ensures forall other | other != organization :: Load(other) == old(Load(other))
    {
      var collection := Load(organization);
      var normalized := NormalizeExpired(collection, now);
      PurgeExactly(collection, now, cutoff);
      assert normalized.records.Keys == collection.records.Keys;
      var records := WithoutOutlived(normalized.records, cutoff);
      FewerRecords(records, normalized.records);
      removed := |normalized.records| - |records|;
      if removed == 0 { SameSizeIsSame(records, normalized.records); }
      if removed > 0 || normalized != collection {
        Save(organization, Collection(if removed > 0 then normalized.revision + 1 else normalized.revision, records));
      }
    }
  }

  lemma SingletonHasOne<T>(s: set<T>, x: T)
    requires |s| == 1 && x in s
    ensures s == {x}
  {
    assert |s - {x}| == 0;
  }

  lemma SameSizeIsSame(fewer: map<string, Record>, records: map<string, Record>)
    requires fewer.Keys <= records.Keys && |fewer| == |records|
    requires forall id | id in fewer :: fewer[id] == records[id]
    ensures fewer == records
  {
    assert |fewer| == |fewer.Keys| && |records| == |records.Keys|;
    SubsetIsSmaller(fewer.Keys, records.Keys);
  }
}
