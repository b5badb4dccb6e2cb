/**
 The verification store as a class over one organization's records, and the query for assets whose
 latest verification failed or expired.
 */
module VerificationStore {
  import opened Common
  import opened Keyset
  import opened Verifications

  datatype StartError = AssetNotCurrent | RateLimited | NotFound | NotPending(status: Status)

  datatype Reply = Done(record: Record) | Refused(error: StartError)

  /******* Latest records *******/

  function KeyOf(record: Record): TimeKey {
    TimeKey(record.created, record.id)
  }

  predicate IsLatest(records: Records, id: string)
    requires id in records
  {
    forall other | other in records && records[other].asset == records[id].asset ::
      other == id || Earlier(KeyOf(records[other]), KeyOf(records[id]))
  }

  predicate NeedsAttention(record: Record, now: int) {
    var status := Materialized(record, now).status;
    status.Failed? || status.Expired?
  }

  /** The assets whose latest record, as it stands now, failed or expired. */
  function AttentionAssets(records: Records, now: int): set<string> {
    set id | id in records && IsLatest(records, id) && NeedsAttention(records[id], now) :: records[id].asset
  }

  /** The query's own condition on a row, which knows nothing of materializing. */
  predicate RowNeedsAttention(record: Record, now: int) {
    || record.status.Failed? || record.status.Expired?
    || (record.status.Pending? && record.challengeExpires <= now)
    || (record.status.Verified? && record.verificationExpires.Some? && record.verificationExpires.value <= now)
  }

  predicate WellNamed(records: Records) {
    forall id | id in records :: records[id].id == id
  }

  function AssetsOf(records: Records, keys: seq<TimeKey>): set<string> {
    set i | 0 <= i < |keys| && keys[i].id in records :: records[keys[i].id].asset
  }

  predicate AllLatest(records: Records, keys: seq<TimeKey>) {
    forall i | 0 <= i < |keys| :: keys[i].id in records && IsLatest(records, keys[i].id)
  }

  lemma LatestIsOne(records: Records, a: string, b: string)
    requires a in records && b in records && records[a].asset == records[b].asset
    requires IsLatest(records, a) && IsLatest(records, b)
    ensures a == b
  {
    TimeKeysAreOrdered();
  }

  /** Latest records of different keys belong to different assets. */
  lemma {:induction false} EachKeyIsAnAsset(records: Records, keys: seq<TimeKey>)
    requires AllLatest(records, keys)
    requires forall i, j | 0 <= i < j < |keys| :: keys[i].id != keys[j].id
    ensures |AssetsOf(records, keys)| == |keys|
    decreases |keys|
  {
    if keys != [] {
      var n := |keys| - 1;
      var rest, asset := keys[..n], records[keys[n].id].asset;
      EachKeyIsAnAsset(records, rest);
      if asset in AssetsOf(records, rest) {
        var i :| 0 <= i < n && records[rest[i].id].asset == asset;
        LatestIsOne(records, keys[i].id, keys[n].id);
        assert false;
      }
      assert AssetsOf(records, keys) == AssetsOf(records, rest) + {asset};
    }
  }

  predicate HasLapsed(record: Record, now: int) {
    record.status.Verified? && record.verificationExpires.Some? && record.verificationExpires.value <= now
  }

  /** The latest record of an asset that is shown is newer than that of one that is left out. */
  ghost predicate AreNewest(records: Records, shown: set<string>, all: set<string>) {
    forall i, j | i in records && j in records && IsLatest(records, i) && IsLatest(records, j)
      && records[i].asset in shown && records[j].asset in all - shown ::
      Earlier(KeyOf(records[j]), KeyOf(records[i]))
  }

  lemma TakenAreNewest(records: Records, rows: set<TimeKey>, all: seq<TimeKey>, limit: nat, now: int)
    requires WellNamed(records) && Ascending(all, Later) && Elements(all) == rows
    requires rows == set id | id in records && IsLatest(records, id) && RowNeedsAttention(records[id], now) :: KeyOf(records[id])
    ensures AreNewest(records, AssetsOf(records, Take(limit, all)), AttentionAssets(records, now))
  {
    TimeKeysAreOrdered();
    TakenFirst(all, limit, Later);
    SortedRowsAreAssets(records, rows, all, now);
    var shown := Take(limit, all);
    forall i, j | i in records && j in records && IsLatest(records, i) && IsLatest(records, j)
      && records[i].asset in AssetsOf(records, shown) && records[j].asset in AttentionAssets(records, now) - AssetsOf(records, shown)
      ensures Earlier(KeyOf(records[j]), KeyOf(records[i]))
    {
      var k :| 0 <= k < |shown| && shown[k].id in records && records[shown[k].id].asset == records[i].asset;
      assert shown[k] == all[k] && all[k] in rows;
      LatestIsOne(records, shown[k].id, i);
      OutsideIsCutOff(records, rows, all, shown, j, now);
    }
  }

  lemma ShownIsAsset(records: Records, shown: seq<TimeKey>, key: TimeKey)
    requires key in shown && key.id in records
    ensures records[key.id].asset in AssetsOf(records, shown)
  {
  }

  lemma OutsideIsCutOff(records: Records, rows: set<TimeKey>, all: seq<TimeKey>, shown: seq<TimeKey>, j: string, now: int)
    requires WellNamed(records) && Elements(all) == rows
    requires rows == set id | id in records && IsLatest(records, id) && RowNeedsAttention(records[id], now) :: KeyOf(records[id])
    requires j in records && IsLatest(records, j)
    requires records[j].asset in AttentionAssets(records, now) && records[j].asset !in AssetsOf(records, shown)
    ensures KeyOf(records[j]) in all && KeyOf(records[j]) !in shown
  {
    var id :| id in records && IsLatest(records, id) && NeedsAttention(records[id], now) && records[id].asset == records[j].asset;
    LatestIsOne(records, id, j);
    assert KeyOf(records[j]) in Elements(all);
    if KeyOf(records[j]) in shown { ShownIsAsset(records, shown, KeyOf(records[j])); }
  }

  /** A start revokes exactly the pending challenges of its asset and leaves every other record as it is. */
  predicate IsStarted(before: Records, after: Records, asset: string, id: string, read: int) {
    && after.Keys == before.Keys + {id}
    && forall i | i in before && i != id ::
         after[i] == if before[i].asset == asset && before[i].status.Pending? && read < before[i].challengeExpires
           then before[i].(status := Revoked) else before[i]
  }

  function StartedAfter(records: Records, asset: string, time: int): set<string> {
    set i | i in records && records[i].asset == asset && time < records[i].created
  }

  lemma StartInFields(before: Records, asset: string, record: Record, now: int, read: int)
    requires record.id !in before
    ensures IsStarted(before, Superseded(before, asset, read)[record.id := record], asset, record.id, read)
    ensures Recent(before, asset, now) == StartedAfter(before, asset, now - 3_600_000_000)
  {
  }

  /** Every asset that has records has one that is latest, by time and identifier. */
  lemma EachAssetHasALatest(records: Records, id: string)
    requires WellNamed(records) && id in records
    ensures exists latest :: latest in records && records[latest].asset == records[id].asset && IsLatest(records, latest)
  {
    var keys := set i | i in records && records[i].asset == records[id].asset :: KeyOf(records[i]);
    TimeKeysAreOrdered();
    assert KeyOf(records[id]) in keys;
    LeastExists(keys, Later);
    var key :| IsLeast(key, keys, Later);
    var latest :| latest in records && records[latest].asset == records[id].asset && KeyOf(records[latest]) == key;
    forall other | other in records && records[other].asset == records[latest].asset && other != latest
      ensures Earlier(KeyOf(records[other]), KeyOf(records[latest]))
    {
      assert KeyOf(records[other]) in keys;
    }
  }

  /** An asset needs attention exactly if none of its records is later than one that failed or has run out. */
  lemma AttentionExactly(records: Records, now: int, asset: string)
    ensures asset in AttentionAssets(records, now) <==>
      exists id :: id in records && records[id].asset == asset && RowNeedsAttention(records[id], now)
        && forall other | other in records && other != id && records[other].asset == asset ::
             Earlier(TimeKey(records[other].created, records[other].id), TimeKey(records[id].created, records[id].id))
  {
    forall id | id in records && records[id].asset == asset
      ensures IsLatest(records, id) <==>
        forall other | other in records && other != id && records[other].asset == asset ::
          Earlier(TimeKey(records[other].created, records[other].id), TimeKey(records[id].created, records[id].id))
    {
    }
  }

  class ActiveAssetVerificationStore {
    var records: Records

    constructor ()
      ensures records == map[]
    {
      records := map[];
    }

    /** The loop of a start over the older challenges of its asset. */
    method RevokePending(asset: string, read: int)
      modifies this
      ensures records == Superseded(old(records), asset, read)
    {
      var ids := set i | i in records && records[i].asset == asset;
      while ids != {}
        invariant records.Keys == old(records).Keys && ids <= records.Keys
        invariant forall i | i in records ::
          records[i] == if i in ids then old(records)[i] else Supersede(old(records)[i], asset, read)
        invariant records == Step(old(records), Event(read, read, SupersedeOnly(asset, old(records).Keys - ids)))
        decreases |ids|
      {
        var i :| i in ids;
        if Materialized(records[i], read).status == Pending && records[i].asset == asset {
          records := records[i := records[i].(status := Revoked)];
        }
        ids := ids - {i};
      }
      assert records == Superseded(old(records), asset, read);
    }

    /** Starts a challenge unless five were started in the last hour; the asset's pending ones are revoked. */
    method Start(asset: string, assetCurrent: bool, deletionPending: bool, id: string, challenge: string, validDays: nat,
                 now: int, read: int)
      returns (reply: Reply)
      requires id !in records
      modifies this
      ensures assetCurrent && !deletionPending ==>
        records == Step(old(records), Event(now, read, Action.Start(id, asset, challenge, validDays)))
      ensures reply.Done? ==> id in records && records[id] == reply.record && IsPending(reply.record, now)
      ensures reply.Done? ==> reply.record == Record(id, asset, Pending, challenge, now, now + 900 * SECOND, validDays, None)
      ensures reply.Refused? ==> records == old(records)
      ensures reply.Refused? ==>
        reply.error == if !assetCurrent then AssetNotCurrent else if deletionPending then NotFound else RateLimited
      ensures reply.Done? ==> IsStarted(old(records), records, asset, id, read)
      ensures reply.Done? <==> assetCurrent && !deletionPending && |StartedAfter(old(records), asset, now - 3_600_000_000)| < 5
    {
      StartInFields(records, asset, NewRecord(id, asset, challenge, validDays, now), now, read);
      if !assetCurrent { return Refused(AssetNotCurrent); }
      if deletionPending { return Refused(NotFound); }
      if |Recent(records, asset, now)| >= MAX_STARTS_PER_HOUR { return Refused(RateLimited); }
      RevokePending(asset, read);
      var record := NewRecord(id, asset, challenge, validDays, now);
      records := records[id := record];
      return Done(record);
    }

    /** Settles a pending challenge; a wrong token settles it as failed. */
    method Complete(id: string, asset: string, challenge: string, matched: bool, assetExpires: int, now: int, read: int)
      returns (reply: Reply)
      modifies this
      ensures records == Step(old(records), Event(now, read, Action.Complete(id, asset, challenge, matched, assetExpires)))
      ensures reply.Done? <==> id in old(records) && old(records)[id].asset == asset && IsPending(old(records)[id], read)
      ensures reply.Done? ==>
        && id in records && records[id] == reply.record
        && (reply.record.status.Verified? <==> matched && old(records)[id].challenge == challenge)
        && (!reply.record.status.Verified? ==> reply.record == old(records)[id].(status := Failed))
        && (reply.record.status.Verified? ==>
              && reply.record.verificationExpires.Some?
              && reply.record == old(records)[id].(status := Verified, verificationExpires := reply.record.verificationExpires))
      ensures reply.Done? && reply.record.status.Verified? ==>
        var expiry, requested := reply.record.verificationExpires.value, now + old(records)[id].validDays * DAY;
        expiry <= assetExpires && expiry <= requested && (expiry == assetExpires || expiry == requested)
      ensures reply.Done? ==> forall other | other != id :: other in records <==> other in old(records)
      ensures reply.Done? ==> forall other | other != id && other in records :: records[other] == old(records)[other]
      ensures reply.Refused? ==> records == old(records)
      ensures reply.Refused? ==>
        if id !in records || records[id].asset != asset then reply.error == NotFound
        else if records[id].status.Pending? || HasLapsed(records[id], read) then reply.error == NotPending(Expired)
        else reply.error == NotPending(records[id].status)
    {
      if id !in records || records[id].asset != asset { return Refused(NotFound); }
      var record := Materialized(records[id], read);
      if record.status != Pending { return Refused(NotPending(record.status)); }
      var observed := matched;
      if record.challenge != challenge { observed := false; }
      var updated := Completed(record, observed, assetExpires, now);
      records := records[id := updated];
      return Done(updated);
    }

    method Revoke(id: string, asset: string, now: int, read: int) returns (reply: Reply)
      modifies this
      ensures records == Step(old(records), Event(now, read, Action.Revoke(id, asset)))
      ensures reply.Done? <==> id in old(records) && old(records)[id].asset == asset
      ensures reply.Done? ==> reply.record == old(records)[id].(status := Revoked)
      ensures reply.Done? ==> records == old(records)[id := old(records)[id].(status := Revoked)]
    {
      if id !in records || records[id].asset != asset { return Refused(NotFound); }
      var record := Materialized(records[id], read);
      if record.status == Revoked { return Done(record); }
      var updated := record.(status := Revoked);
      records := records[id := updated];
      return Done(updated);
    }

    /** The loop that deletes an asset's challenges, and their number. */
    method DeleteForAsset(asset: string, now: int, read: int) returns (removed: nat)
      modifies this
      ensures records == Step(old(records), Event(now, read, DeleteAsset(asset)))
      ensures forall id | id in old(records) :: id in records <==> old(records)[id].asset != asset
      ensures forall id | id in records :: id in old(records) && records[id] == old(records)[id]
      ensures removed == |set id | id in old(records) && old(records)[id].asset == asset|
    {
      var ids := set id | id in records && records[id].asset == asset;
      removed := |ids|;
      while ids != {}
        invariant ids <= (set id | id in old(records) && old(records)[id].asset == asset)
        invariant forall id | id in old(records) :: id in records <==> id in ids || old(records)[id].asset != asset
        invariant forall id | id in records :: id in old(records) && records[id] == old(records)[id]
        decreases |ids|
      {
        var id :| id in ids;
        records := records - {id};
        ids := ids - {id};
      }
    }

    /**
     The newest assets that need attention, at most `limit`: all of them exactly if there are no
     more than `limit`.
     */
    method AttentionAssetIds(now: int, limit: int) returns (assets: Option<set<string>>)
      requires WellNamed(records)
      ensures assets.Some? <==> 1 <= limit <= 500
      ensures assets.Some? ==>
        && assets.value <= AttentionAssets(records, now)
        && (assets.value == AttentionAssets(records, now) <==> |AttentionAssets(records, now)| <= limit)
        && |assets.value| == (if |AttentionAssets(records, now)| <= limit then |AttentionAssets(records, now)| else limit)
        && AreNewest(records, assets.value, AttentionAssets(records, now))
    {
      if !(1 <= limit <= MAX_ASSETS) { return None; }
      var rows := set id | id in records && IsLatest(records, id) && RowNeedsAttention(records[id], now) :: KeyOf(records[id]);
      var all := Newest(rows);
      var shown := Take(limit, all);
      var found := set i | 0 <= i < |shown| && shown[i].id in records :: records[shown[i].id].asset;
      SortedRowsAreAssets(records, rows, all, now);
      EachKeyIsAnAsset(records, all);
      EachKeyIsAnAsset(records, shown);
      TakenAreNewest(records, rows, all, limit, now);
      assert found == AssetsOf(records, shown);
      assert shown == all ==> found == AttentionAssets(records, now);
      return Some(found);
    }
  }

  lemma SortedRowsAreAssets(records: Records, rows: set<TimeKey>, all: seq<TimeKey>, now: int)
    requires WellNamed(records) && Ascending(all, Later) && Elements(all) == rows
    requires rows == set id | id in records && IsLatest(records, id) && RowNeedsAttention(records[id], now) :: KeyOf(records[id])
    ensures AllLatest(records, all) && AssetsOf(records, all) == AttentionAssets(records, now)
    ensures forall i, j | 0 <= i < j < |all| :: all[i].id != all[j].id
  {
    assert forall i | 0 <= i < |all| :: all[i] in rows;
    forall i | 0 <= i < |all|
      ensures all[i].id in records && IsLatest(records, all[i].id) && RowNeedsAttention(records[all[i].id], now)
      ensures all[i] == KeyOf(records[all[i].id])
    {
      assert all[i] in rows;
    }
    forall i, j | 0 <= i < j < |all|
      ensures all[i].id != all[j].id
    {
      assert Later(all[i], all[j]);
      TextLessIsAsymmetric(all[i].id, all[j].id);
    }
    forall asset
      ensures asset in AssetsOf(records, all) <==> asset in AttentionAssets(records, now)
    {
      if asset in AttentionAssets(records, now) {
        var id :| id in records && IsLatest(records, id) && NeedsAttention(records[id], now) && records[id].asset == asset;
        assert KeyOf(records[id]) in rows && KeyOf(records[id]) in Elements(all);
      }
    }
  }
}
