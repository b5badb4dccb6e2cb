/**
 Journalled batch registration of assets and its recovery at restart.

 A single file replace or unlink is atomic and a failing one changes nothing; a crash may
 come between any two of them. An operation is therefore the list of its writes, and a crash
 leaves the disk after some prefix of that list. Batch and record identifiers are SHA-256
 digests in the program and injective constructors here.
 */
module BatchRegistration {

  datatype BatchId = BatchId(organization: string, actor: string, idempotencyKey: string)

  datatype AssetId = FromBatch(batch: BatchId, index: nat) | Single(name: string)

  datatype Asset = Asset(assetType: string, target: string, detail: string)

  datatype JournalState = Pending | Committed

  datatype Journal = Journal(digest: string, count: nat, state: JournalState)

  // Names the records FromBatch(batch, 0), ..., FromBatch(batch, count - 1).
  datatype Receipt = Receipt(digest: string, count: nat)

  datatype Disk = Disk(assets: map<AssetId, Asset>, receipts: map<BatchId, Receipt>, journals: map<BatchId, Journal>)

  /******* Writes *******/

  datatype Write =
    | PutAsset(id: AssetId, asset: Asset) | RemoveAsset(id: AssetId)
    | PutJournal(batch: BatchId, journal: Journal) | RemoveJournal(batch: BatchId)
    | PutReceipt(batch: BatchId, receipt: Receipt) | RemoveReceipt(batch: BatchId)

  function Apply(disk: Disk, write: Write): Disk {
    match write
    case PutAsset(id, asset) => disk.(assets := disk.assets[id := asset])
    case RemoveAsset(id) => disk.(assets := disk.assets - {id})
    case PutJournal(batch, journal) => disk.(journals := disk.journals[batch := journal])
    case RemoveJournal(batch) => disk.(journals := disk.journals - {batch})
    case PutReceipt(batch, receipt) => disk.(receipts := disk.receipts[batch := receipt])
    case RemoveReceipt(batch) => disk.(receipts := disk.receipts - {batch})
  }

  function Replay(disk: Disk, writes: seq<Write>): Disk {
    if writes == [] then disk
    else Apply(Replay(disk, writes[..|writes| - 1]), writes[|writes| - 1])
  }

  /** The disk a crash leaves after the first `cut` writes. */
  function CrashAfter(disk: Disk, writes: seq<Write>, cut: nat): Disk {
    Replay(disk, if cut <= |writes| then writes[..cut] else writes)
  }

  lemma {:induction false} ReplayConcat(disk: Disk, first: seq<Write>, second: seq<Write>)
    ensures Replay(disk, first + second) == Replay(Replay(disk, first), second)
    decreases |second|
  {
    if second == [] {
      assert first + second == first;
    } else {
      var last := |second| - 1;
      ReplayConcat(disk, first, second[..last]);
      assert (first + second)[..|first + second| - 1] == first + second[..last];
    }
  }

  lemma ReplayOneMore(disk: Disk, writes: seq<Write>, k: nat)
    requires k < |writes|
    ensures Replay(disk, writes[..k + 1]) == Apply(Replay(disk, writes[..k]), writes[k])
  {
    assert writes[..k + 1][..k] == writes[..k];
  }

  /******* What recovery makes of a disk *******/

  predicate Complete(disk: Disk, batch: BatchId, count: nat) {
    forall i | 0 <= i < count :: FromBatch(batch, i) in disk.assets
  }

  /** A journalled batch is kept exactly when it is committed and all its records are there. */
  predicate Survives(disk: Disk, batch: BatchId)
    requires batch in disk.journals
  {
    disk.journals[batch].state == Committed && Complete(disk, batch, disk.journals[batch].count)
  }

  predicate Doomed(disk: Disk, id: AssetId) {
    && id.FromBatch?
    && id.batch in disk.journals
    && id.index < disk.journals[id.batch].count
    && !Survives(disk, id.batch)
  }

  predicate KeepsAsset(disk: Disk, id: AssetId) {
    id in disk.assets && !Doomed(disk, id)
  }

  predicate KeepsReceipt(disk: Disk, batch: BatchId) {
    if batch in disk.journals then Survives(disk, batch) else batch in disk.receipts
  }

  function ReceiptFor(disk: Disk, batch: BatchId): Receipt
    requires batch in disk.receipts || batch in disk.journals
  {
    if batch in disk.receipts then disk.receipts[batch]
    else Receipt(disk.journals[batch].digest, disk.journals[batch].count)
  }

  /** Every journalled batch settled, one way or the other, and nothing else touched. */
  function Resolve(disk: Disk): Disk {
    Disk(
      map id | id in disk.assets && KeepsAsset(disk, id) :: disk.assets[id],
      map batch | batch in disk.receipts.Keys + disk.journals.Keys && KeepsReceipt(disk, batch) :: ReceiptFor(disk, batch),
      map[])
  }

  /** Two disks that keep the same records and receipts have the same resolution. */
  lemma SameResolution(one: Disk, other: Disk)
    requires forall id :: KeepsAsset(one, id) <==> KeepsAsset(other, id)
    requires forall id | KeepsAsset(one, id) && KeepsAsset(other, id) :: one.assets[id] == other.assets[id]
    requires forall batch :: KeepsReceipt(one, batch) <==> KeepsReceipt(other, batch)
    requires forall batch | KeepsReceipt(one, batch) && KeepsReceipt(other, batch) :: ReceiptFor(one, batch) == ReceiptFor(other, batch)
    ensures Resolve(one) == Resolve(other)
  {
    var a, b := Resolve(one), Resolve(other);
    assert forall id :: id in a.assets <==> KeepsAsset(one, id);
    assert forall id :: id in b.assets <==> KeepsAsset(other, id);
    assert forall batch :: batch in a.receipts <==> KeepsReceipt(one, batch);
    assert forall batch :: batch in b.receipts <==> KeepsReceipt(other, batch);
    assert a.assets == b.assets && a.receipts == b.receipts;
  }

  /******* The writes of each operation *******/

  function Removals(batch: BatchId, count: nat): seq<Write> {
    seq(count, i requires 0 <= i < count => RemoveAsset(FromBatch(batch, i)))
  }

  function Puts(batch: BatchId, assets: seq<Asset>): seq<Write> {
    seq(|assets|, i requires 0 <= i < |assets| => PutAsset(FromBatch(batch, i), assets[i]))
  }

  function CreateWrites(batch: BatchId, digest: string, assets: seq<Asset>): (writes: seq<Write>)
    ensures |writes| == |assets| + 4
  {
    [PutJournal(batch, Journal(digest, |assets|, Pending))]
    + Puts(batch, assets)
    + [PutJournal(batch, Journal(digest, |assets|, Committed)), PutReceipt(batch, Receipt(digest, |assets|)), RemoveJournal(batch)]
  }

  function RollbackWrites(batch: BatchId, created: nat): seq<Write> {
    Removals(batch, created) + [RemoveReceipt(batch), RemoveJournal(batch)]
  }

  /** How many record files exist when the write at index `fault` of `CreateWrites` fails. */
  function CreatedBefore(fault: nat, count: nat): nat {
    if fault == 0 then 0 else if fault - 1 < count then fault - 1 else count
  }

  /** One attempt to register a batch, in which the write at index `fault` fails, if there is one. */
  function AttemptWrites(batch: BatchId, digest: string, assets: seq<Asset>, fault: nat): seq<Write> {
    var writes := CreateWrites(batch, digest, assets);
    if fault >= |writes| then writes
    else writes[..fault] + RollbackWrites(batch, CreatedBefore(fault, |assets|))
  }

  function JournalWrites(disk: Disk, batch: BatchId): seq<Write>
    requires batch in disk.journals
  {
    if Survives(disk, batch) then
      (if batch in disk.receipts then [] else [PutReceipt(batch, ReceiptFor(disk, batch))]) + [RemoveJournal(batch)]
    else RollbackWrites(batch, disk.journals[batch].count)
  }

  /** Recovery visits the journals in the order in which the directory lists them. */
  function RecoveryWrites(disk: Disk, order: seq<BatchId>): seq<Write>
    decreases |order|
  {
    if order == [] then []
    else if order[0] !in disk.journals then RecoveryWrites(disk, order[1..])
    else
      var first := JournalWrites(disk, order[0]);
      first + RecoveryWrites(Replay(disk, first), order[1..])
  }

  predicate Names(disk: Disk, id: AssetId) {
    id.FromBatch? && id.batch in disk.receipts && id.index < disk.receipts[id.batch].count
  }

  /** Deleting an asset first removes the receipt that names it. */
  function DeletionWrites(disk: Disk, id: AssetId): seq<Write> {
    (if Names(disk, id) then [RemoveReceipt(id.batch)] else []) + [RemoveAsset(id)]
  }

  /******* Recovery keeps the resolution at every write *******/

  ghost predicate IsRecoveryWrite(disk: Disk, batch: BatchId, write: Write)
    requires batch in disk.journals
  {
    if Survives(disk, batch) then
      || (batch !in disk.receipts && write == PutReceipt(batch, ReceiptFor(disk, batch)))
      || (batch in disk.receipts && write == RemoveJournal(batch))
    else
      || (write.RemoveAsset? && write.id.FromBatch? && write.id.batch == batch && write.id.index < disk.journals[batch].count)
      || write == RemoveReceipt(batch)
      || (write == RemoveJournal(batch) && batch !in disk.receipts
          && forall i | 0 <= i < disk.journals[batch].count :: FromBatch(batch, i) !in disk.assets)
  }

  lemma RecoveryWriteKeepsDecisions(disk: Disk, batch: BatchId, write: Write, other: BatchId)
    requires batch in disk.journals && IsRecoveryWrite(disk, batch, write)
    requires other in disk.journals && other in Apply(disk, write).journals
    ensures Survives(Apply(disk, write), other) == Survives(disk, other)
  {
    var after := Apply(disk, write);
    if write.RemoveAsset? && other == batch {
      assert write.id == FromBatch(batch, write.id.index) && write.id !in after.assets;
    }
    assert Complete(after, other, disk.journals[other].count) ==> Complete(disk, other, disk.journals[other].count);
  }

  lemma RecoveryWriteKeepsResolution(disk: Disk, batch: BatchId, write: Write)
    requires batch in disk.journals && IsRecoveryWrite(disk, batch, write)
    ensures Resolve(Apply(disk, write)) == Resolve(disk)
  {
    var after := Apply(disk, write);
    forall other | other in disk.journals && other in after.journals
      ensures Survives(after, other) == Survives(disk, other)
    {
      RecoveryWriteKeepsDecisions(disk, batch, write, other);
    }
    SameResolution(disk, after);
  }

  /** The disk after the first `k` writes of a rollback. */
  lemma {:induction false} AfterRemovals(disk: Disk, batch: BatchId, count: nat, k: nat)
    requires k <= count
    ensures var after := Replay(disk, RollbackWrites(batch, count)[..k]);
            && after.receipts == disk.receipts && after.journals == disk.journals
            && (forall id :: id in after.assets <==>
                  id in disk.assets && !(id.FromBatch? && id.batch == batch && id.index < k))
            && (forall id | id in after.assets :: after.assets[id] == disk.assets[id])
    decreases k
  {
    var writes := RollbackWrites(batch, count);
    if k > 0 {
      AfterRemovals(disk, batch, count, k - 1);
      ReplayOneMore(disk, writes, k - 1);
      assert writes[k - 1] == RemoveAsset(FromBatch(batch, k - 1));
    }
  }

  /** Every write of a journal's recovery is one, on the disk that it meets. */
  lemma {:induction false} JournalWritesRecover(disk: Disk, batch: BatchId, k: nat)
    requires batch in disk.journals && k < |JournalWrites(disk, batch)|
    ensures var before := Replay(disk, JournalWrites(disk, batch)[..k]);
            before.journals == disk.journals && IsRecoveryWrite(before, batch, JournalWrites(disk, batch)[k])
  {
    var writes := JournalWrites(disk, batch);
    if Survives(disk, batch) {
      if k > 0 {
        ReplayOneMore(disk, writes, 0);
      }
    } else {
      var count := disk.journals[batch].count;
      AfterRemovals(disk, batch, count, if k < count then k else count);
      if k == count + 1 {
        ReplayOneMore(disk, writes, count);
      }
      var before := Replay(disk, writes[..k]);
      assert Complete(before, batch, count) ==> Complete(disk, batch, count);
    }
  }

  lemma {:induction false} JournalPrefixKeepsResolution(disk: Disk, batch: BatchId, k: nat)
    requires batch in disk.journals && k <= |JournalWrites(disk, batch)|
    ensures Resolve(Replay(disk, JournalWrites(disk, batch)[..k])) == Resolve(disk)
    decreases k
  {
    if k > 0 {
      var writes := JournalWrites(disk, batch);
      JournalPrefixKeepsResolution(disk, batch, k - 1);
      JournalWritesRecover(disk, batch, k - 1);
      ReplayOneMore(disk, writes, k - 1);
      RecoveryWriteKeepsResolution(Replay(disk, writes[..k - 1]), batch, writes[k - 1]);
    }
  }

  lemma JournalIsSettled(disk: Disk, batch: BatchId)
    requires batch in disk.journals
    ensures Replay(disk, JournalWrites(disk, batch)).journals == disk.journals - {batch}
  {
    var writes := JournalWrites(disk, batch);
    var last := |writes| - 1;
    JournalWritesRecover(disk, batch, last);
    ReplayOneMore(disk, writes, last);
    assert writes[..last + 1] == writes;
  }

  /** Wherever recovery is cut short, the disk still has the resolution it had before. */
  lemma {:induction false} RecoveryCutKeepsResolution(disk: Disk, order: seq<BatchId>, cut: nat)
    ensures Resolve(CrashAfter(disk, RecoveryWrites(disk, order), cut)) == Resolve(disk)
    decreases |order|
  {
    var writes := RecoveryWrites(disk, order);
    if order == [] {
      assert writes[..0] == [];
    } else if order[0] !in disk.journals {
      RecoveryCutKeepsResolution(disk, order[1..], cut);
    } else {
      var first := JournalWrites(disk, order[0]);
      if cut <= |first| {
        assert writes[..cut] == first[..cut];
        JournalPrefixKeepsResolution(disk, order[0], cut);
      } else {
        var after := Replay(disk, first);
        var rest := RecoveryWrites(after, order[1..]);
        assert first[..|first|] == first;
        JournalPrefixKeepsResolution(disk, order[0], |first|);
        RecoveryCutKeepsResolution(after, order[1..], cut - |first|);
        var done := if cut <= |writes| then writes[..cut] else writes;
        assert done == first + if cut - |first| <= |rest| then rest[..cut - |first|] else rest;
        ReplayConcat(disk, first, if cut - |first| <= |rest| then rest[..cut - |first|] else rest);
      }
    }
  }

  lemma {:induction false} RecoverySettlesJournals(disk: Disk, order: seq<BatchId>)
    ensures Replay(disk, RecoveryWrites(disk, order)).journals == disk.journals - (set batch | batch in order)
    decreases |order|
  {
    if order == [] {
    } else {
      assert order == [order[0]] + order[1..];
      if order[0] !in disk.journals {
        RecoverySettlesJournals(disk, order[1..]);
      } else {
        var first := JournalWrites(disk, order[0]);
        JournalIsSettled(disk, order[0]);
        RecoverySettlesJournals(Replay(disk, first), order[1..]);
        ReplayConcat(disk, first, RecoveryWrites(Replay(disk, first), order[1..]));
      }
    }
  }

  predicate Lists(order: seq<BatchId>, disk: Disk) {
    forall batch | batch in disk.journals :: batch in order
  }

  /** A recovery that visits every journal leaves exactly the resolution, with no journal. */
  lemma RecoveryResolves(disk: Disk, order: seq<BatchId>)
    requires Lists(order, disk)
    ensures Replay(disk, RecoveryWrites(disk, order)) == Resolve(disk)
  {
    var writes := RecoveryWrites(disk, order);
    var after := Replay(disk, writes);
    RecoverySettlesJournals(disk, order);
    assert after.journals == map[];
    assert writes[..|writes|] == writes;
    RecoveryCutKeepsResolution(disk, order, |writes|);
    assert Resolve(after).assets == after.assets && Resolve(after).receipts == after.receipts;
  }

  /******* A registration is all or nothing *******/

  /** No file of this batch exists yet. */
  predicate Unknown(disk: Disk, batch: BatchId, count: nat) {
    && batch !in disk.receipts
    && batch !in disk.journals
    && forall i | 0 <= i < count :: FromBatch(batch, i) !in disk.assets
  }

  function BatchAssets(batch: BatchId, assets: seq<Asset>): map<AssetId, Asset> {
    map id | id in (set i | 0 <= i < |assets| :: FromBatch(batch, i)) :: assets[id.index]
  }

  /** All records and the receipt. */
  function Registered(disk: Disk, batch: BatchId, digest: string, assets: seq<Asset>): Disk {
    disk.(assets := disk.assets + BatchAssets(batch, assets), receipts := disk.receipts[batch := Receipt(digest, |assets|)])
  }

  /** How far a registration has come: its journal, the records `lo`..`hi` - 1 and its receipt. */
  datatype Stage = Stage(journal: JournalStage, lo: nat, hi: nat, receipt: bool)

  datatype JournalStage = Absent | Present(state: JournalState)

  ghost predicate At(stage: Stage, now: Disk, disk: Disk, batch: BatchId, digest: string, assets: seq<Asset>) {
    && stage.lo <= stage.hi <= |assets|
    && now.journals == (if stage.journal.Absent? then disk.journals
                        else disk.journals[batch := Journal(digest, |assets|, stage.journal.state)])
    && now.receipts == (if stage.receipt then disk.receipts[batch := Receipt(digest, |assets|)] else disk.receipts)
    && (forall id :: id in now.assets <==>
          id in disk.assets || (id.FromBatch? && id.batch == batch && stage.lo <= id.index < stage.hi))
    && (forall id | id in now.assets ::
          now.assets[id] == if id in disk.assets then disk.assets[id] else assets[id.index])
  }

  predicate Whole(stage: Stage, count: nat) {
    stage.lo == 0 && stage.hi == count
  }

  /** Without its journal a batch is either all there or not there at all. */
  predicate Coherent(stage: Stage, count: nat) {
    stage.journal.Absent? ==> if stage.receipt then Whole(stage, count) else stage.lo == stage.hi
  }

  predicate Decided(stage: Stage, count: nat) {
    if stage.journal.Absent? then stage.receipt
    else stage.journal.state == Committed && Whole(stage, count)
  }

  /** Every coherent stage resolves to all of the batch or to none of it. */
  lemma StageResolves(stage: Stage, now: Disk, disk: Disk, batch: BatchId, digest: string, assets: seq<Asset>)
    requires assets != [] && Unknown(disk, batch, |assets|)
    requires At(stage, now, disk, batch, digest, assets) && Coherent(stage, |assets|)
    ensures Resolve(now) ==
      if Decided(stage, |assets|) then Resolve(Registered(disk, batch, digest, assets)) else Resolve(disk)
  {
    var goal := if Decided(stage, |assets|) then Registered(disk, batch, digest, assets) else disk;
    if !stage.journal.Absent? {
      StageSurvives(stage, now, disk, batch, digest, assets);
    }
    forall id
      ensures KeepsAsset(now, id) <==> KeepsAsset(goal, id)
      ensures KeepsAsset(now, id) ==> now.assets[id] == goal.assets[id]
    {
      StageKeepsAsset(stage, now, disk, batch, digest, assets, id);
    }
    forall other
      ensures KeepsReceipt(now, other) <==> KeepsReceipt(goal, other)
      ensures KeepsReceipt(now, other) ==> ReceiptFor(now, other) == ReceiptFor(goal, other)
    {
      if other in disk.journals {
        OtherBatchesAreUntouched(stage, now, disk, batch, digest, assets, other);
      }
    }
    SameResolution(now, goal);
  }

  lemma OtherBatchesAreUntouched(
    stage: Stage, now: Disk, disk: Disk, batch: BatchId, digest: string, assets: seq<Asset>, other: BatchId)
    requires Unknown(disk, batch, |assets|) && At(stage, now, disk, batch, digest, assets)
    requires other in disk.journals
    ensures Survives(now, other) == Survives(disk, other) == Survives(Registered(disk, batch, digest, assets), other)
  {
    var count, all := disk.journals[other].count, Registered(disk, batch, digest, assets);
    assert forall i | 0 <= i < count :: FromBatch(other, i) in now.assets <==> FromBatch(other, i) in disk.assets;
    assert forall i | 0 <= i < count :: FromBatch(other, i) in all.assets <==> FromBatch(other, i) in disk.assets;
  }

  lemma StageKeepsAsset(
    stage: Stage, now: Disk, disk: Disk, batch: BatchId, digest: string, assets: seq<Asset>, id: AssetId)
    requires assets != [] && Unknown(disk, batch, |assets|)
    requires At(stage, now, disk, batch, digest, assets) && Coherent(stage, |assets|)
    requires !stage.journal.Absent? ==> Survives(now, batch) == Decided(stage, |assets|)
    ensures var goal := if Decided(stage, |assets|) then Registered(disk, batch, digest, assets) else disk;
            && (KeepsAsset(now, id) <==> KeepsAsset(goal, id))
            && (KeepsAsset(now, id) ==> now.assets[id] == goal.assets[id])
  {
    if id.FromBatch? && id.batch in disk.journals {
      OtherBatchesAreUntouched(stage, now, disk, batch, digest, assets, id.batch);
    } else if id.FromBatch? && id.batch == batch && id.index < |assets| {
      assert id == FromBatch(batch, id.index) && id !in disk.assets;
      assert id in BatchAssets(batch, assets);
    }
  }

  lemma StageSurvives(stage: Stage, now: Disk, disk: Disk, batch: BatchId, digest: string, assets: seq<Asset>)
    requires Unknown(disk, batch, |assets|) && assets != []
    requires At(stage, now, disk, batch, digest, assets) && !stage.journal.Absent?
    ensures Survives(now, batch) == Decided(stage, |assets|)
  {
    if Complete(now, batch, |assets|) {
      assert FromBatch(batch, 0) in now.assets && FromBatch(batch, |assets| - 1) in now.assets;
    }
  }

  /** The stage after the first `k` writes of a registration. */
  function CreateStage(count: nat, k: nat): Stage
    requires k <= count + 4
  {
    if k == 0 then Stage(Absent, 0, 0, false)
    else if k <= count + 1 then Stage(Present(Pending), 0, k - 1, false)
    else if k == count + 2 then Stage(Present(Committed), 0, count, false)
    else if k == count + 3 then Stage(Present(Committed), 0, count, true)
    else Stage(Absent, 0, count, true)
  }

  lemma CreateStep(now: Disk, disk: Disk, batch: BatchId, digest: string, assets: seq<Asset>, k: nat)
    requires Unknown(disk, batch, |assets|) && k < |assets| + 4
    requires At(CreateStage(|assets|, k), now, disk, batch, digest, assets)
    ensures At(CreateStage(|assets|, k + 1), Apply(now, CreateWrites(batch, digest, assets)[k]), disk, batch, digest, assets)
  {
    var write := CreateWrites(batch, digest, assets)[k];
    if k == 0 {
    } else if k <= |assets| {
      assert write == PutAsset(FromBatch(batch, k - 1), assets[k - 1]);
    } else if k == |assets| + 3 {
      assert write == RemoveJournal(batch);
      assert now.journals - {batch} == disk.journals;
    }
  }

  lemma {:induction false} CreateReaches(disk: Disk, batch: BatchId, digest: string, assets: seq<Asset>, k: nat)
    requires Unknown(disk, batch, |assets|) && k <= |assets| + 4
    ensures At(CreateStage(|assets|, k), Replay(disk, CreateWrites(batch, digest, assets)[..k]), disk, batch, digest, assets)
    decreases k
  {
    if k > 0 {
      CreateReaches(disk, batch, digest, assets, k - 1);
      ReplayOneMore(disk, CreateWrites(batch, digest, assets), k - 1);
      CreateStep(Replay(disk, CreateWrites(batch, digest, assets)[..k - 1]), disk, batch, digest, assets, k - 1);
    }
  }

  /** The stage after the first `j` writes of rolling back from `from`. */
  function RollbackStage(from: Stage, j: nat): Stage
    requires j <= from.hi + 2
  {
    if j <= from.hi then from.(lo := j)
    else if j == from.hi + 1 then Stage(from.journal, from.hi, from.hi, false)
    else Stage(Absent, from.hi, from.hi, false)
  }

  lemma RemovalsReach(
    from: Stage, start: Disk, now: Disk, disk: Disk, batch: BatchId, digest: string, assets: seq<Asset>, j: nat)
    requires Unknown(disk, batch, |assets|) && from.lo == 0 && j <= from.hi
    requires At(from, start, disk, batch, digest, assets)
    requires now == Replay(start, RollbackWrites(batch, from.hi)[..j])
    ensures At(RollbackStage(from, j), now, disk, batch, digest, assets)
  {
    AfterRemovals(start, batch, from.hi, j);
  }

  lemma ReceiptIsRolledBack(
    from: Stage, now: Disk, after: Disk, disk: Disk, batch: BatchId, digest: string, assets: seq<Asset>)
    requires Unknown(disk, batch, |assets|) && after == Apply(now, RemoveReceipt(batch))
    requires At(RollbackStage(from, from.hi), now, disk, batch, digest, assets)
    ensures At(RollbackStage(from, from.hi + 1), after, disk, batch, digest, assets)
  {
    assert now.receipts - {batch} == disk.receipts;
  }

  lemma JournalIsRolledBack(
    from: Stage, now: Disk, after: Disk, disk: Disk, batch: BatchId, digest: string, assets: seq<Asset>)
    requires Unknown(disk, batch, |assets|) && after == Apply(now, RemoveJournal(batch))
    requires At(RollbackStage(from, from.hi + 1), now, disk, batch, digest, assets)
    ensures At(RollbackStage(from, from.hi + 2), after, disk, batch, digest, assets)
  {
    assert now.journals - {batch} == disk.journals;
  }

  lemma RollbackReaches(
    from: Stage, start: Disk, disk: Disk, batch: BatchId, digest: string, assets: seq<Asset>, j: nat)
    requires Unknown(disk, batch, |assets|) && from.lo == 0 && j <= from.hi + 2
    requires At(from, start, disk, batch, digest, assets)
    ensures At(RollbackStage(from, j), Replay(start, RollbackWrites(batch, from.hi)[..j]), disk, batch, digest, assets)
  {
    var writes, n := RollbackWrites(batch, from.hi), from.hi;
    if j <= n {
      RemovalsReach(from, start, Replay(start, writes[..j]), disk, batch, digest, assets, j);
    } else {
      RemovalsReach(from, start, Replay(start, writes[..n]), disk, batch, digest, assets, n);
      LastRollbackWrites(start, batch, n);
      ReceiptIsRolledBack(from, Replay(start, writes[..n]), Replay(start, writes[..n + 1]), disk, batch, digest, assets);
      if j > n + 1 {
        JournalIsRolledBack(from, Replay(start, writes[..n + 1]), Replay(start, writes[..n + 2]), disk, batch, digest, assets);
      }
    }
  }

  lemma LastRollbackWrites(start: Disk, batch: BatchId, n: nat)
    ensures
      var writes := RollbackWrites(batch, n);
      && |writes| == n + 2
      && Replay(start, writes[..n + 1]) == Apply(Replay(start, writes[..n]), RemoveReceipt(batch))
      && Replay(start, writes[..n + 2]) == Apply(Replay(start, writes[..n + 1]), RemoveJournal(batch))
  {
    ReplayOneMore(start, RollbackWrites(batch, n), n);
    ReplayOneMore(start, RollbackWrites(batch, n), n + 1);
  }

  lemma PrefixOfJoin(first: seq<Write>, second: seq<Write>, k: nat)
    requires |first| <= k <= |first| + |second|
    ensures (first + second)[..k] == first + second[..k - |first|]
  {
  }

  lemma RollbackReplay(disk: Disk, batch: BatchId, digest: string, assets: seq<Asset>, fault: nat, k: nat)
    requires fault < |assets| + 4 && fault <= k <= fault + CreateStage(|assets|, fault).hi + 2
    ensures
      var create, undo := CreateWrites(batch, digest, assets)[..fault], RollbackWrites(batch, CreateStage(|assets|, fault).hi);
      k - fault <= |undo| &&
      Replay(disk, AttemptWrites(batch, digest, assets, fault)[..k]) == Replay(Replay(disk, create), undo[..k - fault])
  {
    var create, undo := CreateWrites(batch, digest, assets)[..fault], RollbackWrites(batch, CreateStage(|assets|, fault).hi);
    PrefixOfJoin(create, undo, k);
    ReplayConcat(disk, create, undo[..k - fault]);
  }

  lemma RollbackAttemptReaches(disk: Disk, batch: BatchId, digest: string, assets: seq<Asset>, fault: nat, k: nat)
    requires Unknown(disk, batch, |assets|)
    requires fault < |assets| + 4 && fault <= k <= fault + CreateStage(|assets|, fault).hi + 2
    ensures At(RollbackStage(CreateStage(|assets|, fault), k - fault),
               Replay(disk, AttemptWrites(batch, digest, assets, fault)[..k]), disk, batch, digest, assets)
  {
    var create := CreateWrites(batch, digest, assets)[..fault];
    var from := CreateStage(|assets|, fault);
    var undo := RollbackWrites(batch, from.hi);
    RollbackReplay(disk, batch, digest, assets, fault, k);
    CreateReaches(disk, batch, digest, assets, fault);
    RollbackReaches(from, Replay(disk, create), disk, batch, digest, assets, k - fault);
  }

  lemma CreateAttemptReaches(disk: Disk, batch: BatchId, digest: string, assets: seq<Asset>, fault: nat, k: nat)
    requires Unknown(disk, batch, |assets|) && k <= fault && k <= |assets| + 4
    ensures At(CreateStage(|assets|, k), Replay(disk, AttemptWrites(batch, digest, assets, fault)[..k]),
               disk, batch, digest, assets)
  {
    CreateReaches(disk, batch, digest, assets, k);
    assert AttemptWrites(batch, digest, assets, fault)[..k] == CreateWrites(batch, digest, assets)[..k];
  }

  /** Whatever write fails and wherever the attempt is cut short, the disk is at a coherent stage. */
  lemma AttemptReaches(disk: Disk, batch: BatchId, digest: string, assets: seq<Asset>, fault: nat, cut: nat) returns (stage: Stage)
    requires assets != [] && Unknown(disk, batch, |assets|)
    ensures At(stage, CrashAfter(disk, AttemptWrites(batch, digest, assets, fault), cut), disk, batch, digest, assets)
    ensures Coherent(stage, |assets|)
    ensures cut >= |AttemptWrites(batch, digest, assets, fault)| ==>
      stage.journal.Absent? && stage.receipt == (fault >= |assets| + 4)
  {
    var writes := AttemptWrites(batch, digest, assets, fault);
    var k := if cut <= |writes| then cut else |writes|;
    assert writes[..|writes|] == writes;
    if k <= fault {
      CreateAttemptReaches(disk, batch, digest, assets, fault, k);
      stage := CreateStage(|assets|, k);
    } else {
      RollbackAttemptReaches(disk, batch, digest, assets, fault, k);
      stage := RollbackStage(CreateStage(|assets|, fault), k - fault);
    }
  }

  datatype Restart = Restart(order: seq<BatchId>, cut: nat)

  /** Restart after restart, each recovery possibly cut short by the next crash. */
  function AfterRestarts(disk: Disk, restarts: seq<Restart>): Disk
    decreases |restarts|
  {
    if restarts == [] then disk
    else AfterRestarts(CrashAfter(disk, RecoveryWrites(disk, restarts[0].order), restarts[0].cut), restarts[1..])
  }

  lemma {:induction false} RestartsKeepResolution(disk: Disk, restarts: seq<Restart>)
    ensures Resolve(AfterRestarts(disk, restarts)) == Resolve(disk)
    decreases |restarts|
  {
    if restarts != [] {
      RecoveryCutKeepsResolution(disk, restarts[0].order, restarts[0].cut);
      RestartsKeepResolution(CrashAfter(disk, RecoveryWrites(disk, restarts[0].order), restarts[0].cut), restarts[1..]);
    }
  }

  /**
   Batch registration is all or nothing. Whichever write fails, wherever the registration or its
   rollback is cut short, and however often recovery is cut short after that, the first recovery
   that runs to its end leaves no journal and either every record with the receipt or neither.
   */
  lemma RegistrationIsAllOrNothing(
    disk: Disk, batch: BatchId, digest: string, assets: seq<Asset>, fault: nat, cut: nat,
    restarts: seq<Restart>, order: seq<BatchId>)
    requires assets != [] && Unknown(disk, batch, |assets|)
    requires Lists(order, AfterRestarts(CrashAfter(disk, AttemptWrites(batch, digest, assets, fault), cut), restarts))
    ensures var crashed := CrashAfter(disk, AttemptWrites(batch, digest, assets, fault), cut);
            var last := AfterRestarts(crashed, restarts);
            var recovered := Replay(last, RecoveryWrites(last, order));
            || recovered == Resolve(disk)
            || recovered == Resolve(Registered(disk, batch, digest, assets))
  {
    var crashed := CrashAfter(disk, AttemptWrites(batch, digest, assets, fault), cut);
    var stage := AttemptReaches(disk, batch, digest, assets, fault, cut);
    StageResolves(stage, crashed, disk, batch, digest, assets);
    RestartsKeepResolution(crashed, restarts);
    RecoveryResolves(AfterRestarts(crashed, restarts), order);
  }

  /** An attempt that is not cut short leaves everything when no write failed, and no trace otherwise. */
  lemma AttemptEnds(disk: Disk, batch: BatchId, digest: string, assets: seq<Asset>, fault: nat)
    requires assets != [] && Unknown(disk, batch, |assets|)
    ensures Replay(disk, AttemptWrites(batch, digest, assets, fault)) ==
      if fault >= |assets| + 4 then Registered(disk, batch, digest, assets) else disk
  {
    var writes := AttemptWrites(batch, digest, assets, fault);
    var stage := AttemptReaches(disk, batch, digest, assets, fault, |writes|);
    assert writes[..|writes|] == writes;
    if fault >= |assets| + 4 {
      LastStageIsRegistered(stage, Replay(disk, writes), disk, batch, digest, assets);
    } else {
      NoStageIsUntouched(stage, Replay(disk, writes), disk, batch, digest, assets);
    }
  }

  lemma LastStageIsRegistered(stage: Stage, now: Disk, disk: Disk, batch: BatchId, digest: string, assets: seq<Asset>)
    requires Unknown(disk, batch, |assets|) && At(stage, now, disk, batch, digest, assets)
    requires Coherent(stage, |assets|) && stage.journal.Absent? && stage.receipt
    ensures now == Registered(disk, batch, digest, assets)
  {
    assert forall id :: id in BatchAssets(batch, assets) <==>
      id.FromBatch? && id.batch == batch && id.index < |assets| && id == FromBatch(batch, id.index);
    assert now.assets == Registered(disk, batch, digest, assets).assets;
  }

  lemma NoStageIsUntouched(stage: Stage, now: Disk, disk: Disk, batch: BatchId, digest: string, assets: seq<Asset>)
    requires Unknown(disk, batch, |assets|) && At(stage, now, disk, batch, digest, assets)
    requires Coherent(stage, |assets|) && stage.journal.Absent? && !stage.receipt
    ensures now == disk
  {
    assert now.assets == disk.assets;
  }

  /******* Which registrations are admitted *******/

  const BATCH_MAX_ITEMS := 50

  datatype Refusal =
    | ItemLimit | DuplicateIdentity | IdempotencyConflict | DeletionPending | AssetConflict | NotFound | StoreInvalid

  datatype Outcome = Created | Replayed(assets: seq<Asset>) | Refused(reason: Refusal)

  predicate SameIdentity(one: Asset, other: Asset) {
    one.assetType == other.assetType && one.target == other.target
  }

  predicate DistinctIdentities(assets: seq<Asset>) {
    forall i, j | 0 <= i < j < |assets| :: !SameIdentity(assets[i], assets[j])
  }

  predicate IdentityTaken(disk: Disk, assets: seq<Asset>) {
    exists id, i | id in disk.assets && 0 <= i < |assets| :: SameIdentity(disk.assets[id], assets[i])
  }

  /** Why a registration is refused before anything is written, if it is; `deleting` are the assets with a marker. */
  function Check(disk: Disk, batch: BatchId, digest: string, assets: seq<Asset>, deleting: set<AssetId>): Outcome {
    if !(1 <= |assets| <= BATCH_MAX_ITEMS) then Refused(ItemLimit)
    else if !DistinctIdentities(assets) then Refused(DuplicateIdentity)
    else if batch in disk.receipts then
      if disk.receipts[batch] != Receipt(digest, |assets|) then Refused(IdempotencyConflict)
      else if exists i :: 0 <= i < |assets| && (FromBatch(batch, i) !in disk.assets || FromBatch(batch, i) in deleting)
      then Refused(NotFound)
      else if forall i | 0 <= i < |assets| :: disk.assets[FromBatch(batch, i)] == assets[i] then Replayed(assets)
      else Refused(StoreInvalid)
    else if deleting != {} then Refused(DeletionPending)
    else if IdentityTaken(disk, assets) then Refused(AssetConflict)
    else if !Unknown(disk, batch, |assets|) then Refused(StoreInvalid)
    else Created
  }

  /** Between 1 and 50 assets, no two of one type and target. */
  predicate IsBatch(assets: seq<Asset>) {
    && 1 <= |assets| <= 50
    && forall i, j | 0 <= i < j < |assets| :: assets[i].assetType != assets[j].assetType || assets[i].target != assets[j].target
  }

  /** The receipt of the batch is there, with this digest and number of assets. */
  predicate IsRepeated(disk: Disk, batch: BatchId, digest: string, count: nat) {
    batch in disk.receipts && disk.receipts[batch].digest == digest && disk.receipts[batch].count == count
  }

  /** All records of the batch can be read. */
  predicate IsReadable(disk: Disk, batch: BatchId, count: nat, deleting: set<AssetId>) {
    forall i | 0 <= i < count :: FromBatch(batch, i) in disk.assets && FromBatch(batch, i) !in deleting
  }

  /** Some asset is registered already under another identifier. */
  predicate IsRegistered(disk: Disk, assets: seq<Asset>) {
    exists id, i | id in disk.assets && 0 <= i < |assets| ::
      disk.assets[id].assetType == assets[i].assetType && disk.assets[id].target == assets[i].target
  }

  /** A file of the batch is there although its receipt is not. */
  predicate IsInTheWay(disk: Disk, batch: BatchId, count: nat) {
    batch in disk.journals || exists i :: 0 <= i < count && FromBatch(batch, i) in disk.assets
  }

  /** Every answer with its exact condition; `fails` says that one of the writes of an admitted batch fails. */
  ghost predicate Answers(
    disk: Disk, batch: BatchId, digest: string, assets: seq<Asset>, deleting: set<AssetId>, fails: bool, outcome: Outcome)
  {
    var repeated, known := IsRepeated(disk, batch, digest, |assets|), batch in disk.receipts;
    var readable := IsReadable(disk, batch, |assets|, deleting);
    var same := readable && forall i | 0 <= i < |assets| :: disk.assets[FromBatch(batch, i)] == assets[i];
    var free := IsBatch(assets) && !known && deleting == {} && !IsRegistered(disk, assets);
    && (outcome == Refused(ItemLimit) <==> |assets| == 0 || |assets| > 50)
    && (outcome == Refused(DuplicateIdentity) <==> 1 <= |assets| <= 50 && !IsBatch(assets))
    && (outcome == Refused(IdempotencyConflict) <==> IsBatch(assets) && known && !repeated)
    && (outcome == Refused(NotFound) <==> IsBatch(assets) && repeated && !readable)
    && (outcome.Replayed? <==> IsBatch(assets) && repeated && same)
    && (outcome.Replayed? ==> outcome.assets == assets)
    && (outcome == Refused(DeletionPending) <==> IsBatch(assets) && !known && deleting != {})
    && (outcome == Refused(AssetConflict) <==> IsBatch(assets) && !known && deleting == {} && IsRegistered(disk, assets))
    && (outcome == Refused(StoreInvalid) <==>
          || (IsBatch(assets) && repeated && readable && !same)
          || (free && (fails || IsInTheWay(disk, batch, |assets|))))
    && (outcome.Created? <==> free && !IsInTheWay(disk, batch, |assets|) && !fails)
  }

  lemma ChecksInFields(disk: Disk, assets: seq<Asset>)
    ensures IdentityTaken(disk, assets) <==> IsRegistered(disk, assets)
    ensures 1 <= |assets| <= BATCH_MAX_ITEMS && DistinctIdentities(assets) <==> IsBatch(assets)
  {
    forall id, i | id in disk.assets && 0 <= i < |assets|
      ensures SameIdentity(disk.assets[id], assets[i]) <==>
        disk.assets[id].assetType == assets[i].assetType && disk.assets[id].target == assets[i].target
    {
    }
    forall i, j | 0 <= i < j < |assets|
      ensures SameIdentity(assets[i], assets[j]) <==>
        assets[i].assetType == assets[j].assetType && assets[i].target == assets[j].target
    {
    }
  }

  lemma CheckAnswers(disk: Disk, batch: BatchId, digest: string, assets: seq<Asset>, deleting: set<AssetId>)
    ensures Answers(disk, batch, digest, assets, deleting, false, Check(disk, batch, digest, assets, deleting))
  {
    ChecksInFields(disk, assets);
  }

  /******* No asset twice *******/

  /** No two assets share type and target. */
  ghost predicate IdentitiesAreUnique(disk: Disk) {
    forall a, b | a in disk.assets && b in disk.assets
      && disk.assets[a].assetType == disk.assets[b].assetType && disk.assets[a].target == disk.assets[b].target :: a == b
  }

  lemma StageIsUnique(
    stage: Stage, now: Disk, disk: Disk, batch: BatchId, digest: string, assets: seq<Asset>, deleting: set<AssetId>)
    requires IdentitiesAreUnique(disk) && Check(disk, batch, digest, assets, deleting).Created?
    requires At(stage, now, disk, batch, digest, assets)
    ensures IdentitiesAreUnique(now)
  {
    ChecksInFields(disk, assets);
    forall a, b | a in now.assets && b in now.assets
      && now.assets[a].assetType == now.assets[b].assetType && now.assets[a].target == now.assets[b].target
      ensures a == b
    {
      if a !in disk.assets && b !in disk.assets {
        assert a.index < b.index || b.index < a.index || a == b;
      }
    }
  }

  lemma RegisteredIsUnique(disk: Disk, batch: BatchId, digest: string, assets: seq<Asset>, deleting: set<AssetId>)
    requires Check(disk, batch, digest, assets, deleting).Created?
    ensures IdentitiesAreUnique(disk) ==> IdentitiesAreUnique(Registered(disk, batch, digest, assets))
  {
    if IdentitiesAreUnique(disk) {
      var fault := |assets| + 4;
      var writes := AttemptWrites(batch, digest, assets, fault);
      AttemptEnds(disk, batch, digest, assets, fault);
      var stage := AttemptReaches(disk, batch, digest, assets, fault, |writes|);
      assert writes[..|writes|] == writes;
      StageIsUnique(stage, Replay(disk, writes), disk, batch, digest, assets, deleting);
    }
  }

  predicate OnlyRemoves(writes: seq<Write>) {
    forall i | 0 <= i < |writes| :: !writes[i].PutAsset?
  }

  lemma {:induction false} RemovingKeepsUnique(disk: Disk, writes: seq<Write>)
    requires OnlyRemoves(writes)
    ensures Replay(disk, writes).assets.Keys <= disk.assets.Keys
    ensures forall id | id in Replay(disk, writes).assets :: Replay(disk, writes).assets[id] == disk.assets[id]
    decreases |writes|
  {
    if writes != [] { RemovingKeepsUnique(disk, writes[..|writes| - 1]); }
  }

  lemma {:induction false} RecoveryOnlyRemoves(disk: Disk, order: seq<BatchId>)
    ensures OnlyRemoves(RecoveryWrites(disk, order))
    decreases |order|
  {
    if order != [] {
      if order[0] !in disk.journals {
        RecoveryOnlyRemoves(disk, order[1..]);
      } else {
        var first := JournalWrites(disk, order[0]);
        RemovalsOnlyRemove(order[0], disk.journals[order[0]].count);
        RecoveryOnlyRemoves(Replay(disk, first), order[1..]);
      }
    }
  }

  lemma {:induction false} RemovalsOnlyRemove(batch: BatchId, count: nat)
    ensures OnlyRemoves(Removals(batch, count))
    decreases count
  {
    if count > 0 { RemovalsOnlyRemove(batch, count - 1); }
  }

  /******* Receipts never lie *******/

  /** A receipt whose journal is gone names only records that exist. */
  ghost predicate ReceiptsSound(disk: Disk) {
    forall batch | batch in disk.receipts ::
      if batch in disk.journals then disk.receipts[batch].count == disk.journals[batch].count
      else Complete(disk, batch, disk.receipts[batch].count)
  }

  datatype Action =
    | Register(batch: BatchId, digest: string, assets: seq<Asset>, deleting: set<AssetId>, fault: nat)
    | Recover(order: seq<BatchId>)
    | Delete(id: AssetId)
    | Update(id: AssetId, asset: Asset)
    | Add(name: string, asset: Asset, deleting: set<AssetId>)

  /** A change of an asset leaves its type and target alone. */
  predicate IsUpdate(disk: Disk, id: AssetId, asset: Asset) {
    id in disk.assets && SameIdentity(disk.assets[id], asset)
  }

  /** A single registration needs an identity and an identifier that are free. */
  predicate MayAdd(disk: Disk, name: string, asset: Asset, deleting: set<AssetId>) {
    deleting == {} && !IdentityTaken(disk, [asset]) && Single(name) !in disk.assets
  }

  function ActionWrites(disk: Disk, action: Action): seq<Write> {
    match action
    case Register(batch, digest, assets, deleting, fault) =>
      if Check(disk, batch, digest, assets, deleting).Created? then AttemptWrites(batch, digest, assets, fault) else []
    case Recover(order) => RecoveryWrites(disk, order)
    case Delete(id) => DeletionWrites(disk, id)
    case Update(id, asset) => if IsUpdate(disk, id, asset) then [PutAsset(id, asset)] else []
    case Add(name, asset, deleting) => if MayAdd(disk, name, asset, deleting) then [PutAsset(Single(name), asset)] else []
  }

  datatype Cut = Cut(action: Action, writes: nat)

  /** A run: operations one after another, each cut short after some of its writes. */
  function Run(disk: Disk, cuts: seq<Cut>): Disk
    decreases |cuts|
  {
    if cuts == [] then disk
    else Run(CrashAfter(disk, ActionWrites(disk, cuts[0].action), cuts[0].writes), cuts[1..])
  }

  lemma {:induction false} RecoveryWriteKeepsReceipts(disk: Disk, batch: BatchId, write: Write)
    requires batch in disk.journals && IsRecoveryWrite(disk, batch, write) && ReceiptsSound(disk)
    ensures ReceiptsSound(Apply(disk, write))
  {
    var after := Apply(disk, write);
    forall other | other in after.receipts && other !in after.journals
      ensures Complete(after, other, after.receipts[other].count)
    {
      assert other in disk.journals ==> other == batch && Survives(disk, batch);
      assert Complete(disk, other, after.receipts[other].count);
    }
  }

  lemma {:induction false} JournalPrefixKeepsReceipts(disk: Disk, batch: BatchId, k: nat)
    requires batch in disk.journals && k <= |JournalWrites(disk, batch)| && ReceiptsSound(disk)
    ensures ReceiptsSound(Replay(disk, JournalWrites(disk, batch)[..k]))
    decreases k
  {
    if k > 0 {
      var writes := JournalWrites(disk, batch);
      JournalPrefixKeepsReceipts(disk, batch, k - 1);
      JournalWritesRecover(disk, batch, k - 1);
      ReplayOneMore(disk, writes, k - 1);
      RecoveryWriteKeepsReceipts(Replay(disk, writes[..k - 1]), batch, writes[k - 1]);
    }
  }

  lemma {:induction false} RecoveryCutKeepsReceipts(disk: Disk, order: seq<BatchId>, cut: nat)
    requires ReceiptsSound(disk)
    ensures ReceiptsSound(CrashAfter(disk, RecoveryWrites(disk, order), cut))
    decreases |order|
  {
    var writes := RecoveryWrites(disk, order);
    if order == [] {
      assert writes[..0] == [];
    } else if order[0] !in disk.journals {
      RecoveryCutKeepsReceipts(disk, order[1..], cut);
    } else {
      var first := JournalWrites(disk, order[0]);
      if cut <= |first| {
        assert writes[..cut] == first[..cut];
        JournalPrefixKeepsReceipts(disk, order[0], cut);
      } else {
        var after := Replay(disk, first);
        var rest := RecoveryWrites(after, order[1..]);
        assert first[..|first|] == first;
        JournalPrefixKeepsReceipts(disk, order[0], |first|);
        RecoveryCutKeepsReceipts(after, order[1..], cut - |first|);
        var more := if cut - |first| <= |rest| then rest[..cut - |first|] else rest;
        assert (if cut <= |writes| then writes[..cut] else writes) == first + more;
        ReplayConcat(disk, first, more);
      }
    }
  }

  lemma StageKeepsReceipts(stage: Stage, now: Disk, disk: Disk, batch: BatchId, digest: string, assets: seq<Asset>)
    requires Unknown(disk, batch, |assets|) && ReceiptsSound(disk)
    requires At(stage, now, disk, batch, digest, assets) && Coherent(stage, |assets|)
    ensures ReceiptsSound(now)
  {
    forall other | other in now.receipts && other !in now.journals
      ensures Complete(now, other, now.receipts[other].count)
    {
      if other != batch {
        assert Complete(disk, other, disk.receipts[other].count);
      }
    }
  }

  lemma DeletionKeepsReceipts(disk: Disk, id: AssetId, cut: nat)
    requires ReceiptsSound(disk)
    ensures ReceiptsSound(CrashAfter(disk, DeletionWrites(disk, id), cut))
  {
    var writes := DeletionWrites(disk, id);
    var unnamed := if Names(disk, id) then Apply(disk, RemoveReceipt(id.batch)) else disk;
    var k := if cut <= |writes| then cut else |writes|;
    assert writes[..|writes|] == writes && writes[..0] == [];
    forall other | other in unnamed.receipts && other !in unnamed.journals
      ensures Complete(Apply(unnamed, RemoveAsset(id)), other, unnamed.receipts[other].count)
    {
      assert Complete(disk, other, disk.receipts[other].count);
    }
    if k == |writes| {
      ReplayOneMore(disk, writes, k - 1);
    }
    if Names(disk, id) && k >= 1 {
      ReplayOneMore(disk, writes, 0);
    }
  }

  lemma UpdateKeepsReceipts(disk: Disk, id: AssetId, asset: Asset)
    requires ReceiptsSound(disk)
    ensures ReceiptsSound(Apply(disk, PutAsset(id, asset)))
  {
    var after := Apply(disk, PutAsset(id, asset));
    forall batch | batch in after.receipts && batch !in after.journals
      ensures Complete(after, batch, after.receipts[batch].count)
    {
      assert Complete(disk, batch, disk.receipts[batch].count);
    }
  }

  lemma ActionKeepsReceipts(disk: Disk, action: Action, cut: nat)
    requires ReceiptsSound(disk)
    ensures ReceiptsSound(CrashAfter(disk, ActionWrites(disk, action), cut))
  {
    assert Replay(disk, []) == disk;
    match action
    case Register(batch, digest, assets, deleting, fault) =>
      if Check(disk, batch, digest, assets, deleting).Created? {
        var stage := AttemptReaches(disk, batch, digest, assets, fault, cut);
        StageKeepsReceipts(stage, CrashAfter(disk, ActionWrites(disk, action), cut), disk, batch, digest, assets);
      } else {
        assert ActionWrites(disk, action)[..0] == [];
      }
    case Recover(order) => RecoveryCutKeepsReceipts(disk, order, cut);
    case Delete(id) => DeletionKeepsReceipts(disk, id, cut);
    case Update(id, asset) => PutKeepsReceipts(disk, id, asset, ActionWrites(disk, action), cut);
    case Add(name, asset, deleting) => PutKeepsReceipts(disk, Single(name), asset, ActionWrites(disk, action), cut);
  }

  lemma PutReaches(disk: Disk, id: AssetId, asset: Asset, writes: seq<Write>, cut: nat)
    requires writes == [] || writes == [PutAsset(id, asset)]
    ensures CrashAfter(disk, writes, cut) == disk
      || (writes != [] && CrashAfter(disk, writes, cut) == Apply(disk, PutAsset(id, asset)))
  {
    assert writes[..0] == [];
    if writes != [] { assert writes[..1] == writes && Replay(disk, writes) == Apply(disk, writes[0]); }
  }

  lemma PutKeepsReceipts(disk: Disk, id: AssetId, asset: Asset, writes: seq<Write>, cut: nat)
    requires ReceiptsSound(disk) && (writes == [] || writes == [PutAsset(id, asset)])
    ensures ReceiptsSound(CrashAfter(disk, writes, cut))
  {
    UpdateKeepsReceipts(disk, id, asset);
    PutReaches(disk, id, asset, writes, cut);
  }

  lemma PutKeepsUnique(disk: Disk, id: AssetId, asset: Asset)
    requires IdentitiesAreUnique(disk) && (IsUpdate(disk, id, asset) || !IdentityTaken(disk, [asset]))
    ensures IdentitiesAreUnique(Apply(disk, PutAsset(id, asset)))
  {
    ChecksInFields(disk, [asset]);
    forall other | other in disk.assets && other != id
      ensures disk.assets[other].assetType != asset.assetType || disk.assets[other].target != asset.target
    {
      assert [asset][0] == asset;
    }
  }

  lemma ActionKeepsUnique(disk: Disk, action: Action, cut: nat)
    requires IdentitiesAreUnique(disk)
    ensures IdentitiesAreUnique(CrashAfter(disk, ActionWrites(disk, action), cut))
  {
    var writes := ActionWrites(disk, action);
    match action
    case Register(batch, digest, assets, deleting, fault) =>
      if Check(disk, batch, digest, assets, deleting).Created? {
        var stage := AttemptReaches(disk, batch, digest, assets, fault, cut);
        StageIsUnique(stage, CrashAfter(disk, writes, cut), disk, batch, digest, assets, deleting);
      } else {
        assert writes[..0] == [];
      }
    case Recover(order) =>
      RecoveryOnlyRemoves(disk, order);
      RemovingKeepsUnique(disk, if cut <= |writes| then writes[..cut] else writes);
    case Delete(id) => RemovingKeepsUnique(disk, if cut <= |writes| then writes[..cut] else writes);
    case Update(id, asset) =>
      PutReaches(disk, id, asset, writes, cut);
      if writes != [] { PutKeepsUnique(disk, id, asset); }
    case Add(name, asset, deleting) =>
      PutReaches(disk, Single(name), asset, writes, cut);
      if writes != [] { PutKeepsUnique(disk, Single(name), asset); }
  }

  /**
   Over every run, each operation cut short anywhere, no two assets on the disk ever share type and
   target, not even while a batch is under way.
   */
  lemma {:induction false} RunsKeepIdentitiesUnique(disk: Disk, cuts: seq<Cut>)
    requires IdentitiesAreUnique(disk)
    ensures IdentitiesAreUnique(Run(disk, cuts))
    decreases |cuts|
  {
    if cuts != [] {
      ActionKeepsUnique(disk, cuts[0].action, cuts[0].writes);
      RunsKeepIdentitiesUnique(CrashAfter(disk, ActionWrites(disk, cuts[0].action), cuts[0].writes), cuts[1..]);
    }
  }

  /**
   Over every run of registrations, recoveries, deletions and updates, each cut short anywhere: a
   receipt names a missing record only while its journal is still present.
   */
  lemma {:induction false} RunsKeepReceiptsSound(disk: Disk, cuts: seq<Cut>)
    requires ReceiptsSound(disk)
    ensures ReceiptsSound(Run(disk, cuts))
    decreases |cuts|
  {
    if cuts != [] {
      ActionKeepsReceipts(disk, cuts[0].action, cuts[0].writes);
      RunsKeepReceiptsSound(CrashAfter(disk, ActionWrites(disk, cuts[0].action), cuts[0].writes), cuts[1..]);
    }
  }
}
