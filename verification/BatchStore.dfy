/**
 The store's own loops for batch registration, recovery and deletion, proved to perform exactly
 the writes of `BatchRegistration`, one file at a time and in that order.
 */
module BatchStore {
  import opened BatchRegistration

  lemma FailedAttempt(disk: Disk, log: seq<Write>, batch: BatchId, digest: string, assets: seq<Asset>, fault: nat)
    requires fault < |assets| + 4
    ensures var done, undo := CreateWrites(batch, digest, assets)[..fault], RollbackWrites(batch, CreatedBefore(fault, |assets|));
            && log + AttemptWrites(batch, digest, assets, fault) == log + done + undo
            && Replay(disk, AttemptWrites(batch, digest, assets, fault)) == Replay(Replay(disk, done), undo)
  {
    var done, undo := CreateWrites(batch, digest, assets)[..fault], RollbackWrites(batch, CreatedBefore(fault, |assets|));
    assert log + (done + undo) == log + done + undo;
    ReplayConcat(disk, done, undo);
  }

  lemma RecoveryStep(disk: Disk, order: seq<BatchId>, i: nat)
    requires i < |order|
    ensures RecoveryWrites(disk, order[i..]) ==
      if order[i] !in disk.journals then RecoveryWrites(disk, order[i + 1..])
      else
        var first := JournalWrites(disk, order[i]);
        first + RecoveryWrites(Replay(disk, first), order[i + 1..])
  {
    assert order[i..][1..] == order[i + 1..];
  }

  lemma JoinIsAssociative(a: seq<Write>, b: seq<Write>, c: seq<Write>)
    ensures (a + b) + c == a + (b + c)
  {
  }

  /** The asset is one of those that the receipt counts. */
  predicate IsItemOf(id: AssetId, batch: BatchId, receipt: Receipt) {
    id.FromBatch? && id.batch == batch && id.index < receipt.count
  }

  class ActiveAssetStore {
    var disk: Disk
    ghost var log: seq<Write>

    constructor (disk: Disk)
      ensures this.disk == disk && log == []
    {
      this.disk := disk;
      log := [];
    }

    /** One atomic write. */
    method Perform(write: Write)
      modifies this
      ensures disk == Apply(old(disk), write) && log == old(log) + [write]
    {
      disk := Apply(disk, write);
      log := log + [write];
    }

    /**
     Registers a batch; `fault` is the index of the write that fails, if the attempt has that many.
     The outcome is `Created` only for a whole batch, and every other outcome leaves the disk alone.
     */
    method CreateMany(batch: BatchId, digest: string, assets: seq<Asset>, deleting: set<AssetId>, fault: nat)
      returns (outcome: Outcome)
      modifies this
      ensures var checked := Check(old(disk), batch, digest, assets, deleting);
              var writes := if checked.Created? then AttemptWrites(batch, digest, assets, fault) else [];
              && outcome == (if checked.Created? && fault < |assets| + 4 then Refused(StoreInvalid) else checked)
              && log == old(log) + writes
              && disk == Replay(old(disk), writes)
              && disk == (if outcome.Created? then Registered(old(disk), batch, digest, assets) else old(disk))
      ensures Answers(old(disk), batch, digest, assets, deleting, fault < |assets| + 4, outcome)
      ensures IdentitiesAreUnique(old(disk)) ==> IdentitiesAreUnique(disk)
    {
      CheckAnswers(disk, batch, digest, assets, deleting);
      outcome := Check(disk, batch, digest, assets, deleting);
      if outcome.Created? {
        AttemptEnds(disk, batch, digest, assets, fault);
        RegisteredIsUnique(disk, batch, digest, assets, deleting);
        var committed := Attempt(batch, digest, assets, fault);
        if !committed {
          outcome := Refused(StoreInvalid);
        }
      }
    }

    method Attempt(batch: BatchId, digest: string, assets: seq<Asset>, fault: nat) returns (committed: bool)
      modifies this
      ensures committed == (fault >= |assets| + 4)
      ensures log == old(log) + AttemptWrites(batch, digest, assets, fault)
      ensures disk == Replay(old(disk), AttemptWrites(batch, digest, assets, fault))
    {
      ghost var writes := CreateWrites(batch, digest, assets);
      var created, next;
      committed, next := AttemptWrite(
        writes, true, 0, fault, PutJournal(batch, Journal(digest, |assets|, Pending)), old(disk), old(log));
      committed, next, created := AttemptRecords(writes, committed, next, fault, batch, digest, assets, old(disk), old(log));
      committed, next := AttemptCommit(writes, committed, next, fault, batch, digest, assets, old(disk), old(log));
      if committed {
        assert writes[..next] == writes;
      } else {
        FailedAttempt(old(disk), old(log), batch, digest, assets, fault);
        Rollback(batch, created);
      }
    }

    method AttemptRecords(
      ghost writes: seq<Write>, trying: bool, done: nat, fault: nat,
      batch: BatchId, ghost digest: string, assets: seq<Asset>, ghost start: Disk, ghost logged: seq<Write>)
      returns (still: bool, next: nat, created: nat)
      requires writes == CreateWrites(batch, digest, assets)
      requires if trying then done == 1 <= fault else done == fault == 0
      requires log == logged + writes[..done] && disk == Replay(start, writes[..done])
      modifies this
      ensures still == (fault > |assets|)
      ensures next == if still then |assets| + 1 else fault
      ensures created == CreatedBefore(next, |assets|)
      ensures log == logged + writes[..next] && disk == Replay(start, writes[..next])
    {
      still, next, created := trying, done, 0;
      while still && created < |assets|
        invariant created <= |assets| && next <= |assets| + 1
        invariant log == logged + writes[..next] && disk == Replay(start, writes[..next])
        invariant if still then next == created + 1 <= fault
                  else next == fault <= |assets| && created == CreatedBefore(fault, |assets|)
      {
        assert writes[next] == PutAsset(FromBatch(batch, created), assets[created]);
        still, next := AttemptWrite(writes, still, next, fault, PutAsset(FromBatch(batch, created), assets[created]), start, logged);
        if still {
          created := created + 1;
        }
      }
    }

    method AttemptCommit(
      ghost writes: seq<Write>, trying: bool, done: nat, fault: nat,
      batch: BatchId, digest: string, assets: seq<Asset>, ghost start: Disk, ghost logged: seq<Write>)
      returns (still: bool, next: nat)
      requires writes == CreateWrites(batch, digest, assets)
      requires trying == (fault > |assets|) && done == if trying then |assets| + 1 else fault
      requires log == logged + writes[..done] && disk == Replay(start, writes[..done])
      modifies this
      ensures still == (fault >= |writes|)
      ensures next == if still then |writes| else fault
      ensures log == logged + writes[..next] && disk == Replay(start, writes[..next])
    {
      still, next := AttemptWrite(
        writes, trying, done, fault, PutJournal(batch, Journal(digest, |assets|, Committed)), start, logged);
      still, next := AttemptWrite(writes, still, next, fault, PutReceipt(batch, Receipt(digest, |assets|)), start, logged);
      still, next := AttemptWrite(writes, still, next, fault, RemoveJournal(batch), start, logged);
    }

    // Performs `write` unless an earlier write of the attempt failed or this one does.
    method AttemptWrite(
      ghost writes: seq<Write>, trying: bool, done: nat, fault: nat, write: Write, ghost start: Disk, ghost logged: seq<Write>)
      returns (still: bool, next: nat)
      requires done <= |writes| && (trying ==> done < |writes| && writes[done] == write)
      requires log == logged + writes[..done] && disk == Replay(start, writes[..done])
      requires if trying then done <= fault else done == fault
      modifies this
      ensures still == (trying && done != fault)
      ensures next == (if still then done + 1 else done)
      ensures log == logged + writes[..next] && disk == Replay(start, writes[..next])
    {
      still, next := trying && done != fault, done;
      if still {
        Perform(write);
        ReplayOneMore(start, writes, done);
        next := done + 1;
      }
    }

    method Rollback(batch: BatchId, created: nat)
      modifies this
      ensures log == old(log) + RollbackWrites(batch, created)
      ensures disk == Replay(old(disk), RollbackWrites(batch, created))
    {
      ghost var writes := RollbackWrites(batch, created);
      for i := 0 to created
        invariant log == old(log) + writes[..i] && disk == Replay(old(disk), writes[..i])
      {
        Perform(RemoveAsset(FromBatch(batch, i)));
        ReplayOneMore(old(disk), writes, i);
      }
      Perform(RemoveReceipt(batch));
      ReplayOneMore(old(disk), writes, created);
      Perform(RemoveJournal(batch));
      ReplayOneMore(old(disk), writes, created + 1);
      assert writes[..created + 2] == writes;
    }

    /** Recovery at restart: every listed journal is finished or rolled back. */
    method RecoverBatchTransactions(order: seq<BatchId>)
      modifies this
      ensures log == old(log) + RecoveryWrites(old(disk), order)
      ensures disk == Replay(old(disk), RecoveryWrites(old(disk), order))
      ensures Lists(order, old(disk)) ==> disk == Resolve(old(disk))
    {
      ghost var all := RecoveryWrites(disk, order);
      ghost var done: seq<Write> := [];
      if Lists(order, disk) {
        RecoveryResolves(disk, order);
      }
      for i := 0 to |order|
        invariant log == old(log) + done && disk == Replay(old(disk), done)
        invariant done + RecoveryWrites(disk, order[i..]) == all
      {
        RecoveryStep(disk, order, i);
        if order[i] in disk.journals {
          ghost var first := JournalWrites(disk, order[i]);
          ReplayConcat(old(disk), done, first);
          JoinIsAssociative(done, first, RecoveryWrites(Replay(disk, first), order[i + 1..]));
          RecoverJournal(order[i]);
          done := done + first;
        }
      }
      assert order[|order|..] == [] && done == done + [];
    }

    method RecoverJournal(batch: BatchId)
      requires batch in disk.journals
      modifies this
      ensures log == old(log) + JournalWrites(old(disk), batch)
      ensures disk == Replay(old(disk), JournalWrites(old(disk), batch))
    {
      var journal := disk.journals[batch];
      var complete := true;
      for i := 0 to journal.count
        invariant complete <==> Complete(disk, batch, i)
      {
        complete := complete && FromBatch(batch, i) in disk.assets;
      }
      if journal.state == Committed && complete {
        ghost var writes := JournalWrites(disk, batch);
        if batch !in disk.receipts {
          Perform(PutReceipt(batch, Receipt(journal.digest, journal.count)));
          ReplayOneMore(old(disk), writes, 0);
        }
        Perform(RemoveJournal(batch));
        ReplayOneMore(old(disk), writes, |writes| - 1);
        assert writes[..|writes|] == writes;
      } else {
        Rollback(batch, journal.count);
      }
    }

    method DeleteForDeletion(id: AssetId)
      modifies this
      ensures log == old(log) + DeletionWrites(old(disk), id)
      ensures disk == Replay(old(disk), DeletionWrites(old(disk), id))
      ensures id !in disk.assets && !Names(disk, id)
      ensures disk.assets == old(disk).assets - {id} && disk.journals == old(disk).journals
      ensures disk.receipts == old(disk).receipts - (set batch | batch in old(disk).receipts && IsItemOf(id, batch, old(disk).receipts[batch]))
    {
      ghost var writes := DeletionWrites(disk, id);
      if Names(disk, id) {
        Perform(RemoveReceipt(id.batch));
        ReplayOneMore(old(disk), writes, 0);
      }
      Perform(RemoveAsset(id));
      ReplayOneMore(old(disk), writes, |writes| - 1);
      assert writes[..|writes|] == writes;
    }
  }
}
