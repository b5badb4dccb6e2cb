/**
 The index over recurrence records: one object per process over shared storage. Its methods follow
 the steps of `IndexSync`, and its queries answer from the table what the JSON store says.
 */
module RecurrenceIndex {
  import opened Common
  import opened IndexSync
  import opened Keyset
  import RecurrenceSchedule

  const QUERY_BATCH_SIZE: nat := 100
  const MAX_DUE_PER_TICK: nat := 16

  /******* What the queries mean, in terms of the store *******/

  predicate Due(status: Status, nextRun: int, nextRetry: Option<int>, now: int) {
    status.Active? && nextRun <= now && (nextRetry.None? || nextRetry.value <= now)
  }

  function DueFiles(files: map<string, Record>, now: int): set<TimeKey> {
    set id | id in files && Due(files[id].status, files[id].nextRun, files[id].nextRetry, now) :: TimeKey(files[id].nextRun, id)
  }

  function OfAsset(files: map<string, Record>, organization: string, asset: string): map<string, Record> {
    map id | id in files && files[id].organization == organization && files[id].asset == asset :: files[id]
  }

  function DueRows(rows: map<string, Row>, now: int): set<TimeKey> {
    set id | id in rows && Due(rows[id].status, rows[id].nextRun, rows[id].nextRetry, now) :: TimeKey(rows[id].nextRun, id)
  }

  predicate Chosen(files: map<string, Record>, eligible: Record -> bool, key: TimeKey) {
    key.id in files && eligible(files[key.id])
  }

  ghost predicate AreRecordsOf(records: seq<Record>, keys: seq<TimeKey>, files: map<string, Record>) {
    && |records| == |keys|
    && forall i | 0 <= i < |keys| :: keys[i].id in files && records[i] == files[keys[i].id]
  }

  function Kept(keys: seq<TimeKey>, files: map<string, Record>, eligible: Record -> bool): seq<TimeKey> {
    Filter(keys, key => Chosen(files, eligible, key))
  }

  /** The keys of the first `limit` eligible records among all due ones, by next run and identifier. */
  function FirstDue(files: map<string, Record>, now: int, limit: nat, eligible: Record -> bool): seq<TimeKey>
  {
    Take(limit, Kept(InOrder(DueFiles(files, now)), files, eligible))
  }

  lemma DueRowsAreDueFiles(files: map<string, Record>, rows: map<string, Row>, now: int)
    requires rows == Projection(files)
    ensures DueRows(rows, now) == DueFiles(files, now)
  {
    assert forall id | id in files ::
      Due(rows[id].status, rows[id].nextRun, rows[id].nextRetry, now) == Due(files[id].status, files[id].nextRun, files[id].nextRetry, now);
  }

  function Past(keys: set<TimeKey>, cursor: Option<TimeKey>): set<TimeKey> {
    set k | k in keys && (cursor.None? || Earlier(cursor.value, k))
  }

  function Page(keys: set<TimeKey>, cursor: Option<TimeKey>): seq<TimeKey> {
    Take(QUERY_BATCH_SIZE, InOrder(Past(keys, cursor)))
  }

  lemma RestBehindCursor(keys: set<TimeKey>, n: nat, cursor: Option<TimeKey>)
    requires n <= |InOrder(keys)|
    requires if n == 0 then cursor.None? else cursor == Some(InOrder(keys)[n - 1])
    ensures InOrder(Past(keys, cursor)) == InOrder(keys)[n..]
  {
    if n == 0 {
      assert Past(keys, cursor) == keys;
    } else {
      InOrderPast(keys, n - 1, Past(keys, cursor));
    }
  }

  /******* What a caller gets, in the fields of the records *******/

  predicate IsWanted(record: Record, now: int, eligible: Record -> bool) {
    && record.status.Active? && record.nextRun <= now && (record.nextRetry.Some? ==> record.nextRetry.value <= now)
    && eligible(record)
  }

  /** The `limit` first of the wanted records by next run and identifier, or all of them. */
  ghost predicate ListsFirst(keys: seq<TimeKey>, files: map<string, Record>, now: int, limit: nat, eligible: Record -> bool) {
    && |keys| <= limit && Ascending(keys, Earlier)
    && (forall key | key in keys :: key.id in files && key.time == files[key.id].nextRun && IsWanted(files[key.id], now, eligible))
    && (forall id | id in files && IsWanted(files[id], now, eligible) && TimeKey(files[id].nextRun, id) !in keys ::
          |keys| == limit && forall key | key in keys :: Earlier(key, TimeKey(files[id].nextRun, id)))
  }

  lemma FirstDueIsFirst(files: map<string, Record>, now: int, limit: nat, eligible: Record -> bool)
    ensures ListsFirst(FirstDue(files, now, limit, eligible), files, now, limit, eligible)
  {
    var due := InOrder(DueFiles(files, now));
    var kept := Kept(due, files, eligible);
    FilterKeepsOrder(due, key => Chosen(files, eligible, key), Earlier);
    TimeKeysAreOrdered();
    TakenFirst(kept, limit, Earlier);
    forall key | key in kept
      ensures key.id in files && key.time == files[key.id].nextRun && IsWanted(files[key.id], now, eligible)
    {
      assert key in Elements(due);
    }
    forall id | id in files && IsWanted(files[id], now, eligible)
      ensures TimeKey(files[id].nextRun, id) in kept
    {
      assert TimeKey(files[id].nextRun, id) in Elements(due);
    }
  }

  /** The status of a schedule and the status that its record has. */
  predicate SameStatus(status: RecurrenceSchedule.Status, recorded: Status) {
    && (status.Active? <==> recorded.Active?) && (status.Paused? <==> recorded.Paused?)
  }

  /** The query for due rows and the schedules' own notion of being due are the same. */
  lemma DueIsDue(schedule: RecurrenceSchedule.Schedule, record: Record, now: int)
    requires SameStatus(schedule.status, record.status)
    requires schedule.nextRun == record.nextRun && schedule.nextRetry == record.nextRetry
    ensures RecurrenceSchedule.IsDue(schedule, now) <==> Due(record.status, record.nextRun, record.nextRetry, now)
    ensures RecurrenceSchedule.IsDue(schedule, now) <==> IsWanted(record, now, _ => true)
  {
  }

  /** The page behind the cursor is read from the rest of the whole order. */
  lemma PageBehindCursor(keys: set<TimeKey>, all: seq<TimeKey>, n: nat, cursor: Option<TimeKey>)
    requires all == InOrder(keys) && n <= |all|
    requires if n == 0 then cursor.None? else cursor == Some(all[n - 1])
    ensures Page(keys, cursor) == Take(QUERY_BATCH_SIZE, all[n..])
  {
    RestBehindCursor(keys, n, cursor);
  }

  /** Keeping what is chosen and cutting off commute once enough is found. */
  lemma FoundIsFirst(all: seq<TimeKey>, n: nat, limit: nat, files: map<string, Record>, eligible: Record -> bool)
    requires n <= |all|
    requires
      var found := |Kept(all[..n], files, eligible)|;
      found == limit || (n == |all| && found <= limit)
    ensures Kept(all[..n], files, eligible) == Take(limit, Kept(all, files, eligible))
  {
    assert all == all[..n] + all[n..];
    FilterJoin(all[..n], all[n..], key => Chosen(files, eligible, key));
  }

  lemma RowIsFile(disk: Disk, id: string)
    requires Agrees(disk) && id in disk.files
    ensures id in disk.database.value.rows && disk.database.value.rows[id] == RowOf(disk.files[id])
  {
  }

  /** One more key looked at, and its record kept if it is eligible. */
  lemma KeptNext(all: seq<TimeKey>, n: nat, files: map<string, Record>, eligible: Record -> bool, records: seq<Record>)
    requires n < |all| && all[n].id in files
    requires AreRecordsOf(records, Kept(all[..n], files, eligible), files)
    ensures
      var record := files[all[n].id];
      AreRecordsOf(if eligible(record) then records + [record] else records, Kept(all[..n + 1], files, eligible), files)
  {
    KeptOneMore(all, n, files, eligible);
  }

  lemma KeptOneMore(all: seq<TimeKey>, n: nat, files: map<string, Record>, eligible: Record -> bool)
    requires n < |all|
    ensures Kept(all[..n + 1], files, eligible) ==
      Kept(all[..n], files, eligible) + (if Chosen(files, eligible, all[n]) then [all[n]] else [])
  {
    assert all[..n + 1] == all[..n] + [all[n]];
    var keep := key => Chosen(files, eligible, key);
    FilterJoin(all[..n], [all[n]], keep);
    assert Filter([all[n]], keep) == if keep(all[n]) then [all[n]] else [];
  }

  lemma OrderedAreElements(keys: set<TimeKey>, all: seq<TimeKey>)
    requires all == InOrder(keys)
    ensures forall i | 0 <= i < |all| :: all[i] in keys
  {
    assert forall i | 0 <= i < |all| :: all[i] in Elements(all);
  }

  class Storage {
    var disk: Disk

    constructor (found: Disk)
      ensures disk == found
    {
      disk := found;
    }
  }

  class ActiveRecurrenceIndex {
    const storage: Storage
    var memory: Memory

    constructor (storage: Storage)
      ensures this.storage == storage && memory == FORGOTTEN
    {
      this.storage := storage;
      memory := FORGOTTEN;
    }

    method Rebuild()
      modifies this, storage
      ensures Pair(storage.disk, memory) == Rebuilt(old(storage.disk))
    {
      var files := storage.disk.files;
      var ids := files.Keys;
      var rows: map<string, Row> := map[];
      while ids != {}
        invariant ids <= files.Keys
        invariant forall id :: id in rows <==> id in files && id !in ids
        invariant forall id | id in rows :: rows[id] == RowOf(files[id])
        decreases |ids|
      {
        var id :| id in ids;
        rows := rows[id := RowOf(files[id])];
        ids := ids - {id};
      }
      assert rows == Projection(files);
      var disk := storage.disk;
      storage.disk := disk.(database := Some(Database(rows, disk.generation)), version := disk.version + 1);
      memory := Memory(Some(disk.version + 1), disk.generation);
    }

    /** Adopts a database file left by an earlier process if it was taken from the present directory. */
    method AdoptExisting(sound: bool) returns (adopted: bool)
      requires storage.disk.database.Some?
      modifies this
      ensures adopted <==> sound && TokenIsCurrent(storage.disk)
      ensures memory == if adopted then Memory(Some(storage.disk.version), storage.disk.generation) else old(memory)
    {
      adopted := sound && storage.disk.database.value.token == storage.disk.generation;
      if adopted { memory := Memory(Some(storage.disk.version), storage.disk.generation); }
    }

    method Refresh(sound: bool)
      modifies this, storage
      ensures Pair(storage.disk, memory) == EnsureCurrent(old(storage.disk), old(memory), sound)
    {
      if memory.fileState.None? && storage.disk.database.Some? {
        var adopted := AdoptExisting(sound);
        if !adopted { Rebuild(); }
        return;
      }
      if memory.fileState.None? || storage.disk.database.None? {
        Rebuild();
        return;
      }
      if storage.disk.version != memory.fileState.value || storage.disk.generation != memory.sourceState {
        Rebuild();
      }
    }

    /** Stores a change that already is in the JSON store; `works` says whether the transaction succeeds. */
    method SyncAfter(change: Change, works: bool)
      modifies this, storage
      ensures Pair(storage.disk, memory) ==
        if works || old(memory).fileState.None? then Sync(old(storage.disk), old(memory), change)
        else Rebuilt(old(storage.disk))
    {
      if memory.fileState.None? { return; }
      if !works || storage.disk.database.None? {
        Rebuild();
        return;
      }
      var disk := storage.disk;
      var database := Database(ChangeRows(disk.database.value.rows, change), disk.generation);
      storage.disk := disk.(database := Some(database), version := disk.version + 1);
      memory := Memory(Some(disk.version + 1), disk.generation);
    }

    /** A row is answered with its record only if the two agree in every field. */
    method LoadValidated(id: string) returns (record: Option<Record>)
      requires storage.disk.database.Some? && id in storage.disk.database.value.rows
      ensures record.Some? <==> id in storage.disk.files && storage.disk.database.value.rows[id] == RowOf(storage.disk.files[id])
      ensures record.Some? ==> record.value == storage.disk.files[id]
    {
      if id in storage.disk.files && storage.disk.database.value.rows[id] == RowOf(storage.disk.files[id]) {
        return Some(storage.disk.files[id]);
      }
      return None;
    }

    /** Loads one row and keeps its record if it is eligible. */
    method ScanRow(key: TimeKey, found: seq<Record>, eligible: Record -> bool, files: map<string, Record>,
                   ghost all: seq<TimeKey>, ghost n: nat)
      returns (records: seq<Record>)
      requires Agrees(storage.disk) && files == storage.disk.files
      requires n < |all| && key == all[n] && key.id in files
      requires AreRecordsOf(found, Kept(all[..n], files, eligible), files)
      ensures AreRecordsOf(records, Kept(all[..n + 1], files, eligible), files) && |records| <= |found| + 1
    {
      RowIsFile(storage.disk, key.id);
      KeptNext(all, n, files, eligible, found);
      var record := LoadValidated(key.id);
      records := if eligible(record.value) then found + [record.value] else found;
    }

    /** Reads one page of rows into `found`, up to `limit` eligible records in all. */
    method ScanPage(page: seq<TimeKey>, found: seq<Record>, limit: nat, eligible: Record -> bool,
                    files: map<string, Record>, ghost all: seq<TimeKey>, ghost n: nat)
      returns (records: seq<Record>, ghost seen: nat)
      requires Agrees(storage.disk) && files == storage.disk.files
      requires n + |page| <= |all| && page == all[n..n + |page|]
      requires forall i | 0 <= i < |all| :: all[i].id in files
      requires AreRecordsOf(found, Kept(all[..n], files, eligible), files)
      requires |found| < limit
      ensures n <= seen <= n + |page| && |records| <= limit
      ensures AreRecordsOf(records, Kept(all[..seen], files, eligible), files)
      ensures |records| < limit ==> seen == n + |page|
    {
      records := found;
      seen := n;
      var i := 0;
      while i < |page| && |records| < limit
        invariant 0 <= i <= |page| && seen == n + i
        invariant |records| <= limit
        invariant AreRecordsOf(records, Kept(all[..seen], files, eligible), files)
      {
        assert page[i] == all[seen];
        records := ScanRow(page[i], records, eligible, files, all, seen);
        i := i + 1;
        seen := seen + 1;
      }
    }

    /**
     The first `limit` eligible due records of the whole store in order, however many pages they
     spread over and whatever the table held before.
     */
    method DueRecords(now: int, limit: int, eligible: Record -> bool, sound: bool) returns (records: Option<seq<Record>>)
      requires Honest(storage.disk) && Linked(storage.disk, memory)
      modifies this, storage
      ensures storage.disk.files == old(storage.disk).files
      ensures records.Some? <==> 1 <= limit <= 16
      ensures records.Some? ==>
        && AreRecordsOf(records.value, FirstDue(storage.disk.files, now, limit, eligible), storage.disk.files)
        && ListsFirst(FirstDue(storage.disk.files, now, limit, eligible), storage.disk.files, now, limit, eligible)
    {
      if !(1 <= limit <= MAX_DUE_PER_TICK) { return None; }
      QueriesSeeTheStore(storage.disk, memory, sound);
      Refresh(sound);
      DueRowsAreDueFiles(storage.disk.files, storage.disk.database.value.rows, now);
      var found := ReadPages(DueRows(storage.disk.database.value.rows, now), limit, eligible);
      FirstDueIsFirst(storage.disk.files, now, limit, eligible);
      return Some(found);
    }

    /** Reads the page behind the cursor. */
    method ReadPage(due: set<TimeKey>, cursor: Option<TimeKey>, found: seq<Record>, limit: nat, eligible: Record -> bool,
                    files: map<string, Record>, ghost all: seq<TimeKey>, ghost n: nat)
      returns (records: seq<Record>, next: Option<TimeKey>, last: bool, ghost seen: nat)
      requires Agrees(storage.disk) && files == storage.disk.files && all == InOrder(due) && n <= |all|
      requires forall i | 0 <= i < |all| :: all[i].id in files
      requires if n == 0 then cursor.None? else cursor == Some(all[n - 1])
      requires |found| < limit && AreRecordsOf(found, Kept(all[..n], files, eligible), files)
      ensures n <= seen <= |all| && |records| <= limit && AreRecordsOf(records, Kept(all[..seen], files, eligible), files)
      ensures |records| < limit && last ==> seen == |all|
      ensures |records| < limit && !last ==> seen > n && next == Some(all[seen - 1])
    {
      var page := Page(due, cursor);
      assert page == Take(QUERY_BATCH_SIZE, all[n..]) by { PageBehindCursor(due, all, n, cursor); }
      assert n + |page| <= |all| && page == all[n..n + |page|] && (|page| < QUERY_BATCH_SIZE ==> n + |page| == |all|) by {
        TakeOfTail(all, n, page, QUERY_BATCH_SIZE);
      }
      if page == [] { return found, cursor, true, n; }
      records, seen := ScanPage(page, found, limit, eligible, files, all, n);
      next := Some(page[|page| - 1]);
      last := |page| < QUERY_BATCH_SIZE;
    }

    /** The paging loop over a table that agrees with the store. */
    method ReadPages(due: set<TimeKey>, limit: nat, eligible: Record -> bool) returns (found: seq<Record>)
      requires Agrees(storage.disk)
      requires forall key | key in due :: key.id in storage.disk.files
      ensures AreRecordsOf(found, Take(limit, Kept(InOrder(due), storage.disk.files, eligible)), storage.disk.files)
    {
      var files := storage.disk.files;
      ghost var all := InOrder(due);
      OrderedAreElements(due, all);
      found := [];
      var cursor: Option<TimeKey> := None;
      ghost var n := 0;
      var last := false;
      while |found| < limit && !last
        invariant n <= |all| && |found| <= limit
        invariant |found| < limit && !last ==> if n == 0 then cursor.None? else cursor == Some(all[n - 1])
        invariant |found| < limit && last ==> n == |all|
        invariant AreRecordsOf(found, Kept(all[..n], files, eligible), files)
        decreases |all| - n, |found| < limit && !last
      {
        found, cursor, last, n := ReadPage(due, cursor, found, limit, eligible, files, all, n);
      }
      FoundIsFirst(all, n, limit, files, eligible);
    }

    /** Loads the records of some rows; over a table that agrees with the store none is refused. */
    method LoadAll(wanted: set<string>) returns (found: Option<map<string, Record>>)
      requires Agrees(storage.disk) && wanted <= storage.disk.database.value.rows.Keys
      ensures found.Some? && found.value.Keys == wanted
      ensures forall id | id in wanted :: id in storage.disk.files && found.value[id] == storage.disk.files[id]
    {
      var ids, loaded := wanted, map[];
      while ids != {}
        invariant ids <= wanted && loaded.Keys == wanted - ids
        invariant forall id | id in loaded :: loaded[id] == storage.disk.files[id]
        decreases |ids|
      {
        var id :| id in ids;
        var record := LoadValidated(id);
        if record.None? { return None; }
        loaded := loaded[id := record.value];
        ids := ids - {id};
      }
      return Some(loaded);
    }

    /** An asset's records are those of the store. */
    method RecordsForAsset(organization: string, asset: string, sound: bool) returns (records: Option<map<string, Record>>)
      requires Honest(storage.disk) && Linked(storage.disk, memory)
      modifies this, storage
      ensures storage.disk.files == old(storage.disk).files
      ensures records == Some(OfAsset(storage.disk.files, organization, asset))
    {
      QueriesSeeTheStore(storage.disk, memory, sound);
      Refresh(sound);
      var rows := storage.disk.database.value.rows;
      var ids := set id | id in rows && rows[id].organization == organization && rows[id].asset == asset;
      assert ids == OfAsset(storage.disk.files, organization, asset).Keys;
      records := LoadAll(ids);
      assert records.value == OfAsset(storage.disk.files, organization, asset);
    }
  }
}
